/** Reading metrics out of parsed stats dictionaries: `stats.get(key, 0)`
    and the per-configuration series built from it. */
module Metrics {
  import opened Wrappers
  import opened StatsParser

  /** `stats.get(key, default)`. */
  function GetOr<V>(stats: map<string, V>, key: string, default: V): V {
    if key in stats then stats[key] else default
  }

  /** `[stats.get(key, default) for stats in statsList]`. */
  function Series<V>(statsList: seq<map<string, V>>, key: string, default: V): (values: seq<V>)
    ensures |values| == |statsList|
    ensures forall i :: 0 <= i < |statsList| ==>
      (key in statsList[i] ==> values[i] == statsList[i][key]) &&
      (key !in statsList[i] ==> values[i] == default)
  {
    if statsList == [] then []
    else [GetOr(statsList[0], key, default)] + Series(statsList[1..], key, default)
  }

  /** A metric that no line of a file sets reads as the default. */
  lemma MissingMetricReadsDefault<V>(lines: seq<string>, key: string, default: V, parse: string -> Option<V>)
    requires forall i :: 0 <= i < |lines| ==> !Defines(lines[i], key, parse)
    ensures GetOr(StatsOf(lines, parse), key, default) == default
  {
    StatsKeys(lines, key, parse);
  }

  /** A metric set by some line reads as the value of the last such line. */
  lemma PresentMetricReadsLastValue<V>(lines: seq<string>, i: nat, key: string, value: V, default: V, parse: string -> Option<V>)
    requires i < |lines| && ParseLine(lines[i], parse) == Some((key, value))
    requires forall j :: i < j < |lines| ==> !Defines(lines[j], key, parse)
    ensures GetOr(StatsOf(lines, parse), key, default) == value
  {
    LastLineWins(lines, i, key, value, parse);
  }
}
