/** The data side of Utilities/plotter.py: two runs of the same benchmarks
    (the base O3 CPU and the modified CPU), each parsed file by file, the
    x-axis labels taken from the first run's file names, and one series per
    plotted metric and run. The `float` conversion is the parameter `parse`
    and `zero` is the `0` that `stats.get(stat_key, 0)` falls back to. */
module Plotter {
  import opened Wrappers
  import opened PyPath
  import opened PyText
  import opened StatsParser
  import opened Metrics

  /** The metrics `main` compares, one figure each. */
  const IpcMetric: string := "system.cpu.ipc"
  const SimSecondsMetric: string := "simSeconds"
  const CpiMetric: string := "system.cpu.cpi"

  /** `[os.path.basename(f) for f in files]`. */
  function Labels(files: seq<string>): (labels: seq<string>)
    ensures |labels| == |files|
    ensures forall i :: 0 <= i < |files| ==> labels[i] == Basename(files[i])
  {
    if files == [] then [] else [Basename(files[0])] + Labels(files[1..])
  }

  /** When the file names carry no directory part, as in `main`'s lists,
      each label is the file name itself, extension included. */
  lemma LabelsOfPlainNames(files: seq<string>)
    requires forall k, i :: 0 <= k < |files| && 0 <= i < |files[k]| ==> files[k][i] != '/'
    ensures Labels(files) == files
  {
    forall k | 0 <= k < |files| ensures Labels(files)[k] == files[k] {
      var b := Basename(files[k]);
      assert |b| == |files[k]|;
    }
  }

  /** `[parse_stats_file(os.path.join(base_dir, f)) for f in files]`, with
      each file given as its name and lines. */
  method ParseRun<V>(files: seq<StatsFile>, parse: string -> Option<V>) returns (statsSet: seq<map<string, V>>)
    ensures |statsSet| == |files|
    ensures forall i :: 0 <= i < |files| ==> statsSet[i] == StatsOf(files[i].lines, parse)
  {
    statsSet := [];
    for i := 0 to |files|
      invariant |statsSet| == i
      invariant forall j :: 0 <= j < i ==> statsSet[j] == StatsOf(files[j].lines, parse)
    {
      var stats := ParseStatsFile(files[i].lines, parse);
      statsSet := statsSet + [stats];
    }
  }

  /** The data `main` hands to every plot: both runs parsed and the labels
      of the first run; the second run's names play no part in the labels. */
  method LoadRuns<V>(files1: seq<StatsFile>, files2: seq<StatsFile>, parse: string -> Option<V>)
    returns (statsSet1: seq<map<string, V>>, statsSet2: seq<map<string, V>>, labels: seq<string>)
    ensures |statsSet1| == |files1| == |labels| && |statsSet2| == |files2|
    ensures forall i :: 0 <= i < |files1| ==> statsSet1[i] == StatsOf(files1[i].lines, parse)
    ensures forall i :: 0 <= i < |files2| ==> statsSet2[i] == StatsOf(files2[i].lines, parse)
    ensures labels == Labels(FileNames(files1))
  {
    statsSet1 := ParseRun(files1, parse);
    statsSet2 := ParseRun(files2, parse);
    labels := Labels(FileNames(files1));
  }

  /** The bar of benchmark `i` in the series of `statKey` is the value the
      last line of that file sets for the key, or `zero` if no line does. */
  lemma {:induction false} PlottedValue<V>(files: seq<StatsFile>, statsSet: seq<map<string, V>>, i: nat,
                                           statKey: string, zero: V, parse: string -> Option<V>)
    requires |statsSet| == |files| && i < |files|
    requires forall j :: 0 <= j < |files| ==> statsSet[j] == StatsOf(files[j].lines, parse)
    ensures (exists k :: 0 <= k < |files[i].lines| && Defines(files[i].lines[k], statKey, parse)) ==>
      statKey in StatsOf(files[i].lines, parse) &&
      Series(statsSet, statKey, zero)[i] == StatsOf(files[i].lines, parse)[statKey]
    ensures (forall k :: 0 <= k < |files[i].lines| ==> !Defines(files[i].lines[k], statKey, parse)) ==>
      Series(statsSet, statKey, zero)[i] == zero
  {
    StatsKeys(files[i].lines, statKey, parse);
  }

  /** The bar of benchmark `i` is the value of the last line of that file
      that sets the metric. */
  lemma PlottedLastValue<V>(files: seq<StatsFile>, statsSet: seq<map<string, V>>, i: nat, k: nat,
                            statKey: string, value: V, zero: V, parse: string -> Option<V>)
    requires |statsSet| == |files| && i < |files|
    requires forall j :: 0 <= j < |files| ==> statsSet[j] == StatsOf(files[j].lines, parse)
    requires k < |files[i].lines| && ParseLine(files[i].lines[k], parse) == Some((statKey, value))
    requires forall j :: k < j < |files[i].lines| ==> !Defines(files[i].lines[j], statKey, parse)
    ensures Series(statsSet, statKey, zero)[i] == value
  {
    LastLineWins(files[i].lines, k, statKey, value, parse);
  }

  /** A run whose file `i` is the single line `m value`, for one of the
      three metrics `main` compares, plots the converted value as bar `i`. */
  lemma PlottedMetricOfOneLineFile<V>(files: seq<StatsFile>, statsSet: seq<map<string, V>>, i: nat,
                                      m: string, value: string, x: V, zero: V, parse: string -> Option<V>)
    requires m == IpcMetric || m == SimSecondsMetric || m == CpiMetric
    requires |statsSet| == |files| && i < |files|
    requires forall j :: 0 <= j < |files| ==> statsSet[j] == StatsOf(files[j].lines, parse)
    requires files[i].lines == [Join([m, value])]
    requires IsToken(value) && !ContainsSub(Join([m, value]), "::")
    requires parse(value) == Some(x)
    ensures Series(statsSet, m, zero)[i] == x
  {
    ComparedMetricIsName(m);
    OneMetricFile(m, value, x, parse);
  }

  /** Each compared metric is a single token that is not a comment. */
  lemma ComparedMetricIsName(m: string)
    requires m == IpcMetric || m == SimSecondsMetric || m == CpiMetric
    ensures IsToken(m) && m[0] != '#'
  {
    if m == IpcMetric {
      assert forall i :: 0 <= i < |m| ==> !IsSpace(m[i]);
    } else if m == SimSecondsMetric {
      assert forall i :: 0 <= i < |m| ==> !IsSpace(m[i]);
    } else {
      assert forall i :: 0 <= i < |m| ==> !IsSpace(m[i]);
    }
  }
}
