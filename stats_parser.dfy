/** `parse_stats_file`, shared by both plotting scripts: each line of a gem5
    stats dump either contributes one (name, value) pair to the dictionary
    or nothing. The value conversion (`int` in one script, `float` in the
    other) is the parameter `parse`; `None` is its ValueError. */
module StatsParser {
  import opened Wrappers
  import opened PyText

  /** A stats file: its name and its lines. */
  datatype StatsFile = StatsFile(name: string, lines: seq<string>)

  /** The names of the files, in order. */
  function FileNames(files: seq<StatsFile>): seq<string> {
    seq(|files|, i requires 0 <= i < |files| => files[i].name)
  }

  /** The lines skipped before splitting: blank, a `#` comment, or a
      distribution entry containing "::". */
  predicate IsIgnoredLine(line: string) {
    !HasNonSpace(line) || StartsWith(line, "#") || ContainsSub(line, "::")
  }

  /** The (name, value) a line contributes, if any: its first token and the
      converted second token; further tokens are ignored. */
  function ParseLine<V>(line: string, parse: string -> Option<V>): Option<(string, V)> {
    if IsIgnoredLine(line) then None
    else
      var parts := Split(line);
      if |parts| < 2 then None
      else match parse(parts[1])
        case None => None
        case Some(v) => Some((parts[0], v))
  }

  /** The line sets `key`. */
  predicate Defines<V>(line: string, key: string, parse: string -> Option<V>) {
    ParseLine(line, parse).Some? && ParseLine(line, parse).value.0 == key
  }

  /** The dictionary after reading `lines` in order. */
  function StatsOf<V>(lines: seq<string>, parse: string -> Option<V>): map<string, V> {
    if lines == [] then map[]
    else
      var stats := StatsOf(lines[..|lines| - 1], parse);
      match ParseLine(lines[|lines| - 1], parse)
      case None => stats
      case Some((key, value)) => stats[key := value]
  }

  /** `parse_stats_file` on a file given as its lines. */
  method ParseStatsFile<V>(lines: seq<string>, parse: string -> Option<V>) returns (stats: map<string, V>)
    ensures stats == StatsOf(lines, parse)
  {
    stats := map[];
    for i := 0 to |lines|
      invariant stats == StatsOf(lines[..i], parse)
    {
      var line := lines[i];
      if HasNonSpace(line) && !StartsWith(line, "#") && !ContainsSub(line, "::") {
        var parts := Split(line);
        if |parts| >= 2 {
          var key, value := parts[0], parts[1];
          match parse(value) {
            case Some(v) =>
              stats := stats[key := v];
            case None =>
          }
        }
      }
      assert lines[..i + 1][..i] == lines[..i];
    }
    assert lines[..|lines|] == lines;
  }

  /** A line that is ignored, has fewer than two tokens, or whose value does
      not convert leaves the dictionary as it was. */
  lemma RejectedLineChangesNothing<V>(lines: seq<string>, line: string, parse: string -> Option<V>)
    requires IsIgnoredLine(line) || |Split(line)| < 2 || parse(Split(line)[1]).None?
    ensures StatsOf(lines + [line], parse) == StatsOf(lines, parse)
  {
    assert (lines + [line])[..|lines|] == lines;
  }

  /** The dictionary's keys are exactly the names some line sets. */
  lemma {:induction false} StatsKeys<V>(lines: seq<string>, key: string, parse: string -> Option<V>)
    ensures key in StatsOf(lines, parse) <==> exists i :: 0 <= i < |lines| && Defines(lines[i], key, parse)
  {
    if lines != [] {
      var init := lines[..|lines| - 1];
      StatsKeys(init, key, parse);
      assert forall i :: 0 <= i < |init| ==> init[i] == lines[i];
    }
  }

  /** A later line with the same name overwrites: the value is that of the
      last line setting the name. */
  lemma {:induction false} LastLineWins<V>(lines: seq<string>, i: nat, key: string, value: V, parse: string -> Option<V>)
    requires i < |lines| && ParseLine(lines[i], parse) == Some((key, value))
    requires forall j :: i < j < |lines| ==> !Defines(lines[j], key, parse)
    ensures key in StatsOf(lines, parse) && StatsOf(lines, parse)[key] == value
  {
    var init := lines[..|lines| - 1];
    if i < |lines| - 1 {
      assert forall j :: i < j < |init| ==> init[j] == lines[j];
      LastLineWins(init, i, key, value, parse);
    }
  }

  /** Tokens joined by spaces form a non-blank line that splits back into
      them and begins with the first token's first character. */
  lemma JoinedTokensLine(ts: seq<string>)
    requires |ts| >= 2 && forall k :: 0 <= k < |ts| ==> IsToken(ts[k])
    ensures Split(Join(ts)) == ts
    ensures HasNonSpace(Join(ts))
    ensures StartsWith(Join(ts), "#") <==> ts[0][0] == '#'
  {
    SplitJoin(ts);
    JoinStartsWithFirstToken(ts);
  }

  /** The first character of tokens joined by spaces is the first token's. */
  lemma JoinStartsWithFirstToken(ts: seq<string>)
    requires |ts| >= 2 && IsToken(ts[0])
    ensures |Join(ts)| > 0 && Join(ts)[0] == ts[0][0]
    ensures HasNonSpace(Join(ts))
    ensures StartsWith(Join(ts), "#") <==> ts[0][0] == '#'
  {
    var line := Join(ts);
    var t := ts[0];
    assert line == t + (" " + Join(ts[1..]));
    assert line[0] == t[0];
    assert !IsSpace(line[0]);
    assert line[..1] == [t[0]];
  }

  /** A well-formed metric line `name value [more tokens]` sets `name` to the
      converted value. */
  lemma MetricLine<V>(name: string, value: string, rest: seq<string>, x: V, parse: string -> Option<V>)
    requires IsToken(name) && IsToken(value) && forall k :: 0 <= k < |rest| ==> IsToken(rest[k])
    requires name[0] != '#'
    requires !ContainsSub(Join([name, value] + rest), "::")
    requires parse(value) == Some(x)
    ensures ParseLine(Join([name, value] + rest), parse) == Some((name, x))
  {
    var ts := [name, value] + rest;
    MetricTokens(name, value, rest);
    JoinedTokensLine(ts);
    var line := Join(ts);
    assert !IsIgnoredLine(line);
  }

  /** The tokens of a metric line: the name, the value, then the rest. */
  lemma MetricTokens(name: string, value: string, rest: seq<string>)
    requires IsToken(name) && IsToken(value) && forall k :: 0 <= k < |rest| ==> IsToken(rest[k])
    ensures |[name, value] + rest| >= 2
    ensures ([name, value] + rest)[0] == name && ([name, value] + rest)[1] == value
    ensures forall k :: 0 <= k < |[name, value] + rest| ==> IsToken(([name, value] + rest)[k])
  {
    var ts := [name, value] + rest;
    forall k | 0 <= k < |ts| ensures IsToken(ts[k]) {
      if k >= 2 {
        assert ts[k] == rest[k - 2];
      }
    }
  }

  /** A file holding one metric line parses to a dictionary with that one entry. */
  lemma OneMetricFile<V>(name: string, value: string, x: V, parse: string -> Option<V>)
    requires IsToken(name) && IsToken(value) && name[0] != '#'
    requires !ContainsSub(Join([name, value]), "::")
    requires parse(value) == Some(x)
    ensures StatsOf([Join([name, value])], parse) == map[name := x]
  {
    MetricLine(name, value, [], x, parse);
    assert [name, value] + [] == [name, value];
    assert [Join([name, value])][..0] == [];
  }
}
