/** The data side of Utilities/reuse_plotter.py: integer stats files, one
    directory per reuse-buffer configuration, a check that every directory
    holds the same benchmark files, and benchmark labels derived from the
    first configuration's file names. */
module ReusePlotter {
  import opened Wrappers
  import opened PyText
  import opened PyInt
  import opened PyPath
  import opened PySort
  import opened StatsParser
  import opened Metrics

  /** One configuration (a key of `base_dirs`) with the regular files of its
      directory, in listing order. */
  datatype Config = Config(name: string, files: seq<StatsFile>)

  datatype CollectError =
    | FilesMismatch(config: string) // the ValueError of the consistency check
    | NoConfigurations              // no configuration: `benchmarks` is still None

  /** Per configuration, the stats of each benchmark; and the benchmark labels. */
  datatype Collected = Collected(statsSets: seq<map<string, map<string, int>>>, benchmarkLabels: seq<string>)

  /** `parse_stats_file`, whose values are converted by `int`. */
  method ParseIntStatsFile(lines: seq<string>) returns (stats: map<string, int>)
    ensures stats == StatsOf(lines, ParseInt)
  {
    stats := ParseStatsFile(lines, ParseInt);
  }

  /** `str(n)` is a single token. */
  lemma IntToStringIsToken(n: int)
    ensures IsToken(IntToString(n))
  {
    var s := NatToString(if n < 0 then -n else n);
    assert forall i :: 0 <= i < |s| ==> !IsSpace(s[i]);
    if n < 0 {
      assert forall i :: 1 <= i < |IntToString(n)| ==> IntToString(n)[i] == s[i - 1];
    }
  }

  /** A metric line `name n [more tokens]` with `n` written as Python prints
      integers sets `name` to `n`. */
  lemma IntMetricLine(name: string, n: int, rest: seq<string>)
    requires IsToken(name) && name[0] != '#'
    requires forall k :: 0 <= k < |rest| ==> IsToken(rest[k])
    requires !ContainsSub(Join([name, IntToString(n)] + rest), "::")
    ensures ParseLine(Join([name, IntToString(n)] + rest), ParseInt) == Some((name, n))
  {
    ParseIntOfString(n);
    IntToStringIsToken(n);
    MetricLine(name, IntToString(n), rest, n, ParseInt);
  }

  /** A value with a decimal point, such as `1.50`, is skipped silently. */
  lemma DecimalValueSkipped(lines: seq<string>, line: string)
    requires |Split(line)| >= 2
    requires exists i :: 0 <= i < |Split(line)[1]| && Split(line)[1][i] == '.'
    ensures StatsOf(lines + [line], ParseInt) == StatsOf(lines, ParseInt)
  {
    var i :| 0 <= i < |Split(line)[1]| && Split(line)[1][i] == '.';
    ParseIntRejectsPoint(Split(line)[1], i);
    RejectedLineChangesNothing(lines, line, ParseInt);
  }

  /** `{os.path.splitext(f)[0]: parse_stats_file(f) for f in files}`: a later
      file with the same root replaces an earlier one. */
  function StatsByBenchmark(files: seq<StatsFile>): map<string, map<string, int>> {
    if files == [] then map[]
    else
      var last := files[|files| - 1];
      StatsByBenchmark(files[..|files| - 1])[SplitExtRoot(last.name) := StatsOf(last.lines, ParseInt)]
  }

  /** The benchmarks of a configuration are the roots of its file names. */
  lemma {:induction false} StatsByBenchmarkKeys(files: seq<StatsFile>, root: string)
    ensures root in StatsByBenchmark(files) <==> exists i :: 0 <= i < |files| && SplitExtRoot(files[i].name) == root
  {
    if files != [] {
      var init := files[..|files| - 1];
      StatsByBenchmarkKeys(init, root);
      assert forall i :: 0 <= i < |init| ==> init[i] == files[i];
    }
  }

  /** The dictionary a benchmark's key maps to is the parse of the last file
      with that root. */
  lemma {:induction false} StatsByBenchmarkValue(files: seq<StatsFile>, i: nat)
    requires i < |files|
    requires forall j :: i < j < |files| ==> SplitExtRoot(files[j].name) != SplitExtRoot(files[i].name)
    ensures SplitExtRoot(files[i].name) in StatsByBenchmark(files)
    ensures StatsByBenchmark(files)[SplitExtRoot(files[i].name)] == StatsOf(files[i].lines, ParseInt)
  {
    if i < |files| - 1 {
      var init := files[..|files| - 1];
      assert forall j :: 0 <= j < |init| ==> init[j] == files[j];
      StatsByBenchmarkValue(init, i);
    }
  }

  /** The dictionary comprehension of one configuration, file by file. */
  method ParseConfig(files: seq<StatsFile>) returns (stats: map<string, map<string, int>>)
    ensures stats == StatsByBenchmark(files)
  {
    stats := map[];
    for i := 0 to |files|
      invariant stats == StatsByBenchmark(files[..i])
    {
      var fileStats := ParseIntStatsFile(files[i].lines);
      stats := stats[SplitExtRoot(files[i].name) := fileStats];
      assert files[..i + 1][..i] == files[..i];
    }
    assert files[..|files|] == files;
  }

  /** `[os.path.splitext(f)[0] for f in benchmarks if "specrand" not in f]`. */
  function BenchmarkLabels(benchmarks: seq<string>): (labels: seq<string>)
    ensures |labels| <= |benchmarks|
  {
    if benchmarks == [] then []
    else if ContainsSub(benchmarks[0], "specrand") then BenchmarkLabels(benchmarks[1..])
    else [SplitExtRoot(benchmarks[0])] + BenchmarkLabels(benchmarks[1..])
  }

  /** Every label is the root of a benchmark file name without "specrand". */
  lemma {:induction false} BenchmarkLabelsSound(benchmarks: seq<string>, k: nat)
    requires k < |BenchmarkLabels(benchmarks)|
    ensures exists i :: 0 <= i < |benchmarks| && LabelledBy(benchmarks[i], BenchmarkLabels(benchmarks)[k])
  {
    var labels := BenchmarkLabels(benchmarks);
    var tail := benchmarks[1..];
    if ContainsSub(benchmarks[0], "specrand") {
      assert labels == BenchmarkLabels(tail);
      BenchmarkLabelsSound(tail, k);
      LabelledInTail(benchmarks, labels[k]);
    } else if k == 0 {
      assert LabelledBy(benchmarks[0], labels[0]);
    } else {
      assert labels == [SplitExtRoot(benchmarks[0])] + BenchmarkLabels(tail);
      BenchmarkLabelsSound(tail, k - 1);
      LabelledInTail(benchmarks, labels[k]);
    }
  }

  /** A label from the tail of the names is a label from the names. */
  lemma LabelledInTail(benchmarks: seq<string>, l: string)
    requires benchmarks != []
    requires exists i :: 0 <= i < |benchmarks| - 1 && LabelledBy(benchmarks[1..][i], l)
    ensures exists i :: 0 <= i < |benchmarks| && LabelledBy(benchmarks[i], l)
  {
    var i :| 0 <= i < |benchmarks| - 1 && LabelledBy(benchmarks[1..][i], l);
    assert benchmarks[i + 1] == benchmarks[1..][i];
  }

  /** Every benchmark file name without "specrand" yields a label. */
  lemma {:induction false} BenchmarkLabelsComplete(benchmarks: seq<string>, i: nat)
    requires i < |benchmarks| && !ContainsSub(benchmarks[i], "specrand")
    ensures SplitExtRoot(benchmarks[i]) in BenchmarkLabels(benchmarks)
  {
    if i > 0 {
      assert benchmarks[1..][i - 1] == benchmarks[i];
      BenchmarkLabelsComplete(benchmarks[1..], i - 1);
    }
  }

  /** `b` is kept by the filter and yields the label `l`. */
  predicate LabelledBy(b: string, l: string) {
    !ContainsSub(b, "specrand") && l == SplitExtRoot(b)
  }

  /** No label contains "specrand". */
  lemma NoSpecrandLabel(benchmarks: seq<string>, k: nat)
    requires k < |BenchmarkLabels(benchmarks)|
    ensures !ContainsSub(BenchmarkLabels(benchmarks)[k], "specrand")
  {
    var labels := BenchmarkLabels(benchmarks);
    BenchmarkLabelsSound(benchmarks, k);
    var i :| 0 <= i < |benchmarks| && LabelledBy(benchmarks[i], labels[k]);
    var root := SplitExtRoot(benchmarks[i]);
    if ContainsSub(root, "specrand") {
      assert benchmarks[i][..|root|] == root;
      ContainsSubOfPrefix(benchmarks[i], |root|, "specrand");
      assert false;
    }
  }

  /** Configuration `c` holds the same benchmark files as the first, `c0`. */
  predicate SameBenchmarks(c0: Config, c: Config) {
    multiset(FileNames(c.files)) == multiset(FileNames(c0.files))
  }

  /** A label derived from the first configuration names a benchmark of every
      configuration holding the same files, so `stats_set[benchmark]` finds it. */
  lemma LabelIsBenchmarkOf(first: seq<StatsFile>, other: seq<StatsFile>, bench: string)
    requires multiset(FileNames(other)) == multiset(FileNames(first))
    requires bench in BenchmarkLabels(SortStrings(FileNames(first)))
    ensures bench in StatsByBenchmark(other)
  {
    var sorted := SortStrings(FileNames(first));
    SortStringsSortedPermutation(FileNames(first));
    var labels := BenchmarkLabels(sorted);
    var k :| 0 <= k < |labels| && labels[k] == bench;
    BenchmarkLabelsSound(sorted, k);
    var i :| 0 <= i < |sorted| && LabelledBy(sorted[i], labels[k]);
    assert sorted[i] in multiset(sorted);
    assert sorted[i] in multiset(FileNames(other));
    var names := FileNames(other);
    var j :| 0 <= j < |names| && names[j] == sorted[i];
    StatsByBenchmarkKeys(other, bench);
  }

  /** Every label is a benchmark of every configuration, when all hold the same files. */
  lemma LabelsAreBenchmarksOfAll(configs: seq<Config>, statsSets: seq<map<string, map<string, int>>>)
    requires configs != [] && |statsSets| == |configs|
    requires Consistent(configs, |configs|)
    requires forall i :: 0 <= i < |configs| ==> statsSets[i] == StatsByBenchmark(configs[i].files)
    ensures forall i, bench :: 0 <= i < |configs| && bench in BenchmarkLabels(SortedNames(configs[0])) ==>
      bench in statsSets[i]
  {
    forall i, bench | 0 <= i < |configs| && bench in BenchmarkLabels(SortedNames(configs[0]))
      ensures bench in statsSets[i]
    {
      LabelIsBenchmarkOf(configs[0].files, configs[i].files, bench);
    }
  }

  /** `sorted(files)` for a configuration. */
  function SortedNames(c: Config): seq<string> {
    SortStrings(FileNames(c.files))
  }

  /** The first `n` configurations hold the same files as the first one. */
  predicate Consistent(configs: seq<Config>, n: nat)
    requires n <= |configs|
  {
    forall j :: 0 <= j < n ==> SameBenchmarks(configs[0], configs[j])
  }

  /** The first `n` configurations pass the check `sorted(files) == benchmarks`,
      one after the other. */
  predicate PassesCheck(configs: seq<Config>, n: nat)
    requires n <= |configs|
  {
    n == 0 || (PassesCheck(configs, n - 1) && SortedNames(configs[n - 1]) == SortedNames(configs[0]))
  }

  /** Once a configuration fails the check, no longer prefix passes it. */
  lemma {:induction false} MismatchFailsCheck(configs: seq<Config>, i: nat, n: nat)
    requires i < n <= |configs|
    requires SortedNames(configs[i]) != SortedNames(configs[0])
    ensures !PassesCheck(configs, n)
  {
    if n - 1 > i {
      MismatchFailsCheck(configs, i, n - 1);
    }
  }

  /** The collection loop of `main`: parse every configuration, stop with
      the ValueError at the first configuration whose sorted file names
      differ from the first one's, then derive the benchmark labels. */
  method CollectStats(configs: seq<Config>) returns (r: Result<Collected, CollectError>)
    ensures configs == [] ==> r == Failure(NoConfigurations)
    ensures configs != [] ==> (r.Success? <==> PassesCheck(configs, |configs|))
    ensures r.Failure? && configs != [] ==>
      exists i :: (0 < i < |configs| && r.error == FilesMismatch(configs[i].name) &&
        PassesCheck(configs, i) && SortedNames(configs[i]) != SortedNames(configs[0]))
    ensures r.Success? ==> |r.value.statsSets| == |configs|
    ensures r.Success? ==>
      forall i :: 0 <= i < |configs| ==> r.value.statsSets[i] == StatsByBenchmark(configs[i].files)
    ensures r.Success? ==> r.value.benchmarkLabels == BenchmarkLabels(SortedNames(configs[0]))
  {
    var benchmarks: Option<seq<string>> := None;
    var statsSets: seq<map<string, map<string, int>>> := [];
    for i := 0 to |configs|
      invariant benchmarks.Some? <==> i > 0
      invariant i > 0 ==> benchmarks.value == SortedNames(configs[0])
      invariant PassesCheck(configs, i)
      invariant |statsSets| == i
      invariant forall j :: 0 <= j < i ==> statsSets[j] == StatsByBenchmark(configs[j].files)
    {
      var files := SortedNames(configs[i]);
      if benchmarks.None? {
        benchmarks := Some(files);
      } else if files != benchmarks.value {
        MismatchFailsCheck(configs, i, |configs|);
        return Failure(FilesMismatch(configs[i].name));
      }
      var stats := ParseConfig(configs[i].files);
      statsSets := statsSets + [stats];
    }
    if benchmarks.None? {
      return Failure(NoConfigurations);
    }
    var labels := BenchmarkLabels(benchmarks.value);
    return Success(Collected(statsSets, labels));
  }

  /** The check `sorted(files) != benchmarks` fails exactly when the two
      configurations hold different files. */
  lemma SameBenchmarksIffSortedEqual(c0: Config, c: Config)
    ensures SameBenchmarks(c0, c) <==> SortedNames(c) == SortedNames(c0)
  {
    SortedEqualIffSameElements(FileNames(c.files), FileNames(c0.files));
  }

  /** Passing the check is holding the same files as the first configuration. */
  lemma {:induction false} PassesCheckIffConsistent(configs: seq<Config>, n: nat)
    requires n <= |configs|
    ensures PassesCheck(configs, n) <==> Consistent(configs, n)
  {
    if n > 0 {
      PassesCheckIffConsistent(configs, n - 1);
      SameBenchmarksIffSortedEqual(configs[0], configs[n - 1]);
    }
  }

  /** What `main` obtains: the ValueError exactly when some configuration's
      files differ from the first one's, and otherwise labels that every
      configuration's stats hold, so `stats_set[benchmark]` never fails. */
  lemma CollectedOutcome(configs: seq<Config>, r: Result<Collected, CollectError>)
    requires configs != []
    requires r.Success? <==> PassesCheck(configs, |configs|)
    requires r.Failure? ==> exists i :: (0 < i < |configs| && r.error == FilesMismatch(configs[i].name) &&
      PassesCheck(configs, i) && SortedNames(configs[i]) != SortedNames(configs[0]))
    requires r.Success? ==> |r.value.statsSets| == |configs|
    requires r.Success? ==> forall i :: 0 <= i < |configs| ==> r.value.statsSets[i] == StatsByBenchmark(configs[i].files)
    requires r.Success? ==> r.value.benchmarkLabels == BenchmarkLabels(SortedNames(configs[0]))
    ensures r.Success? <==> Consistent(configs, |configs|)
    ensures r.Failure? ==> exists i :: (0 < i < |configs| && r.error == FilesMismatch(configs[i].name) &&
      Consistent(configs, i) && !SameBenchmarks(configs[0], configs[i]))
    ensures r.Success? ==> forall i, bench :: 0 <= i < |configs| && bench in r.value.benchmarkLabels ==>
      bench in r.value.statsSets[i]
  {
    PassesCheckIffConsistent(configs, |configs|);
    if r.Success? {
      LabelsAreBenchmarksOfAll(configs, r.value.statsSets);
    } else {
      var i :| 0 < i < |configs| && r.error == FilesMismatch(configs[i].name) &&
        PassesCheck(configs, i) && SortedNames(configs[i]) != SortedNames(configs[0]);
      PassesCheckIffConsistent(configs, i);
      SameBenchmarksIffSortedEqual(configs[0], configs[i]);
    }
  }

  /** The metrics the plots read, per benchmark and configuration. */
  const ReusedInsts: string := "system.cpu.iew.reusedInsts"
  const ReusedIntInsts: string := "system.cpu.iew.reusedIntInsts"
  const ReusedFloatInsts: string := "system.cpu.iew.reusedFloatInsts"

  /** `[stats_set[benchmark].get(metric, 0) for stats_set in stats_sets]`:
      one value per configuration, 0 where the metric is missing. */
  function BenchmarkSeries(statsSets: seq<map<string, map<string, int>>>, benchmark: string, metric: string): (values: seq<int>)
    requires forall i :: 0 <= i < |statsSets| ==> benchmark in statsSets[i]
    ensures |values| == |statsSets|
    ensures forall i :: 0 <= i < |statsSets| ==>
      values[i] == (if metric in statsSets[i][benchmark] then statsSets[i][benchmark][metric] else 0)
  {
    Series(seq(|statsSets|, i requires 0 <= i < |statsSets| => statsSets[i][benchmark]), metric, 0)
  }

  /** Every label `main` plots has a dictionary in every configuration, so
      the combined plot's series of `reusedInsts` and the per-benchmark
      series of `reusedIntInsts` and `reusedFloatInsts` are all defined,
      with one bar per configuration. */
  lemma PlotSeriesDefined(configs: seq<Config>, statsSets: seq<map<string, map<string, int>>>, bench: string)
    requires configs != [] && |statsSets| == |configs|
    requires Consistent(configs, |configs|)
    requires forall i :: 0 <= i < |configs| ==> statsSets[i] == StatsByBenchmark(configs[i].files)
    requires bench in BenchmarkLabels(SortedNames(configs[0]))
    ensures forall i :: 0 <= i < |statsSets| ==> bench in statsSets[i]
    ensures |BenchmarkSeries(statsSets, bench, ReusedInsts)| == |configs|
    ensures |BenchmarkSeries(statsSets, bench, ReusedIntInsts)| == |configs|
    ensures |BenchmarkSeries(statsSets, bench, ReusedFloatInsts)| == |configs|
  {
    LabelsAreBenchmarksOfAll(configs, statsSets);
  }
}
