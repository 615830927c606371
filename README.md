# Reuse buffer and stats plotting, modelled in Dafny

The repository adds an instruction reuse buffer to the gem5 O3 CPU. It also
ships two Python scripts that read gem5 `stats.txt` dumps and plot them.

The reuse buffer is a bounded FIFO memo table. It maps an instruction's PC
and operand values to the results the instruction produced. It exists in two
variants:

- `Code/reusebuffer.hh` and `Code/reusebuffer.cc`: 1024 entries, each holding
  a vector of results. `contains` refuses an empty buffer or an empty
  operand list.
- `Code/reuse_buffer.hh` and `Code/reuse_buffer.cpp`: an older variant with
  128 entries and one result each. `getResult` returns 0 on a miss.

Each variant is a Dafny `class ReuseBuffer`. Its `buffer` field is a
sequence standing in for the `std::deque`, oldest entry first. Its methods
`IsMatch`, `Contains`, `GetResults`/`GetResult` and `Insert` follow the C++
loops and branches. Each method is proved against pure functions of the
buffer:

- `Matches` is the `isMatch` test of one entry.
- `AnyMatch` models the `std::any_of` of `contains`.
- `FirstMatch` models the `std::find_if` of `getResults`/`getResult`.
- `ContainsKey` models the newer `contains`.
- `Lookup` models the result a query returns.
- `Inserted` is the buffer after `insert`.

Lemmas about those functions state the FIFO behaviour:

- `insert` keeps the capacity bound.
- At capacity, `insert` evicts exactly the front entry.
- A key that has just been inserted is found.
- A lookup returns the oldest match.
- A later insert does not change that answer unless the match is evicted.

The scripts' data handling is modelled in these modules:

- `StatsParser` models `parse_stats_file`, which is identical in both
  scripts apart from the value conversion. A line is skipped when it is
  blank, starts with `#`, contains `::`, has fewer than two tokens, or has a
  value that does not convert. Otherwise it maps its first token to its
  converted second token, and a later line overwrites an earlier one. The
  conversion is a parameter `parse: string -> Option<V>`. The loop is the
  method `ParseStatsFile`, proved against the fold `StatsOf`.
- `Metrics` models `stats.get(key, 0)` and the series built from it.
- `ReusePlotter` models the data side of `Utilities/reuse_plotter.py`:
  - values are parsed by Python's `int`;
  - the configuration loop of `main` and its consistency check
    `sorted(files) != benchmarks`;
  - the per-benchmark dictionaries keyed by `os.path.splitext(f)[0]`;
  - the benchmark labels, which exclude `specrand`;
  - the per-benchmark series.
- `Plotter` models the data side of `Utilities/plotter.py`:
  - both runs parsed file by file;
  - the x-axis labels `os.path.basename(f)` of the first run;
  - the compared series.
- `PyText`, `PyInt`, `PyPath` and `PySort` model the Python built-ins these
  scripts rely on:
  - `str.isspace`, `strip()`, `startswith`, `in` and `split()`;
  - `int()` and `str()` on integers;
  - `os.path.basename` and `os.path.splitext`;
  - `sorted` on strings.

Machine words (`Addr`, `RegVal`) are the 64-bit unsigned newtype `u64`. The
older variant's `PCStateBase` is a type parameter `P` with equality, because
the code only compares PC states.

## Model

| member | source | states |
|---|---|---|
| VectorReuseBuffer.MakeEntry | Code/reusebuffer.hh:38-46 | the entry stores pc, operands and results exactly as passed, and `result_count` equals the number of results |
| VectorReuseBuffer.ContainsKey | Code/reusebuffer.cc:46-58 | the definition of `contains`: false for an empty buffer or empty operands, otherwise whether some entry matches |
| VectorReuseBuffer.Lookup | Code/reusebuffer.cc:77-106 | the definition of what `getResults` returns: the first `result_count` results of the oldest match, or nothing |
| VectorReuseBuffer.Inserted | Code/reusebuffer.cc:60-75 | the definition of the buffer after `insert`: the front dropped when non-empty and full, then the new entry appended |
| VectorReuseBuffer.FirstMatch | Code/reusebuffer.cc:81-84 | the index found is a matching entry with no matching entry before it; there is no index exactly when no entry matches |
| VectorReuseBuffer.ReuseBuffer.constructor | Code/reusebuffer.cc:17-20 | a new buffer is empty |
| VectorReuseBuffer.ReuseBuffer.IsMatch | Code/reusebuffer.cc:27-44 | true exactly when the pc is equal and the operand lists have equal length and equal elements |
| VectorReuseBuffer.ReuseBuffer.Contains | Code/reusebuffer.cc:46-58 | false for an empty buffer or empty operands; otherwise true exactly when some entry matches |
| VectorReuseBuffer.ReuseBuffer.GetResults | Code/reusebuffer.cc:77-106 | returns the first `result_count` results of the oldest matching entry, or an empty vector on a miss |
| VectorReuseBuffer.ReuseBuffer.Insert | Code/reusebuffer.cc:60-75 | the new buffer is the old one, without its front entry when full, followed by the new entry; at most 1024 entries, all well formed |
| VectorReuseBuffer.LookupIsOldestResults | Code/reusebuffer.cc:89-105 | on a miss the result is empty; on a hit it is all the results of the first matching entry |
| VectorReuseBuffer.InsertedShape | Code/reusebuffer.cc:68-74 | insert keeps the size at most 1024; below capacity it appends and grows by one; at capacity it drops exactly the front and keeps the rest in order; the new entry is last |
| VectorReuseBuffer.InsertThenContains | Code/reusebuffer.cc:51-57 | after inserting a key with non-empty operands, `contains` for that key is true |
| VectorReuseBuffer.EmptyOperandsNeverContained | Code/reusebuffer.cc:51-53 | `contains` with empty operands is false for every buffer |
| VectorReuseBuffer.InsertThenLookupFresh | Code/reusebuffer.cc:77-101 | after inserting a key not yet present, `getResults` returns exactly the inserted results |
| VectorReuseBuffer.InsertKeepsOldestHit | Code/reusebuffer.cc:60-84 | unless the oldest match is the evicted front entry, an insert does not change what `getResults` returns, even for the same key |
| VectorReuseBuffer.EvictionForgetsOldest | Code/reusebuffer.cc:69-71 | a full buffer whose only match is the front entry no longer matches after inserting another key |
| ScalarReuseBuffer.Lookup | Code/reuse_buffer.cpp:56-72 | the definition of what `getResult` returns: the result of the oldest match, or 0 |
| ScalarReuseBuffer.Inserted | Code/reuse_buffer.cpp:74-90 | the definition of the buffer after `insert`: the front dropped at 128 or more entries, then the new entry appended |
| ScalarReuseBuffer.FirstMatch | Code/reuse_buffer.cpp:60-63 | the index found is the oldest matching entry; there is no index exactly when no entry matches |
| ScalarReuseBuffer.ReuseBuffer.constructor | Code/reuse_buffer.cpp:17-20 | a new buffer is empty |
| ScalarReuseBuffer.ReuseBuffer.IsMatch | Code/reuse_buffer.cpp:27-44 | true exactly when the pc is equal and the operand lists have equal length and equal elements |
| ScalarReuseBuffer.ReuseBuffer.Contains | Code/reuse_buffer.cpp:46-54 | true exactly when some entry matches; there is no guard for empty operands |
| ScalarReuseBuffer.ReuseBuffer.GetResult | Code/reuse_buffer.cpp:56-72 | returns the result of the oldest matching entry, or 0 on a miss |
| ScalarReuseBuffer.ReuseBuffer.Insert | Code/reuse_buffer.cpp:74-90 | the new buffer is the old one, without its front entry when it holds 128 or more, followed by the new entry; at most 128 entries |
| ScalarReuseBuffer.LookupIsOldestResult | Code/reuse_buffer.cpp:65-71 | on a miss the result is 0; on a hit it is the result of the first matching entry |
| ScalarReuseBuffer.InsertedShape | Code/reuse_buffer.cpp:82-89 | insert keeps the size at most 128; below capacity it appends and grows by one; at capacity it drops exactly the front; the new entry is last |
| ScalarReuseBuffer.InsertThenContains | Code/reuse_buffer.cpp:46-54 | after inserting a key, `contains` for that key is true, even with empty operands |
| ScalarReuseBuffer.InsertThenLookupFresh | Code/reuse_buffer.cpp:56-72 | after inserting a key not yet present, `getResult` returns the inserted result |
| ScalarReuseBuffer.InsertKeepsOldestHit | Code/reuse_buffer.cpp:74-90 | unless the oldest match is the evicted front entry, an insert does not change what `getResult` returns |
| ScalarReuseBuffer.ZeroResultLooksLikeMiss | Code/reuse_buffer.cpp:65-71 | a stored result of 0 reads the same as a miss, so the answer alone cannot tell a hit from a miss |
| ReuseBufferVariants.EmptyOperandsDiffer | Code/reusebuffer.cc:51-53 | after the same insert with no operands, the older buffer reports the key as contained and the newer one does not |
| PyText.Split | Utilities/plotter.py:11 | every token of `split()` is non-empty and free of whitespace |
| PyText.SplitJoin | Utilities/reuse_plotter.py:12 | splitting tokens joined by single spaces gives the tokens back |
| PyText.BlankIffNoTokens | Utilities/reuse_plotter.py:11 | `line.strip()` is empty exactly when `line.split()` is empty |
| PyText.SplitSkipsSpace | Utilities/reuse_plotter.py:12 | leading whitespace does not change the tokens |
| PyText.SplitToken | Utilities/reuse_plotter.py:12 | a token followed by the end or by whitespace becomes the first token, whole |
| PyText.ContainsSubOfPrefix | Utilities/reuse_plotter.py:110 | a substring of a prefix is a substring of the whole string |
| PyInt.ParseInt | Utilities/reuse_plotter.py:16 | an accepted token is non-empty and ends in a digit; after an optional leading sign it holds only digits and underscores; a negative value comes from a leading `-` |
| PyInt.NatToStringValue | Utilities/reuse_plotter.py:16 | the decimal digits of `n` are a digit string whose value is `n` |
| PyInt.ParseIntOfString | Utilities/reuse_plotter.py:16 | `int(str(n)) == n` for every integer `n` |
| PyInt.ParseIntRejectsPoint | Utilities/reuse_plotter.py:15-18 | a token containing '.' is refused by `int` |
| PyInt.ParseIntExamples | Utilities/reuse_plotter.py:16 | signs and single underscores between digits are accepted; misplaced underscores, a lone sign, the empty token and `N/A` are refused |
| PyPath.RFind | Utilities/plotter.py:58 | the index returned holds the character and no later index does; -1 when the character is absent |
| PyPath.Basename | Utilities/plotter.py:58 | the basename is the longest suffix without '/'; it is the whole path or is preceded by '/' |
| PyPath.SplitExtRoot | Utilities/reuse_plotter.py:106 | the root is a prefix of the name |
| PyPath.RootOfDotlessName | Utilities/reuse_plotter.py:110 | a name without '.' is its own root |
| PyPath.RootOfNameWithExtension | Utilities/reuse_plotter.py:110 | the root of `name.ext` is `name` when `name` is not all dots and has no '/', and `ext` has no '.' or '/' |
| PyPath.RootOfHiddenName | Utilities/reuse_plotter.py:110 | a name without '/' whose last '.' is preceded by dots only is its own root |
| PyPath.HiddenFileHasNoExtension | Utilities/reuse_plotter.py:110 | the root of `.txt` is `.txt` |
| PyPath.BasenameOfStatsPath | Utilities/plotter.py:58 | the basename of `Base_Benchmarks/astar.txt` is `astar.txt` |
| PyPath.RootOfStatsFileName | Utilities/reuse_plotter.py:110 | the root of `astar.txt` is `astar` |
| PySort.LexLe | Utilities/reuse_plotter.py:104 | the definition of Python's `<=` on strings: code point by code point, a proper prefix first |
| PySort.LexLeRefl | Utilities/reuse_plotter.py:103 | string order is reflexive |
| PySort.LexLeTotal | Utilities/reuse_plotter.py:103 | string order is total |
| PySort.LexLeTrans | Utilities/reuse_plotter.py:103 | string order is transitive |
| PySort.LexLeAntisym | Utilities/reuse_plotter.py:103 | string order is antisymmetric |
| PySort.SortedHeadIsLeast | Utilities/reuse_plotter.py:103 | the first element of a sorted list is at most every element |
| PySort.InsertSortedElements | Utilities/reuse_plotter.py:103 | insertion adds exactly the inserted name |
| PySort.InsertSortedSorted | Utilities/reuse_plotter.py:103 | insertion into a sorted list keeps it sorted |
| PySort.SortStrings | Utilities/reuse_plotter.py:103 | the definition of `sorted(names)`: an insertion sort; its properties are stated by the lemma below |
| PySort.SortStringsSortedPermutation | Utilities/reuse_plotter.py:103 | `sorted(names)` is in order and is a permutation of `names` |
| PySort.SortedUnique | Utilities/reuse_plotter.py:104 | two sorted lists with the same elements are equal |
| PySort.SortedEqualIffSameElements | Utilities/reuse_plotter.py:104 | `sorted(a) == sorted(b)` exactly when `a` and `b` hold the same names the same number of times |
| StatsParser.IsIgnoredLine | Utilities/plotter.py:10 | the definition of the skip test: a blank line, a line starting with `#`, or a line containing `::` |
| StatsParser.ParseLine | Utilities/plotter.py:10-17 | the definition of one line's contribution: for a kept line with at least two tokens, the first token and the converted second token, or nothing when the conversion fails |
| StatsParser.StatsOf | Utilities/plotter.py:7-18 | the definition of the dictionary after the lines, in order, each contributing line overwriting its key |
| StatsParser.ParseStatsFile | Utilities/plotter.py:5-18 | the line loop builds the same dictionary as the fold `StatsOf` over the lines |
| StatsParser.RejectedLineChangesNothing | Utilities/plotter.py:10-17 | a blank, `#` or `::` line, a line with fewer than two tokens, or a value that does not convert leaves the dictionary unchanged |
| StatsParser.StatsKeys | Utilities/plotter.py:9-17 | a key is in the dictionary exactly when some line sets it |
| StatsParser.LastLineWins | Utilities/plotter.py:15 | a key holds the value of the last line that sets it |
| StatsParser.JoinedTokensLine | Utilities/plotter.py:10-11 | tokens joined by spaces form a non-blank line that splits back into them and starts with `#` only if the first token does |
| StatsParser.JoinStartsWithFirstToken | Utilities/plotter.py:10 | a line of joined tokens is non-blank and starts with the first character of the first token |
| StatsParser.MetricLine | Utilities/plotter.py:10-15 | a line made of the tokens `name value ...` joined by single spaces, without `::` and whose name does not start with `#`, sets `name` to the converted value; further tokens are ignored |
| StatsParser.OneMetricFile | Utilities/plotter.py:5-18 | a file of one metric line parses to a dictionary with exactly that entry |
| Metrics.GetOr | Utilities/plotter.py:29 | the definition of `stats.get(key, default)` |
| Metrics.Series | Utilities/plotter.py:29-30 | one value per dictionary, in order: the key's value, or the default where the key is missing |
| Metrics.MissingMetricReadsDefault | Utilities/reuse_plotter.py:40 | a metric that no line of a file sets reads as the default 0 |
| Metrics.PresentMetricReadsLastValue | Utilities/plotter.py:29 | a metric that some line sets reads as the value of the last such line |
| ReusePlotter.ParseIntStatsFile | Utilities/reuse_plotter.py:6-19 | the dictionary is the fold of the lines with `int` as the conversion |
| ReusePlotter.IntToStringIsToken | Utilities/reuse_plotter.py:12 | a printed integer is a single token |
| ReusePlotter.IntMetricLine | Utilities/reuse_plotter.py:11-16 | a line made of the tokens `name value ...` joined by single spaces, without `::`, whose name does not start with `#` and whose value is a printed integer `n`, sets `name` to `n` |
| ReusePlotter.DecimalValueSkipped | Utilities/reuse_plotter.py:15-18 | a line whose value token has a decimal point, such as `1.50`, changes nothing |
| ReusePlotter.StatsByBenchmark | Utilities/reuse_plotter.py:106 | the definition of the comprehension: each file's root mapped to its parsed dictionary, a later file of the same root replacing an earlier one |
| ReusePlotter.StatsByBenchmarkKeys | Utilities/reuse_plotter.py:106 | the keys of a configuration's dictionary are exactly the roots of its file names |
| ReusePlotter.StatsByBenchmarkValue | Utilities/reuse_plotter.py:106 | the dictionary a root maps to is the parse of the last file with that root, so `stats_set[benchmark]` reads that file's lines |
| ReusePlotter.ParseConfig | Utilities/reuse_plotter.py:106 | the loop builds the same dictionary as the comprehension, with a later file of the same root replacing an earlier one |
| ReusePlotter.BenchmarkLabels | Utilities/reuse_plotter.py:110 | there are no more labels than benchmark files |
| ReusePlotter.BenchmarkLabelsSound | Utilities/reuse_plotter.py:110 | every label is the root of some file name that does not contain `specrand` |
| ReusePlotter.LabelledInTail | Utilities/reuse_plotter.py:110 | a label from the tail of the names is a label from the names |
| ReusePlotter.BenchmarkLabelsComplete | Utilities/reuse_plotter.py:110 | the root of every file name without `specrand` is a label |
| ReusePlotter.NoSpecrandLabel | Utilities/reuse_plotter.py:110 | no label contains `specrand` |
| ReusePlotter.LabelIsBenchmarkOf | Utilities/reuse_plotter.py:103-110 | a label from the first configuration is a key of the dictionary of any configuration with the same files |
| ReusePlotter.LabelsAreBenchmarksOfAll | Utilities/reuse_plotter.py:100-110 | when all configurations hold the same files, every label is a key of every configuration's dictionary |
| ReusePlotter.MismatchFailsCheck | Utilities/reuse_plotter.py:104-105 | once one configuration's sorted names differ from the first's, no longer prefix of configurations passes the check |
| ReusePlotter.CollectStats | Utilities/reuse_plotter.py:99-110 | no configurations gives an error; otherwise it succeeds exactly when every configuration passes the check; a failure names the first configuration whose sorted names differ; a success holds each configuration's dictionary in order and the labels of the first configuration's sorted names |
| ReusePlotter.SameBenchmarksIffSortedEqual | Utilities/reuse_plotter.py:104 | the check fails for a configuration exactly when its file names differ, as a multiset, from the first one's |
| ReusePlotter.PassesCheckIffConsistent | Utilities/reuse_plotter.py:100-105 | passing the check for the first `n` configurations is holding the same files as the first configuration |
| ReusePlotter.CollectedOutcome | Utilities/reuse_plotter.py:99-110 | the ValueError occurs exactly when some configuration holds different files; on success every label is a key of every configuration's dictionary, so `stats_set[benchmark]` cannot fail |
| ReusePlotter.BenchmarkSeries | Utilities/reuse_plotter.py:59-60 | one value per configuration: the benchmark's metric, or 0 where the metric is missing |
| ReusePlotter.PlotSeriesDefined | Utilities/reuse_plotter.py:39-60 | for every label `main` plots, every configuration has that benchmark, so the `reusedInsts`, `reusedIntInsts` and `reusedFloatInsts` series are defined with one value per configuration |
| Plotter.Labels | Utilities/plotter.py:58 | one label per file of the first run, in order: its basename |
| Plotter.LabelsOfPlainNames | Utilities/plotter.py:58 | when no file name contains '/', the labels are the file names themselves |
| Plotter.ParseRun | Utilities/plotter.py:54-55 | one dictionary per file, in order, each being the parse of that file's lines |
| Plotter.LoadRuns | Utilities/plotter.py:53-58 | both runs are parsed file by file; the labels depend on the first run's names only and there are as many as its files |
| Plotter.PlottedValue | Utilities/plotter.py:29-30 | when some line of a file sets the metric, the key is in the file's dictionary and the file's bar is its value there; when no line sets it, the bar is the fallback 0 |
| Plotter.PlottedLastValue | Utilities/plotter.py:29-30 | a file's bar is the value of the last line of that file setting the metric |
| Plotter.PlottedMetricOfOneLineFile | Utilities/plotter.py:60-70 | for `system.cpu.ipc`, `simSeconds` and `system.cpu.cpi`, a file that is the single line `metric value` plots the converted value |

## Left out

- Plotting is left out: matplotlib and numpy figures, bar geometry, value labels, the log scale and `plt.show`. The metrics each figure reads are constants, and the series fed to the bars are modelled.
- File and directory I/O is left out: `open`, `os.listdir`, `os.path.isfile` and `os.path.join`. A file is given as its name and lines. A configuration directory is given as its regular files in listing order.
- The `float` conversion of `Utilities/plotter.py` is the abstract parameter `parse`, because floating point is out of scope. `None` stands for its ValueError.
- `PyInt.ParseInt` accepts ASCII digits only. Python's `int` also accepts other Unicode decimal digits and surrounding whitespace, but tokens from `split()` have no whitespace. Python's limit on the number of digits that `int` converts is not modelled.
- `PyText.IsSpace` covers the characters Python's `str.isspace` accepts. There is no Unicode database beyond that list.
- The `DPRINTF` tracing in `Code/reusebuffer.cc` is left out. Lines 87 and 94 read through the iterator and `results[0]` before the hit/empty check, which is undefined behaviour on a miss or with no results. The model specifies only the guarded logic of lines 89-105.
- `VectorReuseBuffer.ReuseBuffer.GetResults` requires that every entry has `result_count` equal to its number of results. The entry constructor always establishes this (`Code/reusebuffer.hh:44-45`), and `Insert` preserves it.
- The gem5 headers (statistics, time buffers, probes and `PCStateBase` internals) are left out. `Addr` and `RegVal` are 64-bit words and the older variant's PC state is a type with equality.
- `Code/reuse_buffer.cpp` includes `reusebuffer.hh` rather than its own header. The model follows the declarations in `Code/reuse_buffer.hh`.
- In the newer `insert`, the guard `!buffer.empty()` is redundant next to `size() >= 1024`. It is modelled as written.
- The hard-coded directories and file lists in both `main` functions are configuration, not logic. The `print` calls of `Utilities/reuse_plotter.py` are left out.
- `ReusePlotter.CollectStats` reports no configurations as its own error. In the script `base_dirs` is never empty. With an empty `base_dirs`, iterating over `None` at line 110 would raise a TypeError.
- The scripts compute no percentages or ratios, so none are modelled.
