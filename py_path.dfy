/** The POSIX `os.path` helpers the plotting drivers use to turn file names
    into benchmark labels: `basename` and the root part of `splitext`. */
module PyPath {
  /** `s.rfind(c)`: index of the last occurrence of `c`, or -1. */
  function RFind(s: string, c: char): (r: int)
    ensures -1 <= r < |s|
    ensures r >= 0 ==> s[r] == c
    ensures forall i :: r < i < |s| ==> s[i] != c
  {
    if s == [] then -1
    else if s[|s| - 1] == c then |s| - 1
    else RFind(s[..|s| - 1], c)
  }

  /** `os.path.basename(p)`: the longest suffix of `p` without a '/'. */
  function Basename(p: string): (b: string)
    ensures forall i :: 0 <= i < |b| ==> b[i] != '/'
    ensures |b| <= |p| && b == p[|p| - |b|..]
    ensures |b| < |p| ==> p[|p| - |b| - 1] == '/'
  {
    var sep := RFind(p, '/');
    p[sep + 1..]
  }

  /** Some character of `p[lo..hi]` is not a '.'. */
  predicate HasNonDot(p: string, lo: int, hi: int)
    requires 0 <= lo <= hi <= |p|
  {
    exists j :: lo <= j < hi && p[j] != '.'
  }

  /** `os.path.splitext(p)[0]`: `p` without its extension, where the
      extension starts at the last '.' of the last path component, unless
      only dots precede that '.' in the component (a hidden file). */
  function SplitExtRoot(p: string): (root: string)
    ensures |root| <= |p| && root == p[..|root|]
  {
    var sep := RFind(p, '/');
    var dot := RFind(p, '.');
    if dot > sep && HasNonDot(p, sep + 1, dot) then p[..dot] else p
  }

  /** A name without a '.' has no extension to strip. */
  lemma RootOfDotlessName(p: string)
    requires '.' !in p
    ensures SplitExtRoot(p) == p
  {
  }

  /** Round trip: the root of `name.ext` is `name`, for a file name that is
      not all dots and an extension without '.' or '/'. */
  lemma RootOfNameWithExtension(name: string, ext: string)
    requires '/' !in name && '/' !in ext && '.' !in ext
    requires exists j :: 0 <= j < |name| && name[j] != '.'
    ensures SplitExtRoot(name + "." + ext) == name
  {
    var p := name + "." + ext;
    assert p[|name|] == '.';
    assert forall i :: |name| < i < |p| ==> p[i] == ext[i - |name| - 1];
    assert forall i :: 0 <= i < |name| ==> p[i] == name[i];
    assert RFind(p, '.') == |name|;
    assert RFind(p, '/') == -1;
    var j :| 0 <= j < |name| && name[j] != '.';
    assert p[j] != '.';
    assert p[..|name|] == name;
  }

  /** A file name whose last '.' is preceded by dots only (a hidden file
      such as `.bashrc` or `..txt`) has no extension: its root is itself. */
  lemma RootOfHiddenName(p: string)
    requires '/' !in p
    requires forall j :: 0 <= j < RFind(p, '.') ==> p[j] == '.'
    ensures SplitExtRoot(p) == p
  {
    assert RFind(p, '/') == -1;
    if RFind(p, '.') >= 0 {
      assert !HasNonDot(p, 0, RFind(p, '.'));
    }
  }

  /** A hidden file such as `.txt` keeps its whole name as its root. */
  lemma HiddenFileHasNoExtension()
    ensures SplitExtRoot(".txt") == ".txt"
  {
    var h := ".txt";
    assert h[0] == '.' && h[1] != '.' && h[2] != '.' && h[3] != '.';
    assert RFind(h, '.') == 0;
    RootOfHiddenName(h);
  }

  /** `os.path.basename` keeps the file name of a stats path, extension included. */
  lemma BasenameOfStatsPath()
    ensures Basename("Base_Benchmarks/astar.txt") == "astar.txt"
  {
    var p := "Base_Benchmarks/astar.txt";
    var name := "astar.txt";
    assert p == "Base_Benchmarks" + "/" + name;
    assert p[15] == '/';
    assert forall i :: 15 < i < |p| ==> p[i] == name[i - 16];
    assert RFind(p, '/') == 15;
    assert p[16..] == name;
  }

  /** `os.path.splitext(f)[0]` drops the extension of a stats file name. */
  lemma RootOfStatsFileName()
    ensures SplitExtRoot("astar.txt") == "astar"
  {
    assert "astar"[0] != '.';
    RootOfNameWithExtension("astar", "txt");
    assert "astar" + "." + "txt" == "astar.txt";
  }
}
