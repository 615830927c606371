/** The pieces of Python's `str` behaviour that the stats parsers rely on:
    `str.isspace`, `strip()` as a truth value, `startswith`, the `in`
    substring test and `split()` with no separator. */
module PyText {
  /** Python's whitespace characters (`str.isspace`), which `strip()` and
      `split()` without arguments both use. */
  predicate IsSpace(c: char) {
    ('\t' <= c <= '\r') || ('\U{1C}' <= c <= ' ') || c == '\U{85}' || c == '\U{A0}' ||
    c == '\U{1680}' || ('\U{2000}' <= c <= '\U{200A}') || c == '\U{2028}' || c == '\U{2029}' ||
    c == '\U{202F}' || c == '\U{205F}' || c == '\U{3000}'
  }

  /** `s.strip()` is a non-empty (truthy) string. */
  predicate HasNonSpace(s: string) {
    exists i :: 0 <= i < |s| && !IsSpace(s[i])
  }

  /** `s.startswith(p)`. */
  predicate StartsWith(s: string, p: string) {
    |p| <= |s| && s[..|p|] == p
  }

  /** `sub in s`. */
  predicate ContainsSub(s: string, sub: string) {
    exists i :: 0 <= i <= |s| && OccursAt(s, i, sub)
  }

  /** `sub` occurs in `s` starting at index `i`. */
  predicate OccursAt(s: string, i: nat, sub: string) {
    i + |sub| <= |s| && s[i..i + |sub|] == sub
  }

  /** A maximal run of non-whitespace characters, as `split()` yields them. */
  predicate IsToken(t: string) {
    t != [] && forall i :: 0 <= i < |t| ==> !IsSpace(t[i])
  }

  /** Length of the leading run of non-whitespace characters. */
  function TokenLen(s: string): (n: nat)
    ensures n <= |s|
    ensures forall i :: 0 <= i < n ==> !IsSpace(s[i])
    ensures n < |s| ==> IsSpace(s[n])
  {
    if s == [] || IsSpace(s[0]) then 0 else 1 + TokenLen(s[1..])
  }

  /** `s.split()`: the whitespace-separated tokens of `s`, in order. */
  function Split(s: string): (ts: seq<string>)
    ensures forall k :: 0 <= k < |ts| ==> IsToken(ts[k])
    decreases |s|
  {
    if s == [] then []
    else if IsSpace(s[0]) then Split(s[1..])
    else
      var n := TokenLen(s);
      [s[..n]] + Split(s[n..])
  }

  /** `" ".join(ts)`. */
  function Join(ts: seq<string>): string {
    if ts == [] then ""
    else if |ts| == 1 then ts[0]
    else ts[0] + " " + Join(ts[1..])
  }

  /** Whitespace before the first token is skipped. */
  lemma {:induction false} SplitSkipsSpace(w: string, s: string)
    requires forall i :: 0 <= i < |w| ==> IsSpace(w[i])
    ensures Split(w + s) == Split(s)
    decreases |w|
  {
    if w != [] {
      assert (w + s)[0] == w[0];
      assert (w + s)[1..] == w[1..] + s;
      SplitSkipsSpace(w[1..], s);
    } else {
      assert w + s == s;
    }
  }

  /** A token followed by the end or by whitespace is split off whole. */
  lemma SplitToken(t: string, s: string)
    requires IsToken(t)
    requires s == [] || IsSpace(s[0])
    ensures Split(t + s) == [t] + Split(s)
  {
    var n := TokenLen(t + s);
    assert forall i :: 0 <= i < |t| ==> (t + s)[i] == t[i];
    assert s != [] ==> (t + s)[|t|] == s[0];
    assert n == |t|;
    assert (t + s)[..n] == t;
    assert (t + s)[n..] == s;
  }

  /** Round trip: splitting tokens joined by single spaces gives them back. */
  lemma {:induction false} SplitJoin(ts: seq<string>)
    requires forall k :: 0 <= k < |ts| ==> IsToken(ts[k])
    ensures Split(Join(ts)) == ts
  {
    if |ts| == 1 {
      SplitToken(ts[0], "");
      assert ts[0] + "" == ts[0];
    } else if |ts| > 1 {
      var rest := " " + Join(ts[1..]);
      SplitToken(ts[0], rest);
      SplitSkipsSpace(" ", Join(ts[1..]));
      SplitJoin(ts[1..]);
      assert Join(ts) == ts[0] + rest;
      assert ts == [ts[0]] + ts[1..];
    }
  }

  /** A line is blank (`strip()` is empty) exactly when it has no tokens. */
  lemma {:induction false} BlankIffNoTokens(s: string)
    ensures !HasNonSpace(s) <==> Split(s) == []
    decreases |s|
  {
    if s != [] {
      if IsSpace(s[0]) {
        BlankIffNoTokens(s[1..]);
        if HasNonSpace(s) {
          var i :| 0 <= i < |s| && !IsSpace(s[i]);
          assert !IsSpace(s[1..][i - 1]);
        }
        if HasNonSpace(s[1..]) {
          var i :| 0 <= i < |s[1..]| && !IsSpace(s[1..][i]);
          assert !IsSpace(s[i + 1]);
        }
      } else {
        assert !IsSpace(s[0]);
      }
    }
  }

  /** A substring of a prefix is a substring of the whole string. */
  lemma ContainsSubOfPrefix(s: string, n: nat, sub: string)
    requires n <= |s|
    requires ContainsSub(s[..n], sub)
    ensures ContainsSub(s, sub)
  {
    var i :| 0 <= i <= n && OccursAt(s[..n], i, sub);
    assert OccursAt(s, i, sub);
  }
}
