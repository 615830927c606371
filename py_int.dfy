/** Python's `int(token)` in base 10, as the integer stats parser applies it
    to the value token of a line, and `str(n)`, its inverse. */
module PyInt {
  import opened Wrappers

  predicate IsDigit(c: char) {
    '0' <= c <= '9'
  }

  function DigitValue(c: char): nat
    requires IsDigit(c)
  {
    (c as int) - ('0' as int)
  }

  function DigitChar(d: nat): (c: char)
    requires d < 10
    ensures IsDigit(c) && DigitValue(c) == d
  {
    ('0' as int + d) as char
  }

  /** Python's integer digit string: `digit (["_"] digit)*`, so an underscore
      only ever sits between two digits. */
  predicate IsDigitString(s: string) {
    |s| > 0 && IsDigit(s[0]) && DigitsOrUnderscores(s) &&
    forall i :: 0 <= i < |s| && s[i] == '_' ==> i + 1 < |s| && IsDigit(s[i + 1])
  }

  predicate DigitsOrUnderscores(s: string) {
    forall i :: 0 <= i < |s| ==> IsDigit(s[i]) || s[i] == '_'
  }

  /** The value of a digit string, underscores ignored. */
  function DigitsValue(s: string): nat
    requires DigitsOrUnderscores(s)
  {
    if s == [] then 0
    else
      var init := s[..|s| - 1];
      if s[|s| - 1] == '_' then DigitsValue(init)
      else 10 * DigitsValue(init) + DigitValue(s[|s| - 1])
  }

  /** `int(tok)`: an optional sign, then a digit string; anything else is the
      `ValueError` the parser swallows, here `None`. */
  function ParseInt(tok: string): (r: Option<int>)
    ensures r.Some? ==> tok != [] && IsDigit(tok[|tok| - 1])
    ensures r.Some? && r.value < 0 ==> tok[0] == '-'
    ensures r.Some? ==> forall i :: 0 < i < |tok| ==> IsDigit(tok[i]) || tok[i] == '_'
  {
    if tok != [] && (tok[0] == '+' || tok[0] == '-') then
      var digits := tok[1..];
      if IsDigitString(digits) then
        var v: int := DigitsValue(digits);
        Some(if tok[0] == '-' then -v else v)
      else None
    else if IsDigitString(tok) then Some(DigitsValue(tok))
    else None
  }

  /** `str(n)` for a non-negative `n`: its decimal digits. */
  function NatToString(n: nat): (s: string)
    ensures |s| > 0 && forall i :: 0 <= i < |s| ==> IsDigit(s[i])
  {
    if n < 10 then [DigitChar(n)] else NatToString(n / 10) + [DigitChar(n % 10)]
  }

  /** `str(n)`. */
  function IntToString(n: int): string {
    if n < 0 then "-" + NatToString(-n) else NatToString(n)
  }

  lemma {:induction false} NatToStringValue(n: nat)
    ensures IsDigitString(NatToString(n))
    ensures DigitsValue(NatToString(n)) == n
  {
    var s := NatToString(n);
    if n >= 10 {
      NatToStringValue(n / 10);
      assert s[..|s| - 1] == NatToString(n / 10);
    }
  }

  /** Round trip: `int(str(n)) == n`. */
  lemma ParseIntOfString(n: int)
    ensures ParseInt(IntToString(n)) == Some(n)
  {
    if n < 0 {
      NatToStringValue(-n);
      ParseNegative(NatToString(-n));
    } else {
      NatToStringValue(n);
      ParseUnsigned(NatToString(n));
    }
  }

  /** A digit string after a '-' reads as its negated value. */
  lemma ParseNegative(d: string)
    requires IsDigitString(d)
    ensures ParseInt("-" + d) == Some(-(DigitsValue(d) as int))
  {
    var t := "-" + d;
    assert t[0] == '-';
    assert t[1..] == d;
  }

  /** A digit string without a sign reads as its value. */
  lemma ParseUnsigned(d: string)
    requires IsDigitString(d)
    ensures ParseInt(d) == Some(DigitsValue(d) as int)
  {
    assert d[0] != '+' && d[0] != '-';
  }

  /** A token with a decimal point (such as `1.50`) is not an integer. */
  lemma ParseIntRejectsPoint(tok: string, i: nat)
    requires i < |tok| && tok[i] == '.'
    ensures ParseInt(tok) == None
  {
    if tok != [] && (tok[0] == '+' || tok[0] == '-') {
      assert tok[1..][i - 1] == '.';
    }
  }

  /** A few concrete tokens, accepted and refused. */
  lemma ParseIntExamples()
    ensures ParseInt("-42") == Some(-42)
    ensures ParseInt("1_000") == Some(1000)
    ensures ParseInt("_1") == None && ParseInt("1__0") == None && ParseInt("1_") == None
    ensures ParseInt("N/A") == None && ParseInt("") == None && ParseInt("-") == None
  {
    assert "-42"[1..] == "42";
    assert "42"[..1] == "4" && "4"[..0] == "";
    assert DigitsValue("42") == 42;
    assert "1_000"[..4] == "1_00";
    assert "1_00"[..3] == "1_0";
    assert "1_0"[..2] == "1_";
    assert "1_"[..1] == "1";
    assert "1__0"[1] == '_' && !IsDigit("1__0"[2]);
    assert !IsDigitString("1__0");
    assert !IsDigit("_1"[0]) && !IsDigitString("_1");
    assert "1_"[1] == '_' && !IsDigitString("1_");
    assert "-"[1..] == "";
  }
}
