/**
 * String helpers shared by the client script and the server: whitespace trimming
 * (JavaScript `trim`, Python `str.strip`), ASCII case folding (JavaScript's `i` regex
 * flag, Python's `str.lower`), and Python's `int()`/`str()` on decimal integers.
 */
module Text {
  import opened Wrappers

  /** JavaScript truthiness of a string value: `null`, `undefined` and `''` are falsy. */
  predicate Truthy(v: Option<string>) {
    v.Some? && v.value != ""
  }

  /**
   * A looked-up value or its default, as Python's `request.args.get(key, fallback)`
   * and `os.getenv(name, fallback)` give it: the default only when the key is absent.
   */
  function GetOr(v: Option<string>, fallback: string): (r: string)
    ensures v.Some? ==> r == v.value
    ensures v.None? ==> r == fallback
  {
    if v.Some? then v.value else fallback
  }

  /** The ASCII whitespace characters removed by `trim()` / `strip()`. */
  predicate IsSpace(c: char) {
    c == ' ' || c == '\t' || c == '\n' || c == '\r' || c == '\U{000B}' || c == '\U{000C}'
  }

  predicate AllSpace(s: string) {
    forall i :: 0 <= i < |s| ==> IsSpace(s[i])
  }

  /** The number of spaces `s` starts with. */
  function Leading(s: string): (n: nat)
    ensures n <= |s|
    ensures forall i :: 0 <= i < n ==> IsSpace(s[i])
    ensures n < |s| ==> !IsSpace(s[n])
  {
    if s != [] && IsSpace(s[0]) then
      var m := Leading(s[1..]);
      assert forall i :: 1 <= i <= m ==> s[i] == s[1..][i - 1];
      m + 1
    else 0
  }

  /** The number of spaces `s` ends with. */
  function Trailing(s: string): (n: nat)
    ensures n <= |s|
    ensures forall i :: |s| - n <= i < |s| ==> IsSpace(s[i])
    ensures n < |s| ==> !IsSpace(s[|s| - n - 1])
  {
    if s != [] && IsSpace(s[|s| - 1]) then
      var m := Trailing(s[..|s| - 1]);
      assert forall i :: |s| - 1 - m <= i < |s| - 1 ==> s[i] == s[..|s| - 1][i];
      m + 1
    else 0
  }

  /** `s.trim()` / `s.strip()`: `s` with the spaces at both ends removed and nothing else. */
  function Trim(s: string): (r: string)
    ensures r != [] ==> !IsSpace(r[0]) && !IsSpace(r[|r| - 1])
    ensures r == [] <==> AllSpace(s)
  {
    var a := Leading(s);
    if a == |s| then []
    else
      var b := Trailing(s);
      assert a < |s| - b;
      s[a..|s| - b]
  }

  /** `Trim` keeps a contiguous part of `s`, from its first non-space character on. */
  lemma TrimIsInfix(s: string)
    requires Trim(s) != []
    ensures Leading(s) + |Trim(s)| <= |s| && Trim(s) == s[Leading(s)..Leading(s) + |Trim(s)|]
  {
  }

  /** What `Trim` removes is spaces, at the two ends only. */
  lemma TrimRemovesSpaces(s: string)
    requires Trim(s) != []
    ensures AllSpace(s[..Leading(s)]) && AllSpace(s[Leading(s) + |Trim(s)|..])
  {
    var a, b := Leading(s), Trailing(s);
    assert a + |Trim(s)| == |s| - b;
    SliceAllSpace(s, 0, a);
    SliceAllSpace(s, |s| - b, |s|);
  }

  lemma SliceAllSpace(s: string, lo: int, hi: int)
    requires 0 <= lo <= hi <= |s|
    requires forall i :: lo <= i < hi ==> IsSpace(s[i])
    ensures AllSpace(s[lo..hi])
  {
    assert forall i :: lo <= i < hi ==> s[lo..hi][i - lo] == s[i];
  }

  /** Only an all-space string trims to the empty string. */
  lemma TrimEmpty(s: string)
    ensures Trim(s) == [] <==> AllSpace(s)
  {
  }

  /** A string with no space at either end is its own trim. */
  lemma TrimUnpadded(s: string)
    requires s != [] && !IsSpace(s[0]) && !IsSpace(s[|s| - 1])
    ensures Trim(s) == s
  {
    assert Leading(s) == 0 && Trailing(s) == 0;
  }

  /** ASCII lower-casing of one character. */
  function Lower(c: char): (r: char)
    ensures 'A' <= c <= 'Z' ==> 'a' <= r <= 'z' && r as int - c as int == 32
    ensures !('A' <= c <= 'Z') ==> r == c
  {
    if 'A' <= c <= 'Z' then (c as int + 32) as char else c
  }

  /** `s.lower()`, restricted to ASCII letters. */
  function LowerString(s: string): (r: string)
    ensures |r| == |s| && forall i :: 0 <= i < |s| ==> r[i] == Lower(s[i])
  {
    if s == [] then [] else [Lower(s[0])] + LowerString(s[1..])
  }

  /** Equality up to ASCII case. */
  predicate FoldEq(a: string, b: string) {
    |a| == |b| && forall i :: 0 <= i < |a| ==> Lower(a[i]) == Lower(b[i])
  }

  lemma FoldEqIsLowerEq(a: string, b: string)
    ensures FoldEq(a, b) <==> LowerString(a) == LowerString(b)
  {
    if FoldEq(a, b) {
      assert forall i :: 0 <= i < |a| ==> LowerString(a)[i] == LowerString(b)[i];
    }
    if LowerString(a) == LowerString(b) {
      assert forall i :: 0 <= i < |a| ==> LowerString(a)[i] == LowerString(b)[i];
    }
  }

  predicate StartsWith(s: string, p: string) {
    |p| <= |s| && s[..|p|] == p
  }

  /** A string whose first character differs from the first of `p` does not start with `p`. */
  lemma NotStartsWith(s: string, p: string)
    requires p != [] && (s == [] || s[0] != p[0])
    ensures !StartsWith(s, p)
  {
    if |p| <= |s| {
      assert s[..|p|][0] == s[0];
    }
  }

  // ---------------------------------------------------------------------------
  // Decimal integers: Python `str(n)` and `int(s)`.

  predicate IsDigit(c: char) { '0' <= c <= '9' }

  function DigitValue(c: char): (d: nat)
    requires IsDigit(c)
    ensures d < 10
  {
    c as int - '0' as int
  }

  function DigitChar(d: nat): (c: char)
    requires d < 10
    ensures IsDigit(c) && DigitValue(c) == d
  {
    ('0' as int + d) as char
  }

  /** `str(n)` for n >= 0: the shortest decimal numeral. */
  function NatToString(n: nat): (r: string)
    ensures |r| >= 1 && forall i :: 0 <= i < |r| ==> IsDigit(r[i])
    decreases n
  {
    if n < 10 then [DigitChar(n)] else NatToString(n / 10) + [DigitChar(n % 10)]
  }

  /** `str(n)` for any Python int. */
  function IntToString(n: int): (r: string)
    ensures |r| >= 1
  {
    if n < 0 then "-" + NatToString(-n) else NatToString(n)
  }

  /**
   * A Python integer literal body (after the sign): digits, where single
   * underscores may separate two digits (`1_000`).
   */
  predicate DigitGroups(s: string) {
    |s| > 0 && IsDigit(s[0]) && IsDigit(s[|s| - 1])
    && (forall i :: 0 <= i < |s| ==> IsDigit(s[i]) || s[i] == '_')
    && (forall i :: 0 <= i < |s| - 1 && s[i] == '_' ==> s[i + 1] != '_')
  }

  /** The value of a run of digits and underscores, underscores ignored. */
  function DigitsValue(s: string): (v: nat)
    requires forall i :: 0 <= i < |s| ==> IsDigit(s[i]) || s[i] == '_'
  {
    if s == [] then 0
    else if s[|s| - 1] == '_' then DigitsValue(s[..|s| - 1])
    else DigitsValue(s[..|s| - 1]) * 10 + DigitValue(s[|s| - 1])
  }

  /** Python `int(s)`: `None` where `int` raises `ValueError`. Non-ASCII digits are not modelled. */
  function ParseInt(s: string): (r: Option<int>)
  {
    ParseLiteral(Trim(s))
  }

  /** An integer literal without surrounding spaces: an optional sign, then digit groups. */
  function ParseLiteral(t: string): (r: Option<int>)
  {
    if |t| > 0 && (t[0] == '+' || t[0] == '-') then
      var body := t[1..];
      if DigitGroups(body) then
        var v: int := DigitsValue(body);
        Some(if t[0] == '-' then -v else v)
      else None
    else if DigitGroups(t) then
      Some(DigitsValue(t))
    else None
  }

  lemma {:induction false} NatToStringValue(n: nat)
    ensures DigitsValue(NatToString(n)) == n
    decreases n
  {
    var r := NatToString(n);
    if n >= 10 {
      NatToStringValue(n / 10);
      assert r[..|r| - 1] == NatToString(n / 10);
    }
  }

  /** A numeral is a valid integer literal body with the value it was printed from. */
  lemma NumeralParses(m: nat)
    ensures DigitGroups(NatToString(m)) && DigitsValue(NatToString(m)) == m
  {
    NatToStringValue(m);
  }

  /** The literal `str(n)` reads back as `n`. */
  lemma LiteralRoundTrip(n: int)
    ensures ParseLiteral(IntToString(n)) == Some(n)
  {
    var m := if n < 0 then -n else n;
    var d := NatToString(m);
    NumeralParses(m);
    var s := IntToString(n);
    if n < 0 {
      assert s[1..] == d;
    }
  }

  /** `int(str(n)) == n`: printing a count and parsing it back is the identity. */
  lemma IntRoundTrip(n: int)
    ensures ParseInt(IntToString(n)) == Some(n)
  {
    var s := IntToString(n);
    var d := NatToString(if n < 0 then -n else n);
    assert s[|s| - 1] == d[|d| - 1];
    assert IsDigit(s[0]) || s[0] == '-';
    TrimUnpadded(s);
    LiteralRoundTrip(n);
  }

  /** Printing is injective, which is what lets a message embed a count unambiguously. */
  lemma IntToStringInjective(a: int, b: int)
    requires IntToString(a) == IntToString(b)
    ensures a == b
  {
    IntRoundTrip(a);
    IntRoundTrip(b);
  }
}
