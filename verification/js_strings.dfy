/**
 * The pieces of JavaScript string handling the service relies on: the
 * whitespace class `\s`, the `trim` sanitizer of validator.js, and the
 * decimal integers accepted by validator.js `isInt` and by unary `+`.
 */
module JsStrings {

  /** JavaScript's `\s`: WhiteSpace and LineTerminator code points. */
  predicate IsSpace(c: char) {
    || c == ' ' || c == '\t' || c == '\n' || c == '\U{000B}' || c == '\U{000C}' || c == '\r'
    || c == '\U{00A0}' || c == '\U{1680}' || ('\U{2000}' <= c <= '\U{200A}')
    || c == '\U{2028}' || c == '\U{2029}' || c == '\U{202F}' || c == '\U{205F}'
    || c == '\U{3000}' || c == '\U{FEFF}'
  }

  predicate AllSpace(s: string) {
    forall i :: 0 <= i < |s| ==> IsSpace(s[i])
  }

  /** The number of whitespace characters `s` starts with. */
  function Leading(s: string): (n: nat)
    ensures n <= |s|
    ensures forall i :: 0 <= i < n ==> IsSpace(s[i])
    ensures n < |s| ==> !IsSpace(s[n])
  {
    if |s| > 0 && IsSpace(s[0]) then
      var n := 1 + Leading(s[1..]);
      assert forall i :: 1 <= i < n ==> s[i] == s[1..][i - 1];
      n
    else 0
  }

  /** The number of whitespace characters `s` ends with. */
  function Trailing(s: string): (n: nat)
    ensures n <= |s|
    ensures forall i :: |s| - n <= i < |s| ==> IsSpace(s[i])
    ensures n < |s| ==> !IsSpace(s[|s| - n - 1])
  {
    if |s| > 0 && IsSpace(s[|s| - 1]) then
      var n := 1 + Trailing(s[..|s| - 1]);
      assert forall i :: |s| - n <= i < |s| - 1 ==> s[i] == s[..|s| - 1][i];
      n
    else 0
  }

  /** validator.js `ltrim` with no explicit characters: drops leading whitespace. */
  function TrimStart(s: string): string {
    s[Leading(s)..]
  }

  /** validator.js `rtrim` with no explicit characters: drops trailing whitespace. */
  function TrimEnd(s: string): string {
    s[..|s| - Trailing(s)]
  }

  /** validator.js `trim`: `rtrim(ltrim(s))`. */
  function Trim(s: string): string {
    TrimEnd(TrimStart(s))
  }

  /** `trim` keeps the slice of `s` after its leading whitespace and before its trailing whitespace. */
  lemma TrimSlice(s: string)
    ensures Leading(s) + |Trim(s)| <= |s| && Trim(s) == s[Leading(s)..Leading(s) + |Trim(s)|]
  {
    var a := Leading(s);
    var k := |s[a..]| - Trailing(s[a..]);
    assert Trim(s) == s[a..][..k];
    SliceOfSlice(s, a, k);
  }

  lemma SliceOfSlice(s: string, a: nat, k: nat)
    requires a + k <= |s|
    ensures s[a..][..k] == s[a..a + k]
  {
  }

  /** What `trim` drops at the end is whitespace. */
  lemma TrimDropsSpace(s: string)
    ensures Leading(s) + |Trim(s)| <= |s|
    ensures forall i :: Leading(s) + |Trim(s)| <= i < |s| ==> IsSpace(s[i])
  {
    var a := Leading(s);
    var t := s[a..];
    assert |Trim(s)| == |t| - Trailing(t);
    forall i | a + |Trim(s)| <= i < |s|
      ensures IsSpace(s[i])
    {
      assert s[i] == t[i - a];
    }
  }

  /** The trimmed string neither starts nor ends with whitespace. */
  lemma TrimUnpadded(s: string)
    ensures Trim(s) == [] || (!IsSpace(Trim(s)[0]) && !IsSpace(Trim(s)[|Trim(s)| - 1]))
  {
    var a := Leading(s);
    var t := s[a..];
    var b := |t| - Trailing(t);
    var u := Trim(s);
    assert u == t[..b];
    if b > 0 {
      assert u[0] == s[a];
      assert u[b - 1] == t[|t| - Trailing(t) - 1];
    }
  }

  /**
   * The trimmed string is the slice of `s` after its leading whitespace
   * whose remainder is whitespace only, and it neither starts nor ends with
   * whitespace.
   */
  lemma TrimIsSlice(s: string)
    ensures Leading(s) + |Trim(s)| <= |s| && Trim(s) == s[Leading(s)..Leading(s) + |Trim(s)|]
    ensures forall i :: Leading(s) + |Trim(s)| <= i < |s| ==> IsSpace(s[i])
    ensures Trim(s) == [] || (!IsSpace(Trim(s)[0]) && !IsSpace(Trim(s)[|Trim(s)| - 1]))
  {
    TrimSlice(s);
    TrimDropsSpace(s);
    TrimUnpadded(s);
  }

  /** `trim` empties a string exactly when the string is all whitespace. */
  lemma TrimEmptyIffBlank(s: string)
    ensures Trim(s) == [] <==> AllSpace(s)
  {
    TrimDropsSpace(s);
    TrimUnpadded(s);
    TrimSlice(s);
  }

  /** Trimming twice is trimming once. */
  lemma TrimIdempotent(s: string)
    ensures Trim(Trim(s)) == Trim(s)
  {
    TrimUnpadded(s);
    TrimKeepsUnpadded(Trim(s));
  }

  /** A string that neither starts nor ends with whitespace is left as it is. */
  lemma TrimKeepsUnpadded(s: string)
    requires s == [] || (!IsSpace(s[0]) && !IsSpace(s[|s| - 1]))
    ensures Trim(s) == s
  {
    assert Leading(s) == 0;
    assert TrimStart(s) == s;
    assert Trailing(s) == 0;
  }

  predicate IsDigit(c: char) {
    '0' <= c <= '9'
  }

  predicate AllDigits(s: string) {
    forall i :: 0 <= i < |s| ==> IsDigit(s[i])
  }

  /** The value of a run of decimal digits (leading zeros allowed). */
  function DigitsValue(s: string): nat
    requires AllDigits(s)
  {
    if s == [] then 0
    else DigitsValue(s[..|s| - 1]) * 10 + (s[|s| - 1] as int - '0' as int)
  }

  /** validator.js `isInt` syntax with leading zeros allowed: `^[-+]?[0-9]+$`. */
  predicate IsIntText(s: string) {
    if |s| > 0 && (s[0] == '-' || s[0] == '+') then |s| > 1 && AllDigits(s[1..])
    else |s| > 0 && AllDigits(s)
  }

  /** The number an `IsIntText` string denotes. */
  function IntValue(s: string): int
    requires IsIntText(s)
  {
    if s[0] == '-' then -(DigitsValue(s[1..]) as int)
    else if s[0] == '+' then DigitsValue(s[1..])
    else DigitsValue(s)
  }

  /** The decimal text of a natural number, without leading zeros. */
  function NatText(n: nat): (r: string)
    ensures |r| > 0 && AllDigits(r)
    ensures DigitsValue(r) == n
    decreases n
  {
    var d := ['0' + (n % 10) as char];
    if n < 10 then d
    else
      var r := NatText(n / 10) + d;
      assert r[..|r| - 1] == NatText(n / 10);
      r
  }
}
