/**
 * Unary `+` on a string: the StringToNumber conversion of section 7.1.4.1.1
 * of ECMA-262. Surrounding whitespace is dropped, blank text is 0, and the
 * rest must be a whole numeric literal: a signed decimal with optional
 * fraction and exponent, `Infinity`, or an unsigned `0x`/`0o`/`0b` integer.
 * Anything else is NaN. Finite values are kept exactly, as
 * `mantissa * 10^exponent`, without rounding to a double.
 */
module JsNumbers {
  import opened Wrappers
  import JsStrings

  /** What a numeric text denotes. */
  datatype Number = NaN | Infinite(negative: bool) | Finite(mantissa: int, exponent: int)

  function Pow10(e: nat): (r: nat)
    ensures r >= 1
  {
    if e == 0 then 1 else 10 * Pow10(e - 1)
  }

  /** `n` is finite and its exact value is the integer `k`. */
  predicate Denotes(n: Number, k: int) {
    n.Finite? &&
    if n.exponent >= 0 then n.mantissa * Pow10(n.exponent) == k
    else n.mantissa == k * Pow10(-n.exponent)
  }

  /** `m` shifted `e` decimal places to the left. */
  function ScaleUp(m: int, e: nat): int
    decreases e
  {
    if e == 0 then m else 10 * ScaleUp(m, e - 1)
  }

  /** `m` shifted `e` decimal places to the right, when no digit other than 0 falls off. */
  function ScaleDown(m: int, e: nat): Option<int>
    decreases e
  {
    if e == 0 then Some(m)
    else if m % 10 == 0 then ScaleDown(m / 10, e - 1)
    else None
  }

  /** Shifting left is multiplying by a power of ten. */
  lemma {:induction false} ScaleUpIsProduct(m: int, e: nat)
    ensures ScaleUp(m, e) == m * Pow10(e)
    decreases e
  {
    if e > 0 {
      ScaleUpIsProduct(m, e - 1);
      assert 10 * (m * Pow10(e - 1)) == m * (10 * Pow10(e - 1));
    }
  }

  /** Shifting right yields `k` exactly when `m` is `k` times the power of ten. */
  lemma {:induction false} ScaleDownIsQuotient(m: int, e: nat, k: int)
    ensures ScaleDown(m, e) == Some(k) <==> m == k * Pow10(e)
    decreases e
  {
    if e > 0 {
      var q := k * Pow10(e - 1);
      assert k * Pow10(e) == 10 * q;
      if m % 10 == 0 {
        ScaleDownIsQuotient(m / 10, e - 1, k);
        assert m == 10 * (m / 10);
      } else {
        assert (10 * q) % 10 == 0;
      }
    }
  }

  /** A multiple of `p` leaves no remainder when divided by `p`. */
  lemma MultipleHasNoRemainder(q: int, p: nat)
    requires p > 0
    ensures (q * p) % p == 0
  {
    var a := q * p;
    var k := q - a / p;
    assert p * k == a % p by {
      assert a == p * (a / p) + a % p;
      assert p * k == p * q - p * (a / p);
    }
    ProductAwayFromZero(p, k);
  }

  /** A nonzero multiple of a positive `p` is at least `p` away from zero. */
  lemma ProductAwayFromZero(p: int, k: int)
    requires p > 0
    ensures k >= 1 ==> p * k >= p
    ensures k <= -1 ==> p * k <= -p
  {
  }

  /** The integer a number equals, if it is finite and integral. */
  function AsInteger(n: Number): (r: Option<int>)
    ensures r.Some? ==> n.Finite?
    ensures n.Finite? && n.exponent >= 0 ==> r.Some?
    ensures r.Some? && n.Finite? && n.exponent == 0 ==> r.value == n.mantissa
  {
    match n
    case Finite(m, e) => if e >= 0 then Some(ScaleUp(m, e)) else ScaleDown(m, -e)
    case _ => None
  }

  /** `AsInteger` finds `k` exactly when the number's exact value is `k`. */
  lemma AsIntegerExact(n: Number, k: int)
    ensures AsInteger(n) == Some(k) <==> Denotes(n, k)
  {
    if n.Finite? {
      if n.exponent >= 0 {
        ScaleUpIsProduct(n.mantissa, n.exponent);
      } else {
        ScaleDownIsQuotient(n.mantissa, -n.exponent, k);
      }
    }
  }

  /** The position of the first `a` or `b` in `s`, or `|s|` when there is none. */
  function FirstOf(s: string, a: char, b: char): (i: nat)
    ensures i <= |s|
    ensures i < |s| ==> s[i] == a || s[i] == b
    ensures forall j :: 0 <= j < i ==> s[j] != a && s[j] != b
  {
    if s == [] then 0
    else if s[0] == a || s[0] == b then 0
    else
      var i := 1 + FirstOf(s[1..], a, b);
      assert forall j :: 1 <= j < i ==> s[j] == s[1..][j - 1];
      i
  }

  /** The value of `c` as a digit of a base up to 16, and 16 for any other character. */
  function DigitValue(c: char): (d: nat)
    ensures d <= 16
    ensures d < 10 <==> JsStrings.IsDigit(c)
  {
    if '0' <= c <= '9' then c as int - '0' as int
    else if 'a' <= c <= 'f' then c as int - 'a' as int + 10
    else if 'A' <= c <= 'F' then c as int - 'A' as int + 10
    else 16
  }

  predicate AllRadixDigits(s: string, radix: nat) {
    forall i :: 0 <= i < |s| ==> DigitValue(s[i]) < radix
  }

  /** The value of a run of digits of base `radix`. */
  function RadixValue(s: string, radix: nat): nat
    requires AllRadixDigits(s, radix)
  {
    if s == [] then 0
    else RadixValue(s[..|s| - 1], radix) * radix + DigitValue(s[|s| - 1])
  }

  /** In base 10 the digits and their value are the decimal ones. */
  lemma {:induction false} RadixTenIsDecimal(s: string)
    requires JsStrings.AllDigits(s)
    ensures AllRadixDigits(s, 10) && RadixValue(s, 10) == JsStrings.DigitsValue(s)
  {
    if s != [] {
      RadixTenIsDecimal(s[..|s| - 1]);
    }
  }

  /** The base a prefix letter names: `x` 16, `o` 8, `b` 2, and 0 for any other character. */
  function Radix(c: char): (r: nat)
    ensures r in {0, 2, 8, 16}
    ensures r > 0 ==> !JsStrings.IsDigit(c)
  {
    if c == 'x' || c == 'X' then 16
    else if c == 'o' || c == 'O' then 8
    else if c == 'b' || c == 'B' then 2
    else 0
  }

  /** NonDecimalIntegerLiteral: `0x`, `0o` or `0b` and at least one digit of that base, with no sign. */
  function NonDecimal(t: string): (r: Option<nat>)
    ensures r.Some? ==> |t| >= 3 && t[0] == '0' && !JsStrings.IsDigit(t[1])
  {
    if |t| >= 3 && t[0] == '0' && Radix(t[1]) > 0 && AllRadixDigits(t[2..], Radix(t[1])) then
      Some(RadixValue(t[2..], Radix(t[1])))
    else None
  }

  /**
   * The part of a decimal literal before its exponent: digits, an optional
   * `.` with more digits, and at least one digit in all. The result is the
   * digits read as one integer and the number of them after the `.`.
   */
  function Significand(m: string): (r: Option<(nat, nat)>)
    ensures r.Some? ==> m != [] && (JsStrings.IsDigit(m[0]) || m[0] == '.')
    ensures m != [] && JsStrings.AllDigits(m) ==> r == Some((JsStrings.DigitsValue(m), 0))
  {
    var j := FirstOf(m, '.', '.');
    var whole := m[..j];
    var frac := if j < |m| then m[j + 1..] else [];
    if JsStrings.AllDigits(whole) && JsStrings.AllDigits(frac) && (whole != [] || frac != []) then
      assert JsStrings.AllDigits(whole + frac);
      assert whole == [] ==> m[0] == '.';
      assert whole != [] ==> m[0] == whole[0];
      assert JsStrings.AllDigits(m) ==> j == |m| && whole == m by {
        if JsStrings.AllDigits(m) {
          assert j < |m| ==> JsStrings.IsDigit(m[j]);
        }
      }
      assert frac == [] ==> whole + frac == whole;
      Some((JsStrings.DigitsValue(whole + frac), |frac|))
    else
      None
  }

  /** ExponentPart: after the `e` or `E`, an optionally signed run of digits. */
  function Exponent(x: string): (r: Option<int>)
    ensures x != [] && JsStrings.AllDigits(x) ==> r == Some(JsStrings.DigitsValue(x))
  {
    if JsStrings.IsIntText(x) then
      assert x != [] && JsStrings.AllDigits(x) ==> JsStrings.IsDigit(x[0]);
      Some(JsStrings.IntValue(x))
    else None
  }

  /**
   * StrUnsignedDecimalLiteral other than `Infinity`: a significand and an
   * optional exponent. The result is the significand's digits read as one
   * integer and the power of ten that scales them.
   */
  function UnsignedDecimal(u: string): (r: Option<(nat, int)>)
    ensures r.Some? ==> u != [] && (JsStrings.IsDigit(u[0]) || u[0] == '.')
    ensures u != [] && JsStrings.AllDigits(u) ==> r == Some((JsStrings.DigitsValue(u), 0))
  {
    var i := FirstOf(u, 'e', 'E');
    var x := if i < |u| then Exponent(u[i + 1..]) else Some(0);
    assert JsStrings.AllDigits(u) ==> i == |u| && u[..i] == u by {
      if JsStrings.AllDigits(u) {
        assert i < |u| ==> JsStrings.IsDigit(u[i]);
      }
    }
    match (Significand(u[..i]), x)
    case (Some((m, f)), Some(e)) => Some((m, e - f))
    case _ => None
  }

  /** StrDecimalLiteral: an optional sign, then `Infinity` or an unsigned decimal. */
  function Decimal(t: string): (r: Number)
    ensures r.Infinite? <==> t == "Infinity" || t == "+Infinity" || t == "-Infinity"
    ensures t != [] && JsStrings.AllDigits(t) ==> r == Finite(JsStrings.DigitsValue(t), 0)
    ensures r.Finite? ==> t != [] && (JsStrings.IsDigit(t[0]) || t[0] in "+-.")
  {
    if t == "Infinity" || t == "+Infinity" then Infinite(false)
    else if t == "-Infinity" then Infinite(true)
    else
      var signed := |t| > 0 && (t[0] == '-' || t[0] == '+');
      var u := if signed then t[1..] else t;
      match UnsignedDecimal(u)
      case None => NaN
      case Some((m, e)) => Finite(if signed && t[0] == '-' then -(m as int) else m, e)
  }

  /**
   * StringToNumber: the trimmed text is blank (0), a non-decimal integer,
   * or a decimal literal; anything else is NaN.
   */
  function StringToNumber(s: string): (r: Number)
    ensures JsStrings.AllSpace(s) ==> r == Finite(0, 0)
    ensures r.Infinite? <==> JsStrings.Trim(s) in {"Infinity", "+Infinity", "-Infinity"}
  {
    var t := JsStrings.Trim(s);
    JsStrings.TrimEmptyIffBlank(s);
    if t == [] then Finite(0, 0)
    else
      match NonDecimal(t)
      case Some(n) => Finite(n, 0)
      case None => Decimal(t)
  }

  /** Whitespace around a numeric text changes nothing: the conversion trims first. */
  lemma PaddingIgnored(s: string)
    ensures StringToNumber(JsStrings.Trim(s)) == StringToNumber(s)
  {
    JsStrings.TrimIdempotent(s);
  }

  /** A run of decimal digits reads as its value. */
  lemma DigitsRead(d: string)
    requires d != [] && JsStrings.AllDigits(d)
    ensures StringToNumber(d) == Finite(JsStrings.DigitsValue(d), 0)
  {
    assert JsStrings.IsDigit(d[0]) && JsStrings.IsDigit(d[|d| - 1]);
    JsStrings.TrimKeepsUnpadded(d);
    if |d| >= 2 {
      assert JsStrings.IsDigit(d[1]);
    }
  }

  /** A `-` and a run of decimal digits reads as the negated value. */
  lemma SignedDigitsRead(d: string)
    requires d != [] && JsStrings.AllDigits(d)
    ensures StringToNumber("-" + d) == Finite(-(JsStrings.DigitsValue(d) as int), 0)
  {
    var t := "-" + d;
    assert t[1..] == d && t[|t| - 1] == d[|d| - 1];
    assert JsStrings.IsDigit(d[|d| - 1]);
    JsStrings.TrimKeepsUnpadded(t);
    assert t != "-Infinity" by {
      assert JsStrings.IsDigit(t[1]);
    }
  }

  /** Digits after digits: the value of the front shifted by the back's length, plus the back's value. */
  lemma {:induction false} DigitsAppend(a: string, b: string)
    requires JsStrings.AllDigits(a) && JsStrings.AllDigits(b)
    ensures JsStrings.AllDigits(a + b)
    ensures JsStrings.DigitsValue(a + b) == JsStrings.DigitsValue(a) * Pow10(|b|) + JsStrings.DigitsValue(b)
  {
    var ab := a + b;
    assert JsStrings.AllDigits(ab) by {
      forall i | 0 <= i < |ab| ensures JsStrings.IsDigit(ab[i]) {
        if i < |a| { assert ab[i] == a[i]; } else { assert ab[i] == b[i - |a|]; }
      }
    }
    if b == [] {
      assert ab == a;
    } else {
      var front := b[..|b| - 1];
      var c := b[|b| - 1] as int - '0' as int;
      assert ab[..|ab| - 1] == a + front;
      assert ab[|ab| - 1] == b[|b| - 1];
      DigitsAppend(a, front);
      ShiftStep(JsStrings.DigitsValue(a), Pow10(|front|), JsStrings.DigitsValue(front), c);
    }
  }

  lemma ShiftStep(va: int, p: int, vf: int, c: int)
    ensures (va * p + vf) * 10 + c == va * (10 * p) + (vf * 10 + c)
  {
  }

  /** Text that starts with a decimal digit, is not a `0x`/`0o`/`0b` literal and carries no padding reads as an unsigned decimal. */
  lemma UnsignedRead(t: string)
    requires t != [] && JsStrings.IsDigit(t[0]) && !JsStrings.IsSpace(t[|t| - 1])
    requires |t| > 1 ==> Radix(t[1]) == 0
    ensures StringToNumber(t) == match UnsignedDecimal(t) case None => NaN case Some((m, e)) => Finite(m, e)
  {
    JsStrings.TrimKeepsUnpadded(t);
    assert NonDecimal(t).None?;
    assert t != "Infinity" && t != "+Infinity" && t != "-Infinity" by {
      assert t[0] != 'I' && t[0] != '+' && t[0] != '-';
    }
    assert Decimal(t) == match UnsignedDecimal(t) case None => NaN case Some((m, e)) => Finite(m, e);
  }

  /** `s[i]` is the first `a` or `b` in `s` when none comes before it. */
  lemma FirstOfAt(s: string, a: char, b: char, i: nat)
    requires i <= |s| && (i < |s| ==> s[i] == a || s[i] == b)
    requires forall j :: 0 <= j < i ==> s[j] != a && s[j] != b
    ensures FirstOf(s, a, b) == i
  {
  }

  /** The parts of `d + "e" + x`: the digits before the `e` and the exponent after it. */
  lemma ExponentParts(d: string, x: string)
    requires d != [] && JsStrings.AllDigits(d) && x != [] && JsStrings.AllDigits(x)
    ensures UnsignedDecimal(d + "e" + x) == Some((JsStrings.DigitsValue(d), JsStrings.DigitsValue(x)))
  {
    var t := d + "e" + x;
    FirstOfAt(t, 'e', 'E', |d|);
    assert t[..|d|] == d && t[|d| + 1..] == x;
  }

  /** Digits, `e` and an exponent digit run read as the digits' value at that power of ten, as `17e11` does. */
  lemma ExponentRead(d: string, x: string)
    requires d != [] && JsStrings.AllDigits(d) && x != [] && JsStrings.AllDigits(x)
    ensures StringToNumber(d + "e" + x) == Finite(JsStrings.DigitsValue(d), JsStrings.DigitsValue(x))
  {
    var t := d + "e" + x;
    assert t[0] == d[0] && t[|t| - 1] == x[|x| - 1];
    assert JsStrings.IsDigit(d[0]) && JsStrings.IsDigit(x[|x| - 1]);
    assert t[1] == if |d| > 1 then d[1] else 'e';
    assert |d| > 1 ==> JsStrings.IsDigit(d[1]);
    UnsignedRead(t);
    ExponentParts(d, x);
  }

  /** The parts of `d + "." + f`: no exponent, the whole digits and the fraction digits. */
  lemma FractionParts(d: string, f: string)
    requires d != [] && JsStrings.AllDigits(d) && JsStrings.AllDigits(f)
    ensures JsStrings.AllDigits(d + f)
    ensures UnsignedDecimal(d + "." + f) == Some((JsStrings.DigitsValue(d + f), -|f|))
  {
    DigitsAppend(d, f);
    var t := d + "." + f;
    forall j | 0 <= j < |t| ensures t[j] != 'e' && t[j] != 'E' {
      if j < |d| { assert t[j] == d[j]; } else if j > |d| { assert t[j] == f[j - |d| - 1]; }
    }
    FirstOfAt(t, 'e', 'E', |t|);
    assert t[..|t|] == t;
    FirstOfAt(t, '.', '.', |d|);
    assert t[..|d|] == d && t[|d| + 1..] == f;
    assert Significand(t) == Some((JsStrings.DigitsValue(d + f), |f|));
  }

  /** Digits, `.` and a fraction read as all the digits scaled down by the fraction's length. */
  lemma FractionRead(d: string, f: string)
    requires d != [] && JsStrings.AllDigits(d) && JsStrings.AllDigits(f)
    ensures JsStrings.AllDigits(d + f)
    ensures StringToNumber(d + "." + f) == Finite(JsStrings.DigitsValue(d + f), -|f|)
  {
    var t := d + "." + f;
    assert t[0] == d[0] && t[|t| - 1] == (if f == [] then '.' else f[|f| - 1]);
    assert JsStrings.IsDigit(d[0]) && (f != [] ==> JsStrings.IsDigit(f[|f| - 1]));
    assert t[1] == if |d| > 1 then d[1] else '.';
    assert |d| > 1 ==> JsStrings.IsDigit(d[1]);
    UnsignedRead(t);
    FractionParts(d, f);
  }

  /** Digits followed by `.0` read as ten times their value, scaled down by one place. */
  lemma ZeroFractionRead(d: string)
    requires d != [] && JsStrings.AllDigits(d)
    ensures StringToNumber(d + ".0") == Finite(JsStrings.DigitsValue(d) * 10, -1)
  {
    FractionRead(d, "0");
    DigitsAppend(d, "0");
    assert JsStrings.DigitsValue("0") == 0 && Pow10(1) == 10;
    assert d + "." + "0" == d + ".0";
  }

  /** A radix letter in second place, as in `0x10`, is no decimal literal. */
  lemma RadixLetterIsNoDecimal(u: string)
    requires |u| >= 2 && Radix(u[1]) > 0
    ensures UnsignedDecimal(u) == None
  {
    assert !JsStrings.IsDigit(u[1]) && u[1] != 'e' && u[1] != 'E' && u[1] != '.';
    var i := FirstOf(u, 'e', 'E');
    var m := u[..i];
    if i >= 2 {
      assert m[1] == u[1];
      var j := FirstOf(m, '.', '.');
      assert j != 1;
      if j >= 2 {
        assert m[..j][1] == u[1];
      } else {
        assert m[j + 1..][0] == u[1];
      }
    }
  }

  /** A sign before a `0x`, `0o` or `0b` literal, as in `-0x10`, makes the text NaN. */
  lemma SignedRadixIsNaN(t: string)
    requires |t| >= 4 && (t[0] == '-' || t[0] == '+') && t[1] == '0'
    requires Radix(t[2]) > 0 && !JsStrings.IsSpace(t[|t| - 1])
    ensures StringToNumber(t) == NaN
  {
    JsStrings.TrimKeepsUnpadded(t);
    assert t[1..][1] == t[2];
    RadixLetterIsNoDecimal(t[1..]);
    assert t != "Infinity" && t != "+Infinity" && t != "-Infinity" by {
      assert t[1] != 'I';
    }
  }

  /** `0x` and hexadecimal digits read as their base-16 value, as `0x18BCFE56800` does. */
  lemma HexRead(h: string)
    requires h != [] && AllRadixDigits(h, 16)
    ensures StringToNumber("0x" + h) == Finite(RadixValue(h, 16), 0)
  {
    var t := "0x" + h;
    assert t[|t| - 1] == h[|h| - 1] && DigitValue(h[|h| - 1]) < 16;
    JsStrings.TrimKeepsUnpadded(t);
    assert t[2..] == h;
  }
}
