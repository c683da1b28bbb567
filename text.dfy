/** Rendering of numbers, as `ToString()` produces it for the .NET numeric
    types the engine prints. The source formats in the current culture; the
    model fixes one whose decimal separator is '.' and whose minus sign is
    '-' (the invariant culture): integers in decimal digits with
    a leading '-', decimals with exactly `scale` fractional digits, and
    doubles (modelled as reals) as an integer when they are integral and
    otherwise with a fractional part. */
module Text {

  function Digit(d: nat): (c: char)
    requires d < 10
    ensures '0' <= c <= '9'
  {
    "0123456789"[d]
  }

  predicate AllDigits(s: string) {
    forall i :: 0 <= i < |s| ==> '0' <= s[i] <= '9'
  }

  /** Decimal digits of a natural number, most significant first. */
  function NatText(n: nat): (s: string)
    ensures |s| >= 1 && AllDigits(s)
    ensures n >= 10 <==> |s| >= 2
  {
    if n < 10 then [Digit(n)] else NatText(n / 10) + [Digit(n % 10)]
  }

  lemma DigitInjective(a: nat, b: nat)
    requires a < 10 && b < 10 && Digit(a) == Digit(b)
    ensures a == b
  {
  }

  /** Different numbers never print alike. */
  lemma {:induction false} NatTextInjective(a: nat, b: nat)
    requires NatText(a) == NatText(b)
    ensures a == b
  {
    if a < 10 {
      DigitInjective(a, b);
    } else {
      var sa, sb := NatText(a), NatText(b);
      assert sa[..|sa| - 1] == NatText(a / 10);
      assert sb[..|sb| - 1] == NatText(b / 10);
      NatTextInjective(a / 10, b / 10);
      assert sa[|sa| - 1] == Digit(a % 10) && sb[|sb| - 1] == Digit(b % 10);
      DigitInjective(a % 10, b % 10);
    }
  }

  /** BigInteger/int/long `ToString()`. */
  function IntText(n: int): (s: string)
    ensures |s| >= 1
    ensures (s[0] == '-') <==> n < 0
  {
    if n < 0 then "-" + NatText(-n) else NatText(n)
  }

  lemma IntTextInjective(a: int, b: int)
    requires IntText(a) == IntText(b)
    ensures a == b
  {
    if a < 0 {
      assert b < 0;
      StripSign(NatText(-a));
      StripSign(NatText(-b));
      NatTextInjective(-a, -b);
    } else {
      assert b >= 0;
      NatTextInjective(a, b);
    }
  }

  lemma StripSign(t: string)
    ensures ("-" + t)[1..] == t
  {
  }

  /** Prefixes `s` with zeros up to `width` characters. */
  function PadLeft(s: string, width: nat): (r: string)
    ensures |r| == if |s| >= width then |s| else width
    ensures r[|r| - |s|..] == s
    decreases width - |s|
  {
    if |s| >= width then s
    else
      var r := PadLeft("0" + s, width);
      assert r[|r| - |s|..] == r[|r| - |s| - 1..][1..];
      r
  }

  /** `decimal.ToString()` of mantissa/10^scale: the scale is kept, so 1.0m
      prints "1.0" and 1m prints "1". */
  function DecimalText(mantissa: int, scale: nat): (s: string)
    ensures |s| >= 1
    ensures scale == 0 ==> s == IntText(mantissa)
    ensures scale > 0 ==> '.' in s
  {
    var digits := PadLeft(NatText(if mantissa < 0 then -mantissa else mantissa), scale + 1);
    var body := if scale == 0 then digits
                else digits[..|digits| - scale] + "." + digits[|digits| - scale..];
    assert scale > 0 ==> body[|digits| - scale] == '.';
    if mantissa < 0 then "-" + body else body
  }

  /** Up to `count` fractional digits of a real in [0, 1). */
  function FractionDigits(f: real, count: nat): (s: string)
    requires 0.0 <= f < 1.0
    ensures |s| <= count && AllDigits(s)
    decreases count
  {
    if f == 0.0 || count == 0 then ""
    else
      var shifted := f * 10.0;
      var d := shifted.Floor;
      assert 0 <= d < 10;
      [Digit(d)] + FractionDigits(shifted - d as real, count - 1)
  }

  /** `double.ToString()`: an integral value prints as an integer; any
      other value prints its sign, integer part, '.' and up to fifteen
      fractional digits. */
  function RealText(x: real): (s: string)
    ensures x == x.Floor as real ==> s == IntText(x.Floor)
    ensures x != x.Floor as real ==> '.' in s
  {
    if x == x.Floor as real then IntText(x.Floor)
    else
      var m := if x < 0.0 then -x else x;
      var whole := m.Floor;
      var body := NatText(whole) + "." + FractionDigits(m - whole as real, 15);
      assert body[|NatText(whole)|] == '.';
      if x < 0.0 then "-" + body else body
  }

  /** The text "1" is printed by exactly one double: 1.0. */
  lemma RealTextOne(x: real)
    ensures RealText(x) == "1" <==> x == 1.0
  {
    if RealText(x) == "1" {
      assert '.' !in "1";
      assert IntText(x.Floor) == IntText(1);
      IntTextInjective(x.Floor, 1);
    }
  }

  /** A decimal prints "1" only when it is 1 with scale 0 (1.0m prints "1.0"). */
  lemma DecimalTextOne(mantissa: int, scale: nat)
    ensures DecimalText(mantissa, scale) == "1" <==> mantissa == 1 && scale == 0
  {
    if DecimalText(mantissa, scale) == "1" {
      assert '.' !in "1";
      assert IntText(mantissa) == IntText(1);
      IntTextInjective(mantissa, 1);
    }
  }

  /** An integer prints "1" exactly when it is 1. */
  lemma IntTextOne(n: int)
    ensures IntText(n) == "1" <==> n == 1
  {
    if IntText(n) == "1" {
      assert IntText(n) == IntText(1);
      IntTextInjective(n, 1);
    }
  }
}
