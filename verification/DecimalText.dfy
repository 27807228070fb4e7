/** What `%g` prints: six significant digits, in fixed or scientific form, without trailing zeros. */
module DecimalText {
  import opened Bytes
  import opened Numerals

  const EXPONENT: byte := 101

  /** A positive number as a unit from 1 to below 10 and a power of ten. */
  datatype Scaled = Scaled(unit: real, exp: int)

  function ScaleDown(a: real): (r: Scaled)
    requires a >= 1.0
    ensures 1.0 <= r.unit < 10.0 && r.exp >= 0
    decreases a.Floor
  {
    if a < 10.0 then Scaled(a, 0)
    else
      var r := ScaleDown(a / 10.0);
      Scaled(r.unit, r.exp + 1)
  }

  lemma InverseAboveOne(a: real, inverse: real)
    requires 0.0 < a < 1.0 && a * inverse == 1.0
    ensures inverse > 1.0
  {
    if inverse <= 1.0 {
      ProductAtMost(a, inverse);
    }
  }

  lemma ProductAtMost(a: real, x: real)
    requires a > 0.0 && x <= 1.0
    ensures a * x <= a
  {
    assert a * (1.0 - x) >= 0.0;
  }

  /** `inverse` only shows that this ends. */
  function ScaleUp(a: real, inverse: real): (r: Scaled)
    requires 0.0 < a < 1.0 && a * inverse == 1.0
    ensures 1.0 <= r.unit < 10.0 && r.exp < 0
    decreases inverse.Floor
  {
    if a * 10.0 >= 1.0 then Scaled(a * 10.0, -1)
    else
      InverseAboveOne(a, inverse);
      InverseAboveOne(a * 10.0, inverse / 10.0);
      var r := ScaleUp(a * 10.0, inverse / 10.0);
      Scaled(r.unit, r.exp - 1)
  }

  function Scale(a: real): (r: Scaled)
    requires a > 0.0
    ensures 1.0 <= r.unit < 10.0
  {
    if a >= 1.0 then ScaleDown(a)
    else
      assert a * (1.0 / a) == 1.0;
      ScaleUp(a, 1.0 / a)
  }

  /** To the nearest integer, and between two to the even one. */
  function RoundHalfEven(x: real): (n: int)
    ensures -0.5 <= n as real - x <= 0.5
    ensures n as real - x == 0.5 || x - n as real == 0.5 ==> n % 2 == 0
  {
    var f := x.Floor;
    var d := x - f as real;
    if d < 0.5 || (d == 0.5 && f % 2 == 0) then f else f + 1
  }

  /** Six digits before a power of ten. */
  datatype Rounded = Rounded(digits: nat, exp: int)

  function Round(a: real): (r: Rounded)
    requires a > 0.0
    ensures 100000 <= r.digits < 1000000
  {
    var s := Scale(a);
    var n := RoundHalfEven(s.unit * 100000.0);
    if n == 1000000 then Rounded(100000, s.exp + 1) else Rounded(n, s.exp)
  }

  function StripZeros(s: seq<byte>): seq<byte> {
    if s != [] && s[|s| - 1] == ZERO then StripZeros(s[..|s| - 1]) else s
  }

  function Fraction(s: seq<byte>): (t: seq<byte>)
    ensures t != [] ==> t[0] == DOT
  {
    var kept := StripZeros(s);
    if kept == [] then [] else [DOT] + kept
  }

  function ZeroDigits(n: nat): (s: seq<byte>)
    ensures |s| == n
  {
    seq(n, _ => ZERO)
  }

  /** The exponent with its sign and at least two digits. */
  function ExponentText(e: int): seq<byte> {
    [EXPONENT, if e < 0 then MINUS else PLUS]
    + (if Magnitude(e) < 10 then [ZERO] else []) + Digits(Magnitude(e), 10)
  }

  lemma SixDigits(n: nat)
    requires 100000 <= n < 1000000
    ensures |Digits(n, 10)| == 6
  {
    hide DigitChar;
    forall m: nat
      ensures Quot(m, 10) == m / 10
    {
    }
    assert |Digits(n / 100000, 10)| == 1;
    assert |Digits(n / 10000, 10)| == 2;
    assert |Digits(n / 1000, 10)| == 3;
    assert |Digits(n / 100, 10)| == 4;
    assert |Digits(n / 10, 10)| == 5;
  }

  function Scientific(r: Rounded): seq<byte>
    requires 100000 <= r.digits < 1000000
  {
    SixDigits(r.digits);
    var d := Digits(r.digits, 10);
    d[..1] + (Fraction(d[1..]) + ExponentText(r.exp))
  }

  function Fixed(r: Rounded): seq<byte>
    requires 100000 <= r.digits < 1000000 && r.exp < 6
  {
    SixDigits(r.digits);
    var d := Digits(r.digits, 10);
    if r.exp >= 0 then d[..r.exp + 1] + Fraction(d[r.exp + 1..])
    else [ZERO] + Fraction(ZeroDigits(-r.exp - 1) + d)
  }

  function PositiveText(a: real): seq<byte>
    requires a > 0.0
  {
    var r := Round(a);
    if -4 <= r.exp < 6 then Fixed(r) else Scientific(r)
  }

  /** `%g` of a number other than zero. */
  function GeneralText(v: real): seq<byte>
    requires v != 0.0
  {
    if v < 0.0 then [MINUS] + PositiveText(-v) else PositiveText(v)
  }

  // ---- What the digits mean ------------------------------------------------------------------

  lemma {:induction false} ScaledDown(a: real)
    requires a >= 1.0
    ensures a == ScaleDown(a).unit * PowerOfTen(ScaleDown(a).exp)
    decreases a.Floor
  {
    if a >= 10.0 {
      ScaledDown(a / 10.0);
    }
  }

  lemma {:induction false} ScaledUp(a: real, inverse: real)
    requires 0.0 < a < 1.0 && a * inverse == 1.0
    ensures a == ScaleUp(a, inverse).unit * PowerOfTen(ScaleUp(a, inverse).exp)
    decreases inverse.Floor
  {
    InverseAboveOne(a, inverse);
    if a * 10.0 < 1.0 {
      InverseAboveOne(a * 10.0, inverse / 10.0);
      ScaledUp(a * 10.0, inverse / 10.0);
    }
  }

  lemma ScaleIs(a: real)
    requires a > 0.0
    ensures a == Scale(a).unit * PowerOfTen(Scale(a).exp)
  {
    if a >= 1.0 {
      ScaledDown(a);
    } else {
      assert a * (1.0 / a) == 1.0;
      ScaledUp(a, 1.0 / a);
    }
  }

  lemma Stretched(x: real, y: real, p: real, a: real, b: real)
    requires p > 0.0 && -0.5 <= y - x <= 0.5 && a == x * p && b == y * p
    ensures -0.5 * p <= b - a <= 0.5 * p
  {
    var d := y - x;
    assert b - a == d * p;
    AtMostHalf(d, p);
  }

  lemma AtMostHalf(d: real, p: real)
    requires p > 0.0 && -0.5 <= d <= 0.5
    ensures -0.5 * p <= d * p <= 0.5 * p
  {
    NotNegative(d + 0.5, p);
    NotNegative(0.5 - d, p);
  }

  lemma NotNegative(x: real, p: real)
    requires x >= 0.0 && p >= 0.0
    ensures x * p >= 0.0
  {
  }

  function ValueOf(r: Rounded): real {
    r.digits as real * (PowerOfTen(r.exp) / 100000.0)
  }

  /** The place of the sixth digit. */
  function LastPlace(a: real): real
    requires a > 0.0
  {
    PowerOfTen(Scale(a).exp) / 100000.0
  }

  lemma ScaledByPlaces(a: real)
    requires a > 0.0
    ensures LastPlace(a) > 0.0 && a == Scale(a).unit * 100000.0 * LastPlace(a)
  {
    hide Scale;
    ScaleIs(a);
    PowerPositive(Scale(a).exp);
    Rescaled(Scale(a).unit, PowerOfTen(Scale(a).exp));
  }

  /** A carry to seven digits moves one of them into the power. */
  lemma RoundedByPlaces(a: real)
    requires a > 0.0
    ensures ValueOf(Round(a)) == RoundHalfEven(Scale(a).unit * 100000.0) as real * LastPlace(a)
  {
    hide Scale, RoundHalfEven;
    NextPower(Scale(a).exp);
  }

  /** The six digits are the number, to half a unit of the last one. */
  lemma RoundIsNearest(a: real)
    requires a > 0.0
    ensures -0.5 * LastPlace(a) <= ValueOf(Round(a)) - a <= 0.5 * LastPlace(a)
  {
    hide Scale, Round, ValueOf, LastPlace, RoundHalfEven;
    var x, p := Scale(a).unit * 100000.0, LastPlace(a);
    var y := RoundHalfEven(x) as real;
    ScaledByPlaces(a);
    RoundedByPlaces(a);
    Stretched(x, y, p, a, ValueOf(Round(a)));
  }

  lemma Rescaled(x: real, p: real)
    ensures x * 100000.0 * (p / 100000.0) == x * p
  {
  }

  /** Numbers from 10^k on have at least the exponent k. */
  lemma {:induction false} ExponentAtLeast(a: real, k: nat)
    requires a >= PowerOfTen(k) && a >= 1.0
    ensures ScaleDown(a).exp >= k
    decreases k
  {
    if k > 0 {
      AtLeastOne(k - 1);
      ExponentAtLeast(a / 10.0, k - 1);
    }
  }

  lemma {:induction false} AtLeastOne(k: nat)
    ensures PowerOfTen(k) >= 1.0
  {
    if k > 0 {
      AtLeastOne(k - 1);
    }
  }

  /** From a million on the form is scientific: one digit, then a dot or the exponent. */
  lemma BigIsScientific(a: real)
    requires a >= 1000000.0
    ensures PositiveText(a) == Scientific(Round(a))
    ensures |PositiveText(a)| > 1
    ensures IsDigit(PositiveText(a)[0], 10) && !IsDigit(PositiveText(a)[1], 10)
  {
    hide Digits, DigitVal;
    assert PowerOfTen(6) == 1000000.0;
    ExponentAtLeast(a, 6);
    var r := Round(a);
    SixDigits(r.digits);
    DigitsReadBack(r.digits, 10);
    assert IsDigit(Digits(r.digits, 10)[0], 10);
    MarksAreNoDigits();
  }
}
