/** The texts of `%g` by their parts, and the number they stand for. */
module DecimalForm {
  import opened Wrappers
  import opened Bytes
  import opened Numerals
  import opened JsonText
  import opened JsonNumbers
  import opened DecimalText

  predicate SixPlaces(r: Rounded) {
    100000 <= r.digits < 1000000
  }

  function Kept(s: seq<byte>): Option<seq<byte>> {
    if StripZeros(s) == [] then None else Some(StripZeros(s))
  }

  /** The digits before and behind the dot, before trailing zeros are left out. */
  function Cut(r: Rounded): (p: (seq<byte>, seq<byte>))
    requires SixPlaces(r)
  {
    SixDigits(r.digits);
    var d := Digits(r.digits, 10);
    if 0 <= r.exp < 6 then (d[..r.exp + 1], d[r.exp + 1..])
    else if -4 <= r.exp < 0 then ([ZERO], ZeroDigits(-r.exp - 1) + d)
    else (d[..1], d[1..])
  }

  function TwoDigits(e: nat): seq<byte> {
    (if e < 10 then [ZERO] else []) + Digits(e, 10)
  }

  /** Fixed form from the exponent -4 to 5, otherwise scientific form. */
  function Form(r: Rounded): Lexeme
    requires SixPlaces(r)
  {
    var sign := if r.exp < 0 then '-' as byte else '+' as byte;
    var exponent := Exponent('e' as byte, [sign], TwoDigits(Magnitude(r.exp)));
    Lexeme(false, Cut(r).0, Kept(Cut(r).1), if -4 <= r.exp <= 5 then None else Some(exponent))
  }

  lemma FractionIsKept(l: Lexeme, s: seq<byte>)
    requires l.fraction == Kept(s)
    ensures FractionText(l) == Fraction(s)
  {
    hide StripZeros;
  }

  lemma WrittenShort(l: Lexeme)
    requires !l.negative
    ensures Written(l) == l.whole + (FractionText(l) + PowerText(l))
    ensures l.exponent.None? ==> Written(l) == l.whole + FractionText(l)
  {
    assert FractionText(l) + [] == FractionText(l);
  }

  lemma FixedHasForm(r: Rounded)
    requires SixPlaces(r) && -4 <= r.exp <= 5
    ensures Fixed(r) == Written(Form(r))
  {
    hide Digits, Written, FractionText, Fraction, Kept;
    FractionIsKept(Form(r), Cut(r).1);
    WrittenShort(Form(r));
  }

  lemma ScientificHasForm(r: Rounded)
    requires SixPlaces(r) && !(-4 <= r.exp <= 5)
    ensures Scientific(r) == Written(Form(r))
  {
    hide Digits, Written, FractionText, Fraction, Kept;
    FractionIsKept(Form(r), Cut(r).1);
    WrittenShort(Form(r));
    assert PowerText(Form(r)) == ExponentText(r.exp);
  }

  /** The text has these parts. */
  lemma TextHasForm(a: real)
    requires a > 0.0
    ensures PositiveText(a) == Written(Form(Round(a)))
  {
    hide Round, Fixed, Scientific, Written, Form;
    var r := Round(a);
    if -4 <= r.exp <= 5 {
      FixedHasForm(r);
    } else {
      ScientificHasForm(r);
    }
  }

  lemma {:induction false} StripIs(s: seq<byte>)
    requires AllDigits(s, 10)
    ensures var t := StripZeros(s);
            && |t| <= |s| && AllDigits(t, 10)
            && (t != [] ==> t[|t| - 1] != '0' as byte)
            && PlaceValue(s, 10) as real == PlaceValue(t, 10) as real * PowerOfTen(|s| - |t|)
  {
    hide DigitVal, PlaceValue, PowerOfTen;
    if s != [] && s[|s| - 1] == ZERO {
      var s', t := s[..|s| - 1], StripZeros(s);
      StripIs(s');
      LastDigit(s);
      ZeroIsNothing();
      NextPower(|s'| - |t|);
      Tenfold(PlaceValue(t, 10) as real, PowerOfTen(|s'| - |t|));
    } else {
      NoPlaces([]);
    }
  }

  lemma ZeroIsNothing()
    ensures DigitVal(ZERO) == 0 && PlaceValue([ZERO], 10) == 0
  {
  }

  lemma Tenfold(x: real, p: real)
    ensures x * p * 10.0 == x * (10.0 * p)
  {
  }

  // ---- The number the parts stand for ----------------------------------------------------------

  lemma {:induction false} ZeroDigitsAreNothing(n: nat)
    ensures AllDigits(ZeroDigits(n), 10) && PlaceValue(ZeroDigits(n), 10) == 0
  {
    ZeroIsNothing();
    if n > 0 {
      assert ZeroDigits(n)[..n - 1] == ZeroDigits(n - 1);
      ZeroDigitsAreNothing(n - 1);
    }
  }

  /** The power of ten that the exponent adds. */
  function Moved(r: Rounded): int {
    if -4 <= r.exp <= 5 then 0 else r.exp
  }

  lemma CutKeepsDigits(r: Rounded)
    requires SixPlaces(r)
    ensures var (w, g) := Cut(r);
            && AllDigits(w, 10) && AllDigits(g, 10) && |g| == 5 - (r.exp - Moved(r))
            && r.digits as real == PlaceValue(w, 10) as real * PowerOfTen(|g|) + PlaceValue(g, 10) as real
  {
    hide Digits, DigitVal, PlaceValue, PowerOfTen, ZeroDigits;
    SixDigits(r.digits);
    DigitsReadBack(r.digits, 10);
    var d := Digits(r.digits, 10);
    var (w, g) := Cut(r);
    if -4 <= r.exp < 0 {
      ZeroIsNothing();
      ZeroDigitsAreNothing(-r.exp - 1);
      PlacesAppend(ZeroDigits(-r.exp - 1), d);
    } else {
      assert w + g == d;
      assert AllDigits(w, 10) && AllDigits(g, 10);
      PlacesAppend(w, g);
    }
  }

  lemma ExponentMeans(r: Rounded)
    requires SixPlaces(r)
    ensures AllDigits(TwoDigits(Magnitude(r.exp)), 10)
    ensures PlaceValue(TwoDigits(Magnitude(r.exp)), 10) == Magnitude(r.exp)
  {
    hide DigitVal, Digits, PlaceValue;
    var e := Magnitude(r.exp);
    DigitsReadBack(e, 10);
    ZeroIsNothing();
    if e < 10 {
      assert IsDigit(ZERO, 10);
      PlacesAppend([ZERO], Digits(e, 10));
    } else {
      assert TwoDigits(e) == Digits(e, 10);
    }
  }

  lemma FormIsWellFormed(r: Rounded)
    requires SixPlaces(r)
    ensures WellFormed(Form(r)) && PowerOf(Form(r)) == Moved(r)
  {
    hide DigitVal, Digits, PlaceValue, Cut, TwoDigits, StripZeros;
    CutKeepsDigits(r);
    StripIs(Cut(r).1);
    ExponentMeans(r);
  }

  lemma StrippedMeans(g: seq<byte>)
    requires AllDigits(g, 10)
    ensures PowerOfTen(|g|) > 0.0 && PowerOfTen(|StripZeros(g)|) > 0.0 && AllDigits(StripZeros(g), 10)
    ensures PlaceValue(StripZeros(g), 10) as real / PowerOfTen(|StripZeros(g)|)
         == PlaceValue(g, 10) as real / PowerOfTen(|g|)
  {
    hide AllDigits, StripZeros, PlaceValue, PowerOfTen;
    var t := StripZeros(g);
    StripIs(g);
    PowerPositive(|g|);
    PowerPositive(|t|);
    PowersMultiply(|t|, |g| - |t|);
    Cancelled(PlaceValue(t, 10) as real, PowerOfTen(|t|), PowerOfTen(|g| - |t|));
  }

  /** What is left of the fraction means the same. */
  lemma KeptMeans(l: Lexeme, g: seq<byte>)
    requires WellFormed(l) && AllDigits(g, 10) && l.fraction == Kept(g)
    ensures PowerOfTen(|g|) > 0.0
    ensures FractionOf(l) == PlaceValue(g, 10) as real / PowerOfTen(|g|)
  {
    hide AllDigits, StripZeros, PlaceValue, PowerOfTen, WellFormed, FractionOf;
    StrippedMeans(g);
    FractionIs(l);
  }

  lemma Cancelled(x: real, p: real, q: real)
    requires p > 0.0 && p * q > 0.0
    ensures x * q / (p * q) == x / p
  {
    var y := x / p;
    assert x == y * p;
    assert x * q == y * (p * q);
  }

  lemma FormMeans(r: Rounded)
    requires SixPlaces(r)
    ensures WellFormed(Form(r)) && Meaning(Form(r)) == ValueOf(r)
  {
    hide DigitVal, StripZeros, PlaceValue, PowerOfTen, Cut, FractionOf, PowerOf;
    var (w, g) := Cut(r);
    FormIsWellFormed(r);
    CutKeepsDigits(r);
    KeptMeans(Form(r), g);
    PowerSplit(Moved(r), |g|);
    PowerSplit(r.exp, 5);
    OneHundredThousand();
    Spread(PlaceValue(w, 10) as real, PlaceValue(g, 10) as real, PowerOfTen(|g|), PowerOfTen(Moved(r)));
  }

  lemma OneHundredThousand()
    ensures PowerOfTen(5) == 100000.0
  {
  }

  /** The parts of the text of a number other than zero. */
  function SignedForm(v: real): Lexeme
    requires v != 0.0
  {
    if v < 0.0 then Form(Round(-v)).(negative := true) else Form(Round(v))
  }

  lemma SizeHasNoSign(l: Lexeme)
    requires WellFormed(l)
    ensures var m := l.(negative := true); WellFormed(m) && SizeOf(m) == SizeOf(l)
  {
    hide PlaceValue, PowerOfTen, AllDigits;
  }

  lemma PartsHaveNoSign(l: Lexeme)
    ensures Unsigned(l.(negative := true)) == Unsigned(l)
  {
  }

  lemma SignChanged(l: Lexeme)
    requires WellFormed(l) && !l.negative
    ensures WellFormed(l.(negative := true)) && Meaning(l.(negative := true)) == -Meaning(l)
    ensures Written(l.(negative := true)) == ['-' as byte] + Written(l)
  {
    hide SizeOf, WellFormed, Unsigned;
    SizeHasNoSign(l);
    PartsHaveNoSign(l);
    assert Written(l) == Unsigned(l);
  }

  lemma GeneralHasForm(v: real)
    requires v != 0.0
    ensures WellFormed(SignedForm(v)) && GeneralText(v) == Written(SignedForm(v))
    ensures Meaning(SignedForm(v)) == if v < 0.0 then -ValueOf(Round(-v)) else ValueOf(Round(v))
  {
    hide Round, ValueOf, Written, Meaning, WellFormed, PositiveText, Cut, TwoDigits, Kept;
    var a := if v < 0.0 then -v else v;
    TextHasForm(a);
    FormMeans(Round(a));
    SignChanged(Form(Round(a)));
  }

  /**
   Read as sign, digits, dot, digits and exponent, the text is exactly the six-digit number, so it is
   the number to half a unit of the sixth digit.
   */
  lemma GeneralTextMeans(v: real)
    requires v != 0.0
    ensures NumberValue(GeneralText(v)) == if v < 0.0 then -ValueOf(Round(-v)) else ValueOf(Round(v))
    ensures var half := LastPlace(if v < 0.0 then -v else v) / 2.0;
            -half <= NumberValue(GeneralText(v)) - v <= half
  {
    hide Round, ValueOf, LastPlace, SignedForm, NumberValue, GeneralText, Meaning, WellFormed;
    GeneralHasForm(v);
    WrittenRead(SignedForm(v));
    RoundIsNearest(if v < 0.0 then -v else v);
  }

  /**
   The form is fixed exactly for exponents from -4 to 5.  No fraction ends in a zero or is empty;
   the whole part is one zero or has no leading zero; in scientific form it is one digit, and the
   exponent has a sign and at least two digits.
   */
  lemma TextIsCanonical(a: real)
    requires a > 0.0
    ensures var l, e := Form(Round(a)), Round(a).exp;
            && PositiveText(a) == Written(l)
            && (l.exponent.None? <==> -4 <= e <= 5)
            && (l.fraction.Some? ==> l.fraction.value != [] && l.fraction.value[|l.fraction.value| - 1] != '0' as byte)
            && (l.whole == ['0' as byte] <==> -4 <= e < 0)
            && (l.whole != ['0' as byte] ==> l.whole != [] && l.whole[0] != '0' as byte)
  {
    hide Round, Written, PositiveText, StripZeros;
    TextHasForm(a);
    var r := Round(a);
    var d := Digits(r.digits, 10);
    SixDigits(r.digits);
    DigitsReadBack(r.digits, 10);
    CutKeepsDigits(r);
    StripIs(Cut(r).1);
  }

  lemma DigitCount(n: nat)
    ensures if n < 10 then |Digits(n, 10)| == 1 else |Digits(n, 10)| >= 2
  {
    hide Quot, Rem;
    QuotRem(n, 10);
  }

  lemma ScientificIsCanonical(a: real)
    requires a > 0.0 && !(-4 <= Round(a).exp <= 5)
    ensures var l, e := Form(Round(a)), Round(a).exp;
            && l.exponent.Some? && |l.whole| == 1
            && var x := l.exponent.value;
            && x.letter == 'e' as byte && x.sign == [if e < 0 then '-' as byte else '+' as byte]
            && AllDigits(x.digits, 10) && PlaceValue(x.digits, 10) == Magnitude(e)
            && |x.digits| >= 2 && (|x.digits| > 2 ==> x.digits[0] != '0' as byte)
  {
    hide Round, Written, PositiveText, StripZeros, Digits;
    var r := Round(a);
    DigitCount(Magnitude(r.exp));
    DigitsReadBack(Magnitude(r.exp), 10);
    SixDigits(r.digits);
    DigitsReadBack(r.digits, 10);
    ExponentMeans(r);
  }
}
