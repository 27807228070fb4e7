/** What the digits, the dot and the exponent of a number in a JSON text stand for. */
module JsonNumbers {
  import opened Wrappers
  import opened Bytes
  import opened Numerals
  import opened JsonText

  /** A letter e, a sign or none, and digits. */
  datatype Exponent = Exponent(letter: byte, sign: seq<byte>, digits: seq<byte>)

  /** A number by its parts; a fraction is the digits behind a dot. */
  datatype Lexeme =
    Lexeme(negative: bool, whole: seq<byte>, fraction: Option<seq<byte>>, exponent: Option<Exponent>)

  predicate WellFormed(l: Lexeme) {
    && AllDigits(l.whole, 10)
    && (l.fraction.Some? ==> AllDigits(l.fraction.value, 10))
    && (l.exponent.Some? ==>
      && var x := l.exponent.value;
      && x.letter as char in "eE"
      && (x.sign == [] || x.sign == ['+' as byte] || x.sign == ['-' as byte])
      && AllDigits(x.digits, 10))
  }

  function FractionText(l: Lexeme): seq<byte> {
    if l.fraction.Some? then ['.' as byte] + l.fraction.value else []
  }

  function PowerText(l: Lexeme): seq<byte> {
    if l.exponent.Some? then [l.exponent.value.letter] + (l.exponent.value.sign + l.exponent.value.digits) else []
  }

  /** A number without its sign. */
  function Unsigned(l: Lexeme): seq<byte> {
    l.whole + (FractionText(l) + PowerText(l))
  }

  function Written(l: Lexeme): seq<byte> {
    (if l.negative then ['-' as byte] else []) + Unsigned(l)
  }

  function PowerOf(l: Lexeme): int
    requires WellFormed(l)
  {
    if l.exponent.None? then 0
    else if l.exponent.value.sign == ['-' as byte] then -(PlaceValue(l.exponent.value.digits, 10) as int)
    else PlaceValue(l.exponent.value.digits, 10)
  }

  function FractionOf(l: Lexeme): real
    requires WellFormed(l)
  {
    if l.fraction.None? then 0.0
    else
      PowerPositive(|l.fraction.value|);
      PlaceValue(l.fraction.value, 10) as real / PowerOfTen(|l.fraction.value|)
  }

  /** The whole part and the fraction, times a power of ten. */
  function SizeOf(l: Lexeme): real
    requires WellFormed(l)
  {
    (PlaceValue(l.whole, 10) as real + FractionOf(l)) * PowerOfTen(PowerOf(l))
  }

  function Meaning(l: Lexeme): real
    requires WellFormed(l)
  {
    if l.negative then -SizeOf(l) else SizeOf(l)
  }

  // ---- Powers and places -------------------------------------------------------------------

  lemma {:induction false} PowersMultiply(a: int, n: nat)
    ensures PowerOfTen(a + n) == PowerOfTen(a) * PowerOfTen(n)
  {
    if n > 0 {
      PowersMultiply(a, n - 1);
      NextPower(a + n - 1);
      NextPower(n - 1);
    }
  }

  lemma PowerSplit(e: int, n: nat)
    ensures PowerOfTen(n) > 0.0
    ensures PowerOfTen(e - n) == PowerOfTen(e) / PowerOfTen(n)
  {
    PowerPositive(n);
    PowersMultiply(e - n, n);
    Quotient(PowerOfTen(e - n), PowerOfTen(n), PowerOfTen(e));
  }

  lemma Quotient(x: real, y: real, z: real)
    requires y != 0.0 && z == x * y
    ensures x == z / y
  {
  }

  lemma {:induction false} PlacesAppend(s: seq<byte>, t: seq<byte>)
    requires AllDigits(s, 10) && AllDigits(t, 10)
    ensures AllDigits(s + t, 10)
    ensures PlaceValue(s + t, 10) as real == PlaceValue(s, 10) as real * PowerOfTen(|t|) + PlaceValue(t, 10) as real
  {
    hide DigitVal, PlaceValue, PowerOfTen;
    if t == [] {
      assert s + t == s;
      NoPlaces(t);
    } else {
      var n := |t| - 1;
      assert (s + t)[..|s + t| - 1] == s + t[..n];
      PlacesAppend(s, t[..n]);
      NextPower(n);
      LastDigit(s + t);
      LastDigit(t);
      Shifted(PlaceValue(s, 10) as real, PowerOfTen(n), PlaceValue(t[..n], 10) as real, DigitVal(t[n]) as real);
    }
  }

  lemma NoPlaces(s: seq<byte>)
    requires s == []
    ensures PlaceValue(s, 10) == 0 && PowerOfTen(|s|) == 1.0
  {
  }

  lemma LastDigit(s: seq<byte>)
    requires s != [] && AllDigits(s, 10)
    ensures AllDigits(s[..|s| - 1], 10)
    ensures PlaceValue(s, 10) as real
         == PlaceValue(s[..|s| - 1], 10) as real * 10.0 + DigitVal(s[|s| - 1]) as real
  {
    hide DigitVal;
  }

  lemma Shifted(x: real, p: real, y: real, d: real)
    ensures (x * p + y) * 10.0 + d == x * (10.0 * p) + (y * 10.0 + d)
  {
  }

  // ---- The value of a number -----------------------------------------------------------------

  lemma PowerRead(l: Lexeme, text: seq<byte>, p: nat)
    requires WellFormed(l) && At(text, p, PowerText(l)) && |text| == p + |PowerText(l)|
    ensures ExponentValue(text, p) == PowerOf(l)
  {
    hide DigitVal, PlaceValue, At, DigitsEnd;
    AtHead(text, p, PowerText(l));
    if l.exponent.Some? {
      MarksAreNoDigits();
      var x := l.exponent.value;
      AtSplit(text, p, [x.letter], x.sign + x.digits);
      AtSplit(text, p + 1, x.sign, x.digits);
      AtHead(text, p + 1, x.sign);
      AtHead(text, p + 1 + |x.sign|, x.digits);
      RunFound(text, p + 1 + |x.sign|, x.digits, 10);
    }
  }

  function FractionDigits(l: Lexeme): seq<byte> {
    if l.fraction.Some? then l.fraction.value else []
  }

  /** What stands behind the whole part is a dot exactly when there is a fraction. */
  lemma BehindParts(l: Lexeme, text: seq<byte>, p: nat)
    requires WellFormed(l) && At(text, p, FractionText(l) + PowerText(l))
    requires |text| == p + |FractionText(l) + PowerText(l)|
    ensures !IsDigit(ByteAt(text, p), 10) && !IsDigit(ByteAt(text, p + |FractionText(l)|), 10)
    ensures l.fraction.Some? <==> p < |text| && text[p] == DOT
  {
    hide DigitVal, At;
    MarksAreNoDigits();
    AtSplit(text, p, FractionText(l), PowerText(l));
    AtHead(text, p, FractionText(l));
    AtHead(text, p + |FractionText(l)|, PowerText(l));
  }

  lemma FractionRunFound(l: Lexeme, text: seq<byte>, p: nat)
    requires WellFormed(l) && At(text, p, FractionText(l)) && !IsDigit(ByteAt(text, p + |FractionText(l)|), 10)
    ensures p + |FractionText(l)| <= |text|
    ensures l.fraction.Some? ==>
      && DigitsEnd(text, p + 1, 10) == p + |FractionText(l)|
      && text[p + 1..p + |FractionText(l)|] == l.fraction.value
  {
    hide DigitVal, DigitsEnd, At;
    AtBounds(text, p, FractionText(l));
    if l.fraction.Some? {
      AtSplit(text, p, ['.' as byte], l.fraction.value);
      RunFound(text, p + 1, l.fraction.value, 10);
    }
  }

  /** The runs of digits that are found are the parts. */
  lemma PartsFound(l: Lexeme)
    requires WellFormed(l)
    ensures var body, w, f := Unsigned(l), |l.whole|, |FractionText(l)|;
            && w + f <= |body| && At(body, w + f, PowerText(l))
            && DigitsEnd(body, 0, 10) == w && body[0..w] == l.whole
            && (l.fraction.Some? <==> w < |body| && body[w] == DOT)
            && (l.fraction.Some? ==>
              DigitsEnd(body, w + 1, 10) == w + f && body[w + 1..w + f] == l.fraction.value)
  {
    hide IsDigit, At, DigitsEnd, FractionText, PowerText;
    var body, w := Unsigned(l), |l.whole|;
    AtAll(body);
    AtSplit(body, 0, l.whole, FractionText(l) + PowerText(l));
    AtSplit(body, w, FractionText(l), PowerText(l));
    BehindParts(l, body, w);
    RunFound(body, 0, l.whole, 10);
    FractionRunFound(l, body, w);
  }

  lemma FractionWidth(l: Lexeme)
    ensures |FractionText(l)| == if l.fraction.Some? then 1 + |l.fraction.value| else 0
  {
  }

  lemma NoDigits(s: seq<byte>)
    requires AllDigits(s, 10)
    ensures s == [] ==> PlaceValue(s, 10) == 0
  {
  }

  /** What is computed once the runs of digits are found. */
  lemma ValueOfRuns(body: seq<byte>, w: nat, end: nat)
    requires w == DigitsEnd(body, 0, 10)
    requires end == if w < |body| && body[w] == DOT then DigitsEnd(body, w + 1, 10) else w
    ensures var digits := body[0..w] + if end > w then body[w + 1..end] else [];
            && AllDigits(digits, 10)
            && DecimalValue(body)
               == if digits == [] then 0.0
                  else TimesPower(PlaceValue(digits, 10),
                                  ExponentValue(body, end) - |if end > w then body[w + 1..end] else []|)
  {
    hide IsDigit, PlaceValue, ExponentValue, DigitsEnd, TimesPower;
  }

  lemma NothingTimes(e: int)
    ensures TimesPower(0, e) == 0.0
  {
  }

  lemma UnsignedWidth(l: Lexeme)
    ensures |Unsigned(l)| == |l.whole| + |FractionText(l)| + |PowerText(l)|
  {
    hide FractionText, PowerText;
  }

  lemma UnsignedRead(l: Lexeme)
    requires WellFormed(l)
    ensures DecimalValue(Unsigned(l)) == SizeOf(l)
  {
    hide IsDigit, PlaceValue, ExponentValue, PowerOf, DigitsEnd, FractionText, PowerText, SizeOf, DecimalValue;
    hide TimesPower, Unsigned;
    var digits := l.whole + FractionDigits(l);
    UnsignedWidth(l);
    PartsFound(l);
    PowerRead(l, Unsigned(l), |l.whole| + |FractionText(l)|);
    SizeByDigits(l);
    FractionWidth(l);
    ValueOfRuns(Unsigned(l), |l.whole|, |l.whole| + |FractionText(l)|);
    if digits == [] {
      NoDigits(digits);
      NothingTimes(PowerOf(l) - |FractionDigits(l)|);
    }
  }

  /** Whole part and fraction as one run of digits, the power less by the digits of the fraction. */
  lemma SizeByDigits(l: Lexeme)
    requires WellFormed(l)
    ensures var f := FractionDigits(l);
            && AllDigits(l.whole + f, 10)
            && SizeOf(l) == TimesPower(PlaceValue(l.whole + f, 10), PowerOf(l) - |f|)
  {
    hide DigitVal, PowerOf, PlaceValue, PowerOfTen;
    var f := FractionDigits(l);
    PlacesAppend(l.whole, f);
    PowerSplit(PowerOf(l), |f|);
    FractionIs(l);
    Spread(PlaceValue(l.whole, 10) as real, PlaceValue(f, 10) as real, PowerOfTen(|f|), PowerOfTen(PowerOf(l)));
  }

  lemma FractionIs(l: Lexeme)
    requires WellFormed(l)
    ensures var f := FractionDigits(l);
            && PowerOfTen(|f|) > 0.0
            && FractionOf(l) == PlaceValue(f, 10) as real / PowerOfTen(|f|)
  {
    PowerPositive(|FractionDigits(l)|);
  }

  lemma Spread(w: real, f: real, p: real, q: real)
    requires p != 0.0
    ensures (w * p + f) * (q / p) == (w + f / p) * q
  {
    assert (w * p + f) * (q / p) == (w * p + f) / p * q;
    assert (w * p + f) / p == w + f / p;
  }

  /** The number a text stands for is that of its parts. */
  lemma WrittenRead(l: Lexeme)
    requires WellFormed(l)
    ensures NumberValue(Written(l)) == Meaning(l)
  {
    hide DecimalValue, SizeOf, DigitVal;
    UnsignedRead(l);
    if l.negative {
      assert Written(l)[1..] == Unsigned(l);
    } else {
      assert Written(l) == Unsigned(l);
      MarksAreNoDigits();
      assert l.whole != [] ==> IsDigit(l.whole[0], 10) && Unsigned(l)[0] == l.whole[0];
      assert l.whole == [] ==> Unsigned(l) == FractionText(l) + PowerText(l);
    }
  }

  // ---- Where a number ends ---------------------------------------------------------------------

  /** Behind a leading zero no digit belongs to the whole part. */
  predicate NoLeadingZero(l: Lexeme) {
    l.whole != [] && l.whole[0] == '0' as byte ==> |l.whole| == 1
  }

  /** The byte `c` cannot be one more of the number. */
  predicate EndsBefore(l: Lexeme, c: byte) {
    if l.exponent.Some? then
      && !('0' as byte <= c <= '9' as byte)
      && (l.exponent.value.sign + l.exponent.value.digits == [] ==> c as char !in "+-")
    else if l.fraction.Some? then
      !('0' as byte <= c <= '9' as byte) && c as char !in "eE"
    else
      (l.whole != ['0' as byte] ==> !('0' as byte <= c <= '9' as byte)) && c as char !in ".eE"
  }

  lemma DecimalIs(c: byte)
    ensures IsDecimal(c) <==> '0' as byte <= c <= '9' as byte
    ensures IsDecimal(c) <==> IsDigit(c, 10)
  {
  }

  lemma {:induction false} RunSkipped(src: seq<byte>, p: nat, run: seq<byte>)
    requires At(src, p, run) && AllDigits(run, 10) && !IsDecimal(ByteAt(src, p + |run|))
    ensures SkipDigits(src, p) == p + |run|
    decreases |run|
  {
    hide DigitVal, IsDecimal;
    if run != [] {
      DecimalIs(run[0]);
      AtFirst(src, p, run);
      assert run == [run[0]] + run[1..];
      AtSplit(src, p, [run[0]], run[1..]);
      RunSkipped(src, p + 1, run[1..]);
    }
  }

  lemma PowerSkipped(src: seq<byte>, p: nat, l: Lexeme)
    requires WellFormed(l) && At(src, p, PowerText(l)) && EndsBefore(l, ByteAt(src, p + |PowerText(l)|))
    ensures ExponentEnd(src, p) == p + |PowerText(l)|
  {
    hide DigitVal, SkipDigits, At;
    AtFirst(src, p, PowerText(l));
    AtBounds(src, p, PowerText(l));
    if l.exponent.Some? {
      var x := l.exponent.value;
      AtSplit(src, p, [x.letter], x.sign + x.digits);
      AtSplit(src, p + 1, x.sign, x.digits);
      RunSkipped(src, p + 1 + |x.sign|, x.digits);
      AtHead(src, p + 1, x.sign);
      AtHead(src, p + 1 + |x.sign|, x.digits);
      MarksAreNoDigits();
    }
  }

  /** What stands behind the whole part, and behind the fraction, when all ends where it should. */
  lemma BehindWhole(src: seq<byte>, p: nat, l: Lexeme)
    requires WellFormed(l) && At(src, p, FractionText(l) + PowerText(l))
    requires EndsBefore(l, ByteAt(src, p + |FractionText(l) + PowerText(l)|))
    ensures l.fraction.Some? <==> ByteAt(src, p) == DOT
    ensures l.whole != ['0' as byte] ==> !IsDecimal(ByteAt(src, p))
    ensures l.whole == [] ==> ByteAt(src, p) != 48
    ensures l.fraction.Some? ==> !IsDecimal(ByteAt(src, p + |FractionText(l)|))
  {
    hide DigitVal, At, AllDigits;
    AtSplit(src, p, FractionText(l), PowerText(l));
    AtHead(src, p, FractionText(l));
    AtHead(src, p + |FractionText(l)|, PowerText(l));
  }

  lemma FractionSkipped(src: seq<byte>, p: nat, l: Lexeme)
    requires WellFormed(l) && At(src, p, FractionText(l) + PowerText(l))
    requires EndsBefore(l, ByteAt(src, p + |FractionText(l) + PowerText(l)|))
    ensures FractionEnd(src, p) == p + |FractionText(l)|
  {
    hide DigitVal, SkipDigits, At, AllDigits, EndsBefore, PowerText;
    BehindWhole(src, p, l);
    AtBounds(src, p, FractionText(l) + PowerText(l));
    AtSplit(src, p, FractionText(l), PowerText(l));
    if l.fraction.Some? {
      AtSplit(src, p, ['.' as byte], l.fraction.value);
      RunSkipped(src, p + 1, l.fraction.value);
    }
  }

  lemma WholeSkipped(src: seq<byte>, p: nat, l: Lexeme)
    requires WellFormed(l) && NoLeadingZero(l) && At(src, p, Unsigned(l))
    requires EndsBefore(l, ByteAt(src, p + |Unsigned(l)|))
    ensures (if ByteAt(src, p) == 48 then p + 1 else SkipDigits(src, p)) == p + |l.whole|
  {
    hide DigitVal, SkipDigits, At, FractionText, PowerText;
    AtSplit(src, p, l.whole, FractionText(l) + PowerText(l));
    AtHead(src, p, l.whole);
    BehindWhole(src, p + |l.whole|, l);
    if l.whole != ['0' as byte] {
      RunSkipped(src, p, l.whole);
    }
  }

  /** The byte a number begins with. */
  lemma NumberBegins(src: seq<byte>, p: nat, l: Lexeme)
    requires WellFormed(l) && At(src, p, Written(l)) && (l.negative || l.whole != [])
    ensures p < |src| && (if l.negative then src[p] == MINUS else IsDecimal(src[p]))
  {
    hide DigitVal, At;
    AtHead(src, p, Written(l));
    AtBounds(src, p, Written(l));
    if !l.negative {
      assert IsDigit(l.whole[0], 10);
      DecimalIs(l.whole[0]);
      assert Written(l)[0] == l.whole[0];
    }
  }

  function Start(p: nat, l: Lexeme): nat {
    if l.negative then p + 1 else p
  }

  lemma SignSkipped(src: seq<byte>, p: nat, l: Lexeme)
    requires WellFormed(l) && NoLeadingZero(l) && At(src, p, Written(l)) && (l.negative || l.whole != [])
    requires EndsBefore(l, ByteAt(src, p + |Written(l)|))
    ensures |Written(l)| == Start(p, l) - p + |Unsigned(l)| && At(src, Start(p, l), Unsigned(l))
    ensures WholeEnd(src, p) == Start(p, l) + |l.whole|
  {
    hide DigitVal, SkipDigits, At, Unsigned, EndsBefore;
    AtSplit(src, p, if l.negative then ['-' as byte] else [], Unsigned(l));
    AtBounds(src, Start(p, l), Unsigned(l));
    NumberBegins(src, p, l);
    WholeSkipped(src, Start(p, l), l);
  }

  /**
   A number anywhere in a text, with a whole part or a minus sign and not followed by one more byte
   of it, is read up to its end.
   */
  lemma NumberEnds(src: seq<byte>, p: nat, l: Lexeme)
    requires WellFormed(l) && NoLeadingZero(l) && At(src, p, Written(l)) && (l.negative || l.whole != [])
    requires EndsBefore(l, ByteAt(src, p + |Written(l)|))
    ensures NumberEnd(src, p) == p + |Written(l)|
  {
    hide DigitVal, At, FractionText, PowerText, EndsBefore, ExponentEnd, FractionEnd, WholeEnd, Written;
    var start := Start(p, l);
    SignSkipped(src, p, l);
    var q := start + |l.whole|;
    AtSplit(src, start, l.whole, FractionText(l) + PowerText(l));
    FractionSkipped(src, q, l);
    AtSplit(src, q, FractionText(l), PowerText(l));
    PowerSkipped(src, q + |FractionText(l)|, l);
  }

  /**
   JSON.parse reads a number of at most 127 bytes as what its parts mean, and goes on behind it,
   whatever stands around it.
   */
  lemma NumberRead(src: seq<byte>, p: nat, l: Lexeme)
    requires WellFormed(l) && NoLeadingZero(l) && At(src, p, Written(l)) && (l.negative || l.whole != [])
    requires EndsBefore(l, ByteAt(src, p + |Written(l)|))
    requires |Written(l)| <= 127
    ensures p < |src| && (src[p] == MINUS || IsDecimal(src[p]))
    ensures ParseNumber(src, p) == Parsed(JNumber(Meaning(l)), p + |Written(l)|)
  {
    hide NumberEnd, NumberValue, Meaning, EndsBefore;
    NumberBegins(src, p, l);
    NumberEnds(src, p, l);
    WrittenRead(l);
  }

  /** Of a longer number 127 bytes are read, and all of it is skipped. */
  lemma LongNumberCut(src: seq<byte>, p: nat, l: Lexeme, kept: Lexeme)
    requires WellFormed(l) && NoLeadingZero(l) && At(src, p, Written(l)) && (l.negative || l.whole != [])
    requires EndsBefore(l, ByteAt(src, p + |Written(l)|))
    requires |Written(l)| > 127 && WellFormed(kept) && Written(kept) == Written(l)[..127]
    ensures p < |src| && (src[p] == MINUS || IsDecimal(src[p]))
    ensures ParseNumber(src, p) == Parsed(JNumber(Meaning(kept)), p + |Written(l)|)
  {
    hide NumberEnd, NumberValue, Meaning, EndsBefore;
    NumberBegins(src, p, l);
    NumberEnds(src, p, l);
    WrittenRead(kept);
    assert src[p..p + 127] == Written(kept);
  }

  // ---- Every number has parts --------------------------------------------------------------------

  lemma {:induction false} RunOfDigits(src: seq<byte>, p: nat)
    requires p <= |src|
    ensures AllDigits(src[p..SkipDigits(src, p)], 10)
    ensures !IsDecimal(ByteAt(src, SkipDigits(src, p)))
    decreases |src| - p
  {
    hide DigitVal, IsDecimal;
    DecimalIs(ByteAt(src, p));
    DecimalIs(0);
    if p < |src| && IsDecimal(src[p]) {
      RunOfDigits(src, p + 1);
      assert src[p..SkipDigits(src, p)] == [src[p]] + src[p + 1..SkipDigits(src, p)];
    }
  }

  function ExponentAt(src: seq<byte>, p: nat): Option<Exponent>
    requires p <= |src|
  {
    var end := ExponentEnd(src, p);
    if end == p then None
    else if p + 1 < end && src[p + 1] as char in "+-" then Some(Exponent(src[p], [src[p + 1]], src[p + 2..end]))
    else Some(Exponent(src[p], [], src[p + 1..end]))
  }

  function LexemeAt(src: seq<byte>, p: nat): Lexeme
    requires p < |src| && (src[p] == MINUS || IsDecimal(src[p]))
  {
    var start := if src[p] == MINUS then p + 1 else p;
    var whole := WholeEnd(src, p);
    var fraction := FractionEnd(src, whole);
    Lexeme(src[p] == MINUS, src[start..whole],
           if fraction == whole then None else Some(src[whole + 1..fraction]), ExponentAt(src, fraction))
  }

  lemma PowerFound(src: seq<byte>, p: nat, l: Lexeme)
    requires p <= |src| && l.exponent == ExponentAt(src, p)
    ensures l.exponent.Some? ==> WellFormed(Lexeme(false, [], None, l.exponent))
    ensures src[p..ExponentEnd(src, p)] == PowerText(l)
    ensures l.exponent.Some? ==> EndsBefore(l, ByteAt(src, ExponentEnd(src, p)))
    ensures l.exponent.None? ==> ByteAt(src, p) as char !in "eE"
  {
    hide DigitVal, SkipDigits;
    var end := ExponentEnd(src, p);
    DecimalIs(ByteAt(src, end));
    if end > p {
      var signed := p + 1 < |src| && (src[p + 1] == PLUS || src[p + 1] == MINUS);
      RunOfDigits(src, if signed then p + 2 else p + 1);
      assert signed ==> src[p..end] == [src[p]] + ([src[p + 1]] + src[p + 2..end]);
    }
  }

  lemma FractionFound(src: seq<byte>, p: nat, l: Lexeme)
    requires p <= |src|
    requires l.fraction == if FractionEnd(src, p) == p then None else Some(src[p + 1..FractionEnd(src, p)])
    ensures l.fraction.Some? ==> AllDigits(l.fraction.value, 10)
    ensures src[p..FractionEnd(src, p)] == FractionText(l)
    ensures l.fraction.Some? ==> !IsDecimal(ByteAt(src, FractionEnd(src, p)))
    ensures l.fraction.None? ==> ByteAt(src, p) != DOT
  {
    hide DigitVal, SkipDigits;
    if p < |src| {
      RunOfDigits(src, p + 1);
    }
  }

  lemma WholeFound(src: seq<byte>, p: nat)
    requires p < |src| && (src[p] == MINUS || IsDecimal(src[p]))
    ensures var start := if src[p] == MINUS then p + 1 else p;
            var whole := src[start..WholeEnd(src, p)];
            && AllDigits(whole, 10)
            && (src[p] == MINUS || whole != [])
            && (whole != [] && whole[0] == 48 ==> |whole| == 1)
            && (whole != [48] ==> !IsDecimal(ByteAt(src, WholeEnd(src, p))))
  {
    hide DigitVal, SkipDigits;
    var start := if src[p] == MINUS then p + 1 else p;
    RunOfDigits(src, start);
    DecimalIs(48);
  }

  lemma PartsAreWellFormed(src: seq<byte>, p: nat)
    requires p < |src| && (src[p] == MINUS || IsDecimal(src[p]))
    ensures var l := LexemeAt(src, p);
            && WellFormed(l) && NoLeadingZero(l) && (l.negative || l.whole != [])
            && EndsBefore(l, ByteAt(src, NumberEnd(src, p)))
  {
    hide DigitVal, SkipDigits, WholeEnd, FractionEnd, ExponentEnd, ExponentAt, AllDigits, IsDecimal;
    var l := LexemeAt(src, p);
    var whole := WholeEnd(src, p);
    var fraction := FractionEnd(src, whole);
    WholeFound(src, p);
    FractionFound(src, whole, l);
    PowerFound(src, fraction, l);
    DecimalIs(ByteAt(src, NumberEnd(src, p)));
  }

  lemma ThreeParts(src: seq<byte>, a: nat, b: nat, c: nat, d: nat)
    requires a <= b <= c <= d <= |src|
    ensures src[a..d] == src[a..b] + (src[b..c] + src[c..d])
  {
  }

  lemma SignInFront(src: seq<byte>, p: nat, start: nat, end: nat)
    requires p < |src| && start == (if src[p] == MINUS then p + 1 else p) && start <= end <= |src| && p < end
    ensures src[p..end] == (if src[p] == MINUS then ['-' as byte] else []) + src[start..end]
  {
  }

  lemma PartsAreTheText(src: seq<byte>, p: nat)
    requires p < |src| && (src[p] == MINUS || IsDecimal(src[p]))
    ensures src[p..NumberEnd(src, p)] == Written(LexemeAt(src, p))
  {
    hide DigitVal, SkipDigits, WholeEnd, FractionEnd, ExponentEnd, ExponentAt, AllDigits, FractionText, PowerText;
    var l := LexemeAt(src, p);
    var start := if src[p] == MINUS then p + 1 else p;
    var whole := WholeEnd(src, p);
    var fraction := FractionEnd(src, whole);
    var end := NumberEnd(src, p);
    WholeFound(src, p);
    FractionFound(src, whole, l);
    PowerFound(src, fraction, l);
    ThreeParts(src, start, whole, fraction, end);
    SignInFront(src, p, start, end);
  }

  /** Wherever the parser takes a number, it has such parts, so the laws above cover all texts. */
  lemma EveryNumberHasParts(src: seq<byte>, p: nat)
    requires p < |src| && (src[p] == MINUS || IsDecimal(src[p]))
    ensures var l := LexemeAt(src, p);
            && WellFormed(l) && NoLeadingZero(l) && (l.negative || l.whole != [])
            && At(src, p, Written(l)) && EndsBefore(l, ByteAt(src, p + |Written(l)|))
  {
    hide WellFormed, NoLeadingZero, EndsBefore, LexemeAt, NumberEnd, Written;
    PartsAreWellFormed(src, p);
    PartsAreTheText(src, p);
  }
}
