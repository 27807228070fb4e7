/** What parseInt reads from a text, by the parts of the text. */
module IntegerParts {
  import opened Wrappers
  import opened Bytes
  import opened Numerals
  import opened RadixText

  /** White space, a sign, a prefix, digits, and what follows them. */
  datatype Parts = Parts(space: seq<byte>, sign: seq<byte>, prefix: seq<byte>, digits: seq<byte>, rest: seq<byte>)

  function TextOf(x: Parts): seq<byte> {
    x.space + (x.sign + (x.prefix + (x.digits + x.rest)))
  }

  /** The radix that a text is read in. */
  function BaseOf(x: Parts, radix: int): int {
    if x.prefix != [] then 16 else if radix == 0 then 10 else radix
  }

  predicate IsPrefix(s: seq<byte>) {
    |s| == 2 && s[0] as char == '0' && s[1] as char in "xX"
  }

  predicate SpaceByte(c: byte) {
    c as char in " \t\n\U{0b}\U{0c}\r"
  }

  /** White space is all there is, and what follows it is neither more of it nor a sign left out. */
  predicate HeadIsWhole(x: Parts) {
    var tail := x.digits + x.rest;
    && (forall i :: 0 <= i < |x.space| ==> SpaceByte(x.space[i]))
    && (x.sign == [] || x.sign == ['+' as byte] || x.sign == ['-' as byte])
    && (x.sign == [] && x.prefix == [] && tail != [] ==> !SpaceByte(tail[0]) && tail[0] as char !in "+-")
  }

  /** A prefix is looked for when the radix is 16 or not given. */
  predicate PrefixIsWhole(x: Parts, radix: int) {
    var tail := x.digits + x.rest;
    && (if radix == 0 || radix == 16 then x.prefix == [] || IsPrefix(x.prefix) else x.prefix == [])
    && (x.prefix == [] && (radix == 0 || radix == 16) && |tail| >= 2 ==> !IsPrefix(tail[..2]))
  }

  predicate DigitsAreWhole(x: Parts, base: nat) {
    AllDigits(x.digits, base) && (x.rest != [] ==> !IsDigit(x.rest[0], base))
  }

  /** The parts of a text that is read with a radix, 0 when none is given; they are as long as they can be. */
  predicate AreParts(x: Parts, radix: int) {
    (radix == 0 || 2 <= radix <= 36) && HeadIsWhole(x) && PrefixIsWhole(x, radix) && DigitsAreWhole(x, BaseOf(x, radix))
  }

  lemma SpaceIs(c: byte)
    ensures IsCSpace(c) <==> SpaceByte(c)
  {
  }

  lemma {:induction false} SpaceSkipped(text: seq<byte>, p: nat, space: seq<byte>)
    requires At(text, p, space) && (forall i :: 0 <= i < |space| ==> SpaceByte(space[i]))
    requires p + |space| < |text| ==> !SpaceByte(text[p + |space|])
    ensures SkipCSpace(text, p) == p + |space|
    decreases |space|
  {
    hide IsCSpace, SpaceByte;
    if space != [] {
      SpaceIs(space[0]);
      AtFirst(text, p, space);
      assert space == [space[0]] + space[1..];
      AtSplit(text, p, [space[0]], space[1..]);
      SpaceSkipped(text, p + 1, space[1..]);
    } else if p < |text| {
      SpaceIs(text[p]);
    }
  }

  lemma NoDigitBehind(text: seq<byte>, p: nat, rest: seq<byte>, base: nat)
    requires At(text, p, rest) && |text| == p + |rest| && (rest != [] ==> !IsDigit(rest[0], base))
    ensures !IsDigit(ByteAt(text, p), base)
  {
    AtHead(text, p, rest);
  }

  lemma DigitsRead(text: seq<byte>, p: nat, digits: seq<byte>, rest: seq<byte>, base: nat)
    requires At(text, p, digits + rest) && |text| == p + |digits + rest|
    requires AllDigits(digits, base) && (rest != [] ==> !IsDigit(rest[0], base))
    ensures DigitsFrom(text, p, base) == if digits == [] then None else Some(PlaceValue(digits, base))
  {
    hide DigitVal, PlaceValue, At;
    AtSplit(text, p, digits, rest);
    AtBounds(text, p, digits + rest);
    NoDigitBehind(text, p + |digits|, rest, base);
    RunFound(text, p, digits, base);
  }

  /** Where the sign, the prefix and the digits stand. */
  lemma PlacesOfParts(x: Parts)
    ensures var text, p := TextOf(x), |x.space|;
            && At(text, 0, x.space)
            && At(text, p, x.sign) && At(text, p + |x.sign|, x.prefix + (x.digits + x.rest))
            && |text| == p + |x.sign| + |x.prefix + (x.digits + x.rest)|
            && At(text, p + |x.sign|, x.prefix)
            && At(text, p + |x.sign| + |x.prefix|, x.digits + x.rest)
  {
    hide At;
    var text, p := TextOf(x), |x.space|;
    AtAll(text);
    AtSplit(text, 0, x.space, x.sign + (x.prefix + (x.digits + x.rest)));
    AtSplit(text, p, x.sign, x.prefix + (x.digits + x.rest));
    AtSplit(text, p + |x.sign|, x.prefix, x.digits + x.rest);
  }

  lemma MarksAreNoSpace()
    ensures !SpaceByte('+' as byte) && !SpaceByte('-' as byte) && !SpaceByte('0' as byte)
  {
  }

  /** White space ends where the sign, the prefix or the digits begin, and only a sign is taken for one. */
  lemma SignFound(x: Parts, radix: int)
    requires AreParts(x, radix)
    ensures SkipCSpace(TextOf(x), 0) == |x.space|
    ensures AfterSign(TextOf(x), |x.space|) == |x.space| + |x.sign|
    ensures Sign(TextOf(x), |x.space|) == if x.sign == ['-' as byte] then -1 else 1
  {
    hide DigitVal, At, TextOf, SpaceByte, SkipCSpace;
    var text, p := TextOf(x), |x.space|;
    PlacesOfParts(x);
    MarksAreNoSpace();
    AtHead(text, p, x.sign);
    AtHead(text, p + |x.sign|, x.prefix);
    AtHead(text, p + |x.sign| + |x.prefix|, x.digits + x.rest);
    SpaceSkipped(text, 0, x.space);
  }

  lemma TwoBytes(text: seq<byte>, p: nat, s: seq<byte>)
    requires At(text, p, s) && |s| >= 2
    ensures ByteAt(text, p) == s[0] && ByteAt(text, p + 1) == s[1]
  {
    AtFirst(text, p, s);
  }

  lemma PrefixFound(x: Parts, radix: int)
    requires AreParts(x, radix)
    ensures Prefixed(TextOf(x), |x.space| + |x.sign|, radix) <==> x.prefix != []
  {
    hide DigitVal, At, TextOf;
    var text, p := TextOf(x), |x.space| + |x.sign|;
    var tail := x.digits + x.rest;
    PlacesOfParts(x);
    if x.prefix != [] {
      TwoBytes(text, p, x.prefix);
    } else if |tail| >= 2 {
      TwoBytes(text, p, tail);
    }
  }

  /**
   parseInt on any text and radix that it accepts: the digits in the radix, 16 behind a prefix, with
   the sign; NaN when there are none.
   */
  lemma PartsRead(x: Parts, radix: int)
    requires AreParts(x, radix)
    ensures ParseInt(TextOf(x), radix)
         == if x.digits == [] then None
            else if x.sign == ['-' as byte] then Some(-(PlaceValue(x.digits, BaseOf(x, radix)) as int))
            else Some(PlaceValue(x.digits, BaseOf(x, radix)))
  {
    hide DigitVal, PlaceValue, At, TextOf, DigitsFrom, SkipCSpace, AfterSign, Sign, Prefixed;
    PlacesOfParts(x);
    SignFound(x, radix);
    PrefixFound(x, radix);
    DigitsRead(TextOf(x), |x.space| + |x.sign| + |x.prefix|, x.digits, x.rest, BaseOf(x, radix));
  }

  /** Other radices are refused. */
  lemma OtherRadixIsNaN(text: seq<byte>, radix: int)
    requires radix != 0 && !(2 <= radix <= 36)
    ensures ParseInt(text, radix) == None
  {
  }

  // ---- Every text has parts ----------------------------------------------------------------------

  lemma {:induction false} SpaceFound(text: seq<byte>, p: nat)
    requires p <= |text|
    ensures forall i :: p <= i < SkipCSpace(text, p) ==> SpaceByte(text[i])
    ensures SkipCSpace(text, p) < |text| ==> !SpaceByte(text[SkipCSpace(text, p)])
    decreases |text| - p
  {
    hide IsCSpace, SpaceByte;
    if p < |text| {
      SpaceIs(text[p]);
      if IsCSpace(text[p]) {
        SpaceFound(text, p + 1);
      }
    }
  }

  /** Where the digits end that begin at `p`, in the radix that is then used. */
  function EndOf(text: seq<byte>, q: nat, p: nat, radix: int): (r: nat)
    requires q <= p <= |text| && (radix == 0 || Radix(radix))
    ensures p <= r <= |text|
  {
    DigitsEnd(text, p, if p > q then 16 else if radix == 0 then 10 else radix)
  }

  function AfterPrefix(text: seq<byte>, p: nat, radix: int): (r: nat)
    requires p <= |text|
    ensures p <= r <= |text|
  {
    if Prefixed(text, p, radix) then p + 2 else p
  }

  function PartsOf(text: seq<byte>, radix: int): (x: Parts)
    requires radix == 0 || Radix(radix)
  {
    var p := SkipCSpace(text, 0);
    var q := AfterSign(text, p);
    var r := AfterPrefix(text, q, radix);
    var end := EndOf(text, q, r, radix);
    Parts(text[..p], text[p..q], text[q..r], text[r..end], text[end..])
  }

  lemma PartsAreTheText(text: seq<byte>, radix: int)
    requires radix == 0 || Radix(radix)
    ensures TextOf(PartsOf(text, radix)) == text
  {
    hide SkipCSpace, AfterSign, AfterPrefix, EndOf;
    var p := SkipCSpace(text, 0);
    var q := AfterSign(text, p);
    var r := AfterPrefix(text, q, radix);
    FiveParts(text, p, q, r, EndOf(text, q, r, radix));
  }

  lemma FiveParts(text: seq<byte>, p: nat, q: nat, r: nat, end: nat)
    requires p <= q <= r <= end <= |text|
    ensures text == text[..p] + (text[p..q] + (text[q..r] + (text[r..end] + text[end..])))
    ensures text[r..end] + text[end..] == text[r..]
  {
    assert text == text[..p] + text[p..];
    assert text[p..] == text[p..q] + text[q..];
    assert text[q..] == text[q..r] + text[r..];
  }

  lemma TailOfParts(text: seq<byte>, radix: int)
    requires radix == 0 || Radix(radix)
    ensures var x, q := PartsOf(text, radix), AfterSign(text, SkipCSpace(text, 0));
            x.digits + x.rest == text[AfterPrefix(text, q, radix)..]
  {
    hide SkipCSpace, AfterSign, AfterPrefix, EndOf;
    var p := SkipCSpace(text, 0);
    var q := AfterSign(text, p);
    var r := AfterPrefix(text, q, radix);
    FiveParts(text, p, q, r, EndOf(text, q, r, radix));
  }

  lemma SignTaken(text: seq<byte>, p: nat)
    requires p <= |text|
    ensures var sign := text[p..AfterSign(text, p)];
            && (sign == [] || sign == ['+' as byte] || sign == ['-' as byte])
            && (sign == [] && p < |text| ==> text[p] as char !in "+-")
  {
  }

  lemma HeadFound(text: seq<byte>, radix: int)
    requires radix == 0 || Radix(radix)
    ensures HeadIsWhole(PartsOf(text, radix))
  {
    hide SkipCSpace, AfterSign, AfterPrefix, EndOf, SpaceByte;
    var p := SkipCSpace(text, 0);
    SpaceFound(text, 0);
    SignTaken(text, p);
    TailOfParts(text, radix);
  }

  lemma WholePrefixFound(text: seq<byte>, radix: int)
    requires radix == 0 || Radix(radix)
    ensures PrefixIsWhole(PartsOf(text, radix), radix)
  {
    hide SkipCSpace, AfterSign, EndOf;
    TailOfParts(text, radix);
  }

  /** So the law covers all texts. */
  lemma EveryTextHasParts(text: seq<byte>, radix: int)
    requires radix == 0 || Radix(radix)
    ensures TextOf(PartsOf(text, radix)) == text && AreParts(PartsOf(text, radix), radix)
  {
    hide IsDigit, SkipCSpace, AfterSign, DigitsEnd, TextOf, HeadIsWhole, PrefixIsWhole;
    PartsAreTheText(text, radix);
    HeadFound(text, radix);
    WholePrefixFound(text, radix);
  }
}
