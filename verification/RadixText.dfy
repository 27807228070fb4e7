/** Number.prototype.toString with a radix, and parseInt. */
module RadixText {
  import opened Wrappers
  import opened Arithmetic
  import opened Bytes
  import opened Numerals
  import opened DecimalText

  // ---- Reading a number -------------------------------------------------------------------

  function SkipCSpace(text: seq<byte>, p: nat): (r: nat)
    requires p <= |text|
    ensures p <= r <= |text|
    decreases |text| - p
  {
    if p < |text| && IsCSpace(text[p]) then SkipCSpace(text, p + 1) else p
  }

  /** `-1` behind a minus sign. */
  function Sign(text: seq<byte>, p: nat): int {
    if ByteAt(text, p) == MINUS then -1 else 1
  }

  function AfterSign(text: seq<byte>, p: nat): (r: nat)
    requires p <= |text|
    ensures p <= r <= |text|
  {
    if ByteAt(text, p) == MINUS || ByteAt(text, p) == PLUS then p + 1 else p
  }

  /** A prefix 0x, where the radix is 16 or not given. */
  predicate Prefixed(text: seq<byte>, p: nat, radix: int) {
    (radix == 0 || radix == 16) && ByteAt(text, p) == ZERO
    && (ByteAt(text, p + 1) == 120 || ByteAt(text, p + 1) == 88)
  }

  /** The value of as many digits as there are, or `None`, which is NaN, when there are none. */
  function DigitsFrom(text: seq<byte>, p: nat, base: nat): Option<nat>
    requires p <= |text|
  {
    var end := DigitsEnd(text, p, base);
    if end == p then None else Some(PlaceValue(text[p..end], base))
  }

  function WithSign(sign: int, n: Option<nat>): Option<int> {
    if n.None? then None else if sign < 0 then Some(-(n.value as int)) else Some(n.value)
  }

  /** Radix 0 means 10, where there is no prefix. */
  function Base(radix: int): int {
    if radix == 0 then 10 else radix
  }

  /** `js_global_parse_int`: spaces, a sign, perhaps a prefix, then digits. */
  function ParseInt(text: seq<byte>, radix: int): Option<int> {
    var start := SkipCSpace(text, 0);
    var p := AfterSign(text, start);
    if radix != 0 && !Radix(radix) then None
    else if Prefixed(text, p, radix) then WithSign(Sign(text, start), DigitsFrom(text, p + 2, 16))
    else WithSign(Sign(text, start), DigitsFrom(text, p, Base(radix)))
  }

  method ReadSpace(text: seq<byte>) returns (p: nat)
    ensures p == SkipCSpace(text, 0)
  {
    p := 0;
    while p < |text| && IsCSpace(text[p])
      invariant p <= |text| && SkipCSpace(text, p) == SkipCSpace(text, 0)
    {
      p := p + 1;
    }
  }

  /** The body of `parseInt`. */
  method ReadInt(text: seq<byte>, radix: int) returns (r: Option<int>)
    ensures r == ParseInt(text, radix)
  {
    hide SkipCSpace, DigitsFrom;
    var p := ReadSpace(text);
    var sign := 1;
    if ByteAt(text, p) == MINUS || ByteAt(text, p) == PLUS {
      if ByteAt(text, p) == MINUS {
        sign := -1;
      }
      p := p + 1;
    }
    if radix != 0 && (radix < 2 || radix > 36) {
      return None;
    }
    var base := if radix != 0 then radix else 10;
    if radix == 0 || radix == 16 {
      if ByteAt(text, p) == ZERO && (ByteAt(text, p + 1) == 120 || ByteAt(text, p + 1) == 88) {
        p := p + 2;
        base := 16;
      }
    }
    var n := ReadDigits(text, p, base);
    r := WithSign(sign, n);
  }

  /** The digit loop of `parseInt`. */
  method ReadDigits(text: seq<byte>, start: nat, base: nat) returns (r: Option<nat>)
    requires start <= |text|
    ensures r == DigitsFrom(text, start, base)
  {
    hide DigitVal;
    var p, n: nat, any := start, 0, false;
    while p < |text|
      invariant start <= p <= |text| && DigitsEnd(text, p, base) == DigitsEnd(text, start, base)
      invariant any == (p > start) && AllDigits(text[start..p], base) && n == PlaceValue(text[start..p], base)
    {
      var d := DigitVal(text[p]);
      if d < 0 || d >= base {
        break;
      }
      ValueNext(text, start, p, base);
      n := n * base + d;
      any := true;
      p := p + 1;
    }
    r := if any then Some(n) else None;
  }

  lemma ValueNext(text: seq<byte>, start: nat, p: nat, base: nat)
    requires start <= p < |text| && AllDigits(text[start..p], base) && IsDigit(text[p], base)
    ensures AllDigits(text[start..p + 1], base)
    ensures PlaceValue(text[start..p + 1], base) == PlaceValue(text[start..p], base) * base + DigitVal(text[p])
  {
    var s := text[start..p + 1];
    assert s == text[start..p] + [text[p]] && s[..|s| - 1] == text[start..p];
  }

  // ---- Printing a number --------------------------------------------------------------------

  function Reversed(s: seq<byte>): (r: seq<byte>)
    ensures |r| == |s|
  {
    seq(|s|, i requires 0 <= i < |s| => s[|s| - 1 - i])
  }

  method ReverseInPlace(buf: array<byte>, n: nat)
    requires n <= buf.Length
    modifies buf
    ensures buf[..n] == Reversed(old(buf[..n]))
  {
    for i := 0 to n / 2
      invariant forall k :: 0 <= k < i ==> buf[k] == old(buf[n - 1 - k]) && buf[n - 1 - k] == old(buf[k])
      invariant forall k :: i <= k < n - i ==> buf[k] == old(buf[k])
    {
      buf[i], buf[n - 1 - i] := buf[n - 1 - i], buf[i];
    }
  }

  /** The loop that pushes the digits, the lowest first. */
  method PushDigits(buf: array<byte>, n: nat, radix: nat) returns (pos: nat)
    requires Radix(radix) && 0 < n <= 0x8000_0000 && buf.Length == 64
    modifies buf
    ensures pos <= 32 && Reversed(buf[..pos]) == Digits(n, radix)
  {
    hide Quot, Rem, DigitChar;
    Int32DigitsAreFew(n, radix);
    pos := 0;
    var u := n;
    while u > 0
      invariant pos <= 32 && (u > 0 ==> |Digits(u, radix)| + pos <= 32)
      invariant Digits(n, radix) == (if u > 0 then Digits(u, radix) else []) + Reversed(buf[..pos])
      decreases u
    {
      QuotRem(u, radix);
      ghost var done := Reversed(buf[..pos]);
      buf[pos] := DigitChar(Rem(u, radix));
      pos := pos + 1;
      assert Reversed(buf[..pos]) == [DigitChar(Rem(u, radix))] + done;
      u := Quot(u, radix);
    }
  }

  /** The digits, the sign, and all of it turned round. */
  method PrintRadix(v: int, radix: nat) returns (text: seq<byte>)
    requires Int32(v) && Radix(radix) && v != 0
    ensures text == (if v < 0 then [MINUS] else []) + Digits(Magnitude(v), radix)
    ensures |text| <= 33
  {
    hide Digits;
    var buf := new byte[64];
    var pos := PushDigits(buf, Magnitude(v), radix);
    ghost var digits := buf[..pos];
    if v < 0 {
      buf[pos] := MINUS;
      pos := pos + 1;
      assert Reversed(buf[..pos]) == [MINUS] + Reversed(digits);
    }
    ReverseInPlace(buf, pos);
    text := buf[..pos];
  }

  /** Numbers whose decimal text is `%.0f`; all others get `%g`. */
  predicate ExactDecimal(v: real) {
    v == v.Floor as real && -1000000000000000.0 < v < 1000000000000000.0
  }

  /** `CastUndefined` is what a radix other than 10 makes of a number beyond the Int32 range. */
  datatype Printed = Printed(text: seq<byte>) | RangeError | CastUndefined

  /** What toString gives for a finite number. */
  function Shown(v: real, radix: Option<int>): Printed {
    var base := if radix.Some? then radix.value else 10;
    if !Radix(base) then RangeError
    else if base == 10 then Printed.Printed(if ExactDecimal(v) then NumberText(Trunc(v), 10) else GeneralText(v))
    else if Int32(Trunc(v)) then Printed.Printed(NumberText(Trunc(v), base))
    else CastUndefined
  }

  /**
   `js_number_proto_to_string`.  The magnitude of -2^31 is taken to be 2^31, which is what negation
   with wrap-around and the cast to unsigned give.
   */
  method ToString(v: real, radix: Option<int>) returns (out: Printed)
    ensures out == Shown(v, radix)
    ensures out.RangeError? <==> radix.Some? && !(2 <= radix.value <= 36)
    ensures out.Printed? && radix.Some? && radix.value != 10 ==> |out.text| <= 33
  {
    hide GeneralText;
    var base := 10;
    if radix.Some? {
      base := radix.value;
      if base < 2 || base > 36 {
        return RangeError;
      }
    }
    if base == 10 {
      if ExactDecimal(v) {
        TruncExact(v);
        return Printed.Printed(NumberText(v.Floor, 10));
      }
      return Printed.Printed(GeneralText(v));
    }
    var val := Trunc(v);
    if !Int32(val) {
      return CastUndefined;
    }
    if val == 0 {
      assert NumberText(0, base) == [ZERO];
      return Printed.Printed([ZERO]);
    }
    var text := PrintRadix(val, base);
    return Printed.Printed(text);
  }

  // ---- Both ways ---------------------------------------------------------------------------

  lemma FirstDigit(n: nat, radix: nat)
    requires Radix(radix)
    ensures IsDigit(Digits(n, radix)[0], radix)
    ensures Digits(n, radix)[0] == ZERO ==> Digits(n, radix) == [ZERO]
  {
    DigitsReadBack(n, radix);
  }

  lemma DigitIsPlain(c: byte, base: nat)
    requires IsDigit(c, base)
    ensures !IsCSpace(c) && c != MINUS && c != PLUS
  {
  }

  lemma NoPrefix(text: seq<byte>, p: nat, radix: int)
    requires ByteAt(text, p) == ZERO ==> p + 1 >= |text|
    ensures !Prefixed(text, p, radix)
  {
  }

  /** A text that is a sign or nothing, then digits, with no prefix, is read as their value. */
  lemma PlainTextIsRead(text: seq<byte>, negative: bool, digits: seq<byte>, radix: int)
    requires radix == 0 || Radix(radix)
    requires text == (if negative then [MINUS] else []) + digits && digits != []
    requires AllDigits(digits, Base(radix)) && (digits[0] == ZERO ==> |digits| == 1)
    ensures ParseInt(text, radix) == WithSign(if negative then -1 else 1, Some(PlaceValue(digits, Base(radix))))
  {
    hide DigitVal, PlaceValue, AllDigits, ParseInt;
    var p := if negative then 1 else 0;
    assert text[p..] == digits && text[p] == digits[0];
    FirstIsDigit(digits, Base(radix));
    DigitIsPlain(digits[0], Base(radix));
    NoCSpace(text);
    NoPrefix(text, p, radix);
    AllOfThem(text, p, Base(radix), digits);
    ParseIs(text, radix, p, if negative then -1 else 1, Some(PlaceValue(digits, Base(radix))));
  }

  lemma ParseIs(text: seq<byte>, radix: int, p: nat, sign: int, n: Option<nat>)
    requires radix == 0 || Radix(radix)
    requires SkipCSpace(text, 0) == 0 && Sign(text, 0) == sign && AfterSign(text, 0) == p
    requires !Prefixed(text, p, radix) && DigitsFrom(text, p, Base(radix)) == n
    ensures ParseInt(text, radix) == WithSign(sign, n)
  {
    hide SkipCSpace, Sign, AfterSign, Prefixed, DigitsFrom;
  }

  lemma FirstIsDigit(s: seq<byte>, base: nat)
    requires s != [] && AllDigits(s, base)
    ensures IsDigit(s[0], base)
  {
  }

  lemma NoCSpace(text: seq<byte>)
    requires text != [] && !IsCSpace(text[0])
    ensures SkipCSpace(text, 0) == 0
  {
  }

  lemma AllOfThem(text: seq<byte>, p: nat, base: nat, digits: seq<byte>)
    requires p <= |text| && text[p..] == digits && digits != [] && AllDigits(digits, base)
    ensures DigitsFrom(text, p, base) == Some(PlaceValue(digits, base))
  {
    DigitsEndAtEnd(text, p, base);
    assert text[p..|text|] == digits;
  }

  lemma NumberTextIsRead(v: int, radix: nat)
    requires Radix(radix)
    ensures ParseInt(NumberText(v, radix), radix) == Some(v)
    ensures radix == 10 ==> ParseInt(NumberText(v, radix), 0) == Some(v)
  {
    hide ParseInt, NumberText, Digits;
    var digits := Digits(Magnitude(v), radix);
    NumberTextIs(v, radix);
    DigitsReadBack(Magnitude(v), radix);
    FirstDigit(Magnitude(v), radix);
    PlainTextIsRead(NumberText(v, radix), v < 0, digits, radix);
    if radix == 10 {
      PlainTextIsRead(NumberText(v, radix), v < 0, digits, 0);
    }
  }

  /** A digit and then something else: only the digit is read. */
  lemma OneDigitIsRead(text: seq<byte>, negative: bool, body: seq<byte>)
    requires text == (if negative then [MINUS] else []) + body
    requires |body| > 1 && IsDigit(body[0], 10) && !IsDigit(body[1], 10)
    ensures ParseInt(text, 10) == WithSign(if negative then -1 else 1, Some(DigitVal(body[0])))
  {
    hide DigitVal, ParseInt;
    var p := if negative then 1 else 0;
    assert text[p] == body[0] && text[p + 1] == body[1];
    DigitIsPlain(body[0], 10);
    NoCSpace(text);
    assert DigitsEnd(text, p + 1, 10) == p + 1;
    assert text[p..p + 1] == [body[0]];
    OneDigitValue(body[0]);
    ParseIs(text, 10, p, if negative then -1 else 1, Some(DigitVal(body[0])));
  }

  lemma OneDigitValue(c: byte)
    requires IsDigit(c, 10)
    ensures PlaceValue([c], 10) == DigitVal(c)
  {
    assert PlaceValue([], 10) == 0;
  }

  /** Of a number of a million or more in `%g` form, parseInt reads a single digit. */
  lemma BigIsReadAsDigit(v: real)
    requires v >= 1000000.0 || v <= -1000000.0
    ensures ParseInt(GeneralText(v), 10).Some? && -9 <= ParseInt(GeneralText(v), 10).value <= 9
  {
    hide PositiveText, ParseInt;
    var a := if v < 0.0 then -v else v;
    BigIsScientific(a);
    OneDigitIsRead(GeneralText(v), v < 0.0, PositiveText(a));
  }

  /**
   parseInt reads the integer part back in the radix it was printed in, and in decimal without a
   radix too, unless the number was printed by `%g`.
   */
  lemma PrintThenParse(v: real, radix: nat)
    requires Shown(v, Some(radix)).Printed? && (radix == 10 ==> ExactDecimal(v))
    ensures ParseInt(Shown(v, Some(radix)).text, radix) == Some(Trunc(v))
    ensures radix == 10 ==> ParseInt(Shown(v, Some(radix)).text, 0) == Some(Trunc(v))
  {
    NumberTextIsRead(Trunc(v), radix);
  }

  /** Integers that toString prints digit by digit. */
  predicate Printable(v: real, radix: nat) {
    v == v.Floor as real && (radix == 10 ==> ExactDecimal(v))
  }

  /**
   What parseInt reads from what toString printed is the number itself exactly when it is an
   integer, and in decimal one below 10^15.
   */
  lemma ReadsBackIff(v: real, radix: nat)
    requires Shown(v, Some(radix)).Printed?
    ensures var r := ParseInt(Shown(v, Some(radix)).text, radix);
      (r.Some? && r.value as real == v) <==> Printable(v, radix)
  {
    hide GeneralText, NumberText, ParseInt;
    var r := ParseInt(Shown(v, Some(radix)).text, radix);
    if radix == 10 && !ExactDecimal(v) {
      if v == v.Floor as real {
        BigIsReadAsDigit(v);
      } else if r.Some? {
        NoIntegerIs(v, r.value);
      }
    } else {
      PrintThenParse(v, radix);
      TruncIsExactIff(v);
    }
  }

  lemma NoIntegerIs(v: real, n: int)
    requires v != v.Floor as real
    ensures n as real != v
  {
    FloorOfInt(n);
  }

  predicate IsCapital(c: byte) {
    65 <= c <= 90
  }

  /** Lower-case digits, none of them a leading zero. */
  predicate PlainDigits(s: seq<byte>, radix: nat) {
    s != [] && AllDigits(s, radix) && (s[0] == ZERO ==> |s| == 1)
    && forall i :: 0 <= i < |s| ==> !IsCapital(s[i])
  }

  /** The texts that printing can give: plain digits, perhaps behind a minus sign, but not -0. */
  predicate Canonical(text: seq<byte>, radix: nat) {
    PlainDigits(text, radix) || (|text| > 1 && text[0] == MINUS && PlainDigits(text[1..], radix) && text[1] != ZERO)
  }

  lemma CharOfVal(c: byte)
    requires DigitVal(c) >= 0 && !IsCapital(c)
    ensures DigitChar(DigitVal(c)) == c
  {
  }

  lemma {:induction false} DigitsArePlain(n: nat, radix: nat)
    requires Radix(radix)
    ensures PlainDigits(Digits(n, radix), radix)
    decreases n
  {
    hide DigitVal, DigitChar, Quot, Rem;
    QuotRem(n, radix);
    DigitsReadBack(n, radix);
    FirstDigit(n, radix);
    CharIsSmall(Rem(n, radix));
    if n >= radix {
      DigitsArePlain(Quot(n, radix), radix);
    }
  }

  lemma CharIsSmall(d: nat)
    requires d < 36
    ensures !IsCapital(DigitChar(d))
  {
  }

  lemma DivideBack(n: nat, q: nat, r: nat, d: nat)
    requires n == q * d + r && r < d && d >= 2
    ensures Quot(n, d) == q && Rem(n, d) == r
  {
    DivisionIs(n, d, q, r);
  }

  lemma {:induction false} DigitsOfValue(s: seq<byte>, radix: nat)
    requires Radix(radix) && PlainDigits(s, radix)
    ensures Digits(PlaceValue(s, radix), radix) == s
    ensures s[0] != ZERO ==> PlaceValue(s, radix) > 0
    decreases |s|
  {
    hide DigitVal, DigitChar, Quot, Rem;
    var n, front, last := PlaceValue(s, radix), s[..|s| - 1], s[|s| - 1];
    assert IsDigit(last, radix);
    CharOfVal(last);
    DigitBack(DigitVal(last));
    if |s| == 1 {
      assert front == [] && PlaceValue(front, radix) == 0;
      assert n == DigitVal(last);
      QuotRem(n, radix);
    } else {
      assert front[0] == s[0];
      DigitsOfValue(front, radix);
      DivideBack(n, PlaceValue(front, radix), DigitVal(last), radix);
      QuotRem(n, radix);
      assert n >= radix;
    }
  }

  lemma CanonicalIsText(text: seq<byte>, radix: nat)
    requires Radix(radix)
    ensures (ParseInt(text, radix).Some? && NumberText(ParseInt(text, radix).value, radix) == text)
       <==> Canonical(text, radix)
  {
    hide ParseInt, NumberText, Digits, PlaceValue;
    if Canonical(text, radix) {
      var negative := text[0] == MINUS;
      var digits := if negative then text[1..] else text;
      if PlainDigits(text, radix) {
        NotASign(text, radix);
      }
      PlainTextIsRead(text, negative, digits, radix);
      DigitsOfValue(digits, radix);
      NumberTextIs(ParseInt(text, radix).value, radix);
    }
    if ParseInt(text, radix).Some? && NumberText(ParseInt(text, radix).value, radix) == text {
      var v := ParseInt(text, radix).value;
      NumberTextIs(v, radix);
      DigitsArePlain(Magnitude(v), radix);
      DigitsReadBack(Magnitude(v), radix);
      assert v < 0 ==> text[1..] == Digits(Magnitude(v), radix);
    }
  }

  /** Integers whose digits toString prints. */
  predicate InScope(n: int, radix: nat) {
    if radix == 10 then -1000000000000000 < n < 1000000000000000 else Int32(n)
  }

  lemma ShownInteger(n: int, radix: nat)
    requires Radix(radix)
    ensures InScope(n, radix) ==> Shown(n as real, Some(radix)) == Printed.Printed(NumberText(n, radix))
    ensures !InScope(n, radix) && radix != 10 ==> Shown(n as real, Some(radix)) == CastUndefined
    ensures !InScope(n, radix) && radix == 10 ==>
      (n >= 1000000 || n <= -1000000) && Shown(n as real, Some(radix)) == Printed.Printed(GeneralText(n as real))
  {
    hide GeneralText, NumberText;
    FloorOfInt(n);
    TruncExact(n as real);
  }

  /**
   Printing what was read gives the text back exactly for canonical texts of integers in scope: no
   space, plus sign, prefix, leading zero, upper-case letter or trailing text, and below 10^15 in
   decimal or within Int32 otherwise.
   */
  lemma ParseThenPrint(text: seq<byte>, radix: nat)
    requires Radix(radix)
    ensures var r := ParseInt(text, radix);
      (r.Some? && Shown(r.value as real, Some(radix)) == Printed.Printed(text))
      <==> Canonical(text, radix) && r.Some? && InScope(r.value, radix)
  {
    hide ParseInt, NumberText, Canonical, Shown, GeneralText;
    var r := ParseInt(text, radix);
    CanonicalIsText(text, radix);
    if r.Some? {
      ShownInteger(r.value, radix);
      if !InScope(r.value, radix) && radix == 10 {
        BigIsReadAsDigit(r.value as real);
      }
    }
  }

  lemma NotASign(text: seq<byte>, radix: nat)
    requires PlainDigits(text, radix)
    ensures text[0] != MINUS
  {
    DigitIsPlain(text[0], radix);
  }
}
