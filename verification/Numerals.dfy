/** Numbers as digits in a radix: writing them, their place value, and how many there are. */
module Numerals {
  import opened Arithmetic
  import opened Bytes

  predicate Radix(radix: int) {
    2 <= radix <= 36
  }

  /** The table of digits: 0 to 9, then a to z. */
  function DigitChar(d: nat): (c: byte)
    requires d < 36
    ensures c != MINUS && c != PLUS && !IsCSpace(c)
  {
    if d < 10 then (48 + d) as byte else (87 + d) as byte
  }

  /** `lr_digit_val`. */
  function DigitVal(c: byte): (d: int)
    ensures -1 <= d < 36
  {
    if 48 <= c <= 57 then c as int - 48
    else if 97 <= c <= 122 then c as int - 87
    else if 65 <= c <= 90 then c as int - 55
    else -1
  }

  const DIGITS := FIGURES + LETTERS

  lemma DigitsAreTheTable(d: nat)
    requires d < 36
    ensures |DIGITS| == 36 && DigitChar(d) as char == DIGITS[d] && DigitVal(DIGITS[d] as byte) == d
  {
  }

  /** Capitals are read as digits, too, and no other characters are. */
  lemma OtherDigits(c: byte)
    ensures 'A' <= c as char <= 'Z' ==> DigitVal(c) == 10 + (c as int - 'A' as int)
    ensures !('0' <= c as char <= '9' || 'a' <= c as char <= 'z' || 'A' <= c as char <= 'Z') ==> DigitVal(c) == -1
  {
  }

  lemma DigitBack(d: nat)
    requires d < 36
    ensures DigitVal(DigitChar(d)) == d
    ensures DigitChar(d) == ZERO <==> d == 0
  {
  }

  function Quot(n: nat, d: nat): nat
    requires d > 0
  {
    n / d
  }

  function Rem(n: nat, d: nat): nat
    requires d > 0
  {
    n % d
  }

  lemma QuotRem(n: nat, d: nat)
    requires d >= 2
    ensures n == Quot(n, d) * d + Rem(n, d) && Rem(n, d) < d
    ensures n < d ==> Quot(n, d) == 0 && Rem(n, d) == n
    ensures n >= d ==> Quot(n, d) > 0
    ensures 2 * Quot(n, d) <= n
  {
    Divided(n, d);
    Halved(n, d);
    if n < d {
      DivisionIs(n, d, 0, n);
    }
  }

  function Digits(n: nat, radix: nat): (s: seq<byte>)
    requires Radix(radix)
    ensures |s| >= 1
  {
    QuotRem(n, radix);
    if n < radix then [DigitChar(n)] else Digits(Quot(n, radix), radix) + [DigitChar(Rem(n, radix))]
  }

  function Magnitude(v: int): nat {
    if v < 0 then -v else v
  }

  /** The text of an integer; with radix 10 it is what the printf family writes. */
  function NumberText(v: int, radix: nat): seq<byte>
    requires Radix(radix)
  {
    if v < 0 then [MINUS] + Digits(-v, radix) else Digits(v, radix)
  }

  lemma NumberTextIs(v: int, radix: nat)
    requires Radix(radix)
    ensures NumberText(v, radix) == (if v < 0 then [MINUS] else []) + Digits(Magnitude(v), radix)
  {
    hide Digits;
  }

  predicate Int32(n: int) {
    -0x8000_0000 <= n < 0x8000_0000
  }

  predicate IsDigit(c: byte, base: nat) {
    0 <= DigitVal(c) < base
  }

  predicate AllDigits(s: seq<byte>, base: nat) {
    forall i :: 0 <= i < |s| ==> IsDigit(s[i], base)
  }

  /** The place value of a run of digits. */
  function PlaceValue(s: seq<byte>, base: nat): nat
    requires AllDigits(s, base)
  {
    if s == [] then 0
    else
      assert IsDigit(s[|s| - 1], base);
      PlaceValue(s[..|s| - 1], base) * base + DigitVal(s[|s| - 1])
  }

  function Power(base: nat, n: nat): nat {
    if n == 0 then 1 else base * Power(base, n - 1)
  }

  /** A number below 2^k has at most k digits, whatever the radix. */
  lemma {:induction false} DigitsAreFew(n: nat, radix: nat, k: nat)
    requires Radix(radix) && k >= 1 && n < Power(2, k)
    ensures |Digits(n, radix)| <= k
  {
    if n >= radix {
      hide Quot, Rem;
      QuotRem(n, radix);
      assert Power(2, 1) == 2 * Power(2, 0);
      DigitsAreFew(Quot(n, radix), radix, k - 1);
    }
  }

  lemma Int32DigitsAreFew(n: nat, radix: nat)
    requires Radix(radix) && n <= 0x8000_0000
    ensures |Digits(n, radix)| <= 32
  {
    assert Power(2, 8) == 256;
    assert Power(2, 16) == 256 * Power(2, 8);
    assert Power(2, 24) == 256 * Power(2, 16);
    assert Power(2, 32) == 256 * Power(2, 24);
    DigitsAreFew(n, radix, 32);
  }

  lemma {:induction false} DigitsReadBack(n: nat, radix: nat)
    requires Radix(radix)
    ensures AllDigits(Digits(n, radix), radix) && PlaceValue(Digits(n, radix), radix) == n
    ensures n > 0 ==> Digits(n, radix)[0] != ZERO
    ensures n == 0 ==> Digits(n, radix) == [ZERO]
  {
    hide DigitChar, DigitVal, Quot, Rem;
    QuotRem(n, radix);
    DigitBack(Rem(n, radix));
    var s := Digits(n, radix);
    if n < radix {
      assert s[..0] == [];
    } else {
      DigitsReadBack(Quot(n, radix), radix);
      assert s[..|s| - 1] == Digits(Quot(n, radix), radix);
    }
  }

  /** Where the digits that start at `p` end. */
  function DigitsEnd(text: seq<byte>, p: nat, base: nat): (r: nat)
    requires p <= |text|
    ensures p <= r <= |text|
    ensures AllDigits(text[p..r], base)
    ensures r < |text| ==> !IsDigit(text[r], base)
    decreases |text| - p
  {
    if p < |text| && IsDigit(text[p], base) then DigitsEnd(text, p + 1, base) else p
  }

  lemma {:induction false} DigitsEndAtEnd(text: seq<byte>, p: nat, base: nat)
    requires p <= |text| && AllDigits(text[p..], base)
    ensures DigitsEnd(text, p, base) == |text|
    decreases |text| - p
  {
    if p < |text| {
      assert text[p..][0] == text[p] && text[p..][1..] == text[p + 1..];
      DigitsEndAtEnd(text, p + 1, base);
    }
  }

  function PowerOfTen(e: int): real
    decreases if e < 0 then -e else e
  {
    if e == 0 then 1.0 else if e > 0 then 10.0 * PowerOfTen(e - 1) else PowerOfTen(e + 1) / 10.0
  }

  lemma {:induction false} PowerPositive(e: int)
    ensures PowerOfTen(e) > 0.0
    decreases if e < 0 then -e else e
  {
    if e > 0 {
      PowerPositive(e - 1);
    } else if e < 0 {
      PowerPositive(e + 1);
    }
  }

  lemma NextPower(e: int)
    ensures PowerOfTen(e + 1) == 10.0 * PowerOfTen(e)
  {
  }

  lemma MarksAreNoDigits()
    ensures !IsDigit('.' as byte, 10) && !IsDigit('e' as byte, 10) && !IsDigit('E' as byte, 10)
    ensures !IsDigit('+' as byte, 10) && !IsDigit('-' as byte, 10) && !IsDigit(0, 10)
  {
  }

  /** A run of digits that is not followed by a digit is found. */
  lemma {:induction false} RunFound(text: seq<byte>, p: nat, run: seq<byte>, base: nat)
    requires At(text, p, run) && AllDigits(run, base) && !IsDigit(ByteAt(text, p + |run|), base)
    ensures DigitsEnd(text, p, base) == p + |run| && text[p..p + |run|] == run
    decreases |run|
  {
    hide DigitVal;
    if run != [] {
      AtFirst(text, p, run);
      assert run == [run[0]] + run[1..];
      AtSplit(text, p, [run[0]], run[1..]);
      RunFound(text, p + 1, run[1..], base);
    }
  }
}
