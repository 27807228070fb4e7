/** String.fromCodePoint and String.prototype.codePointAt: UTF-8 out of and into code points. */
module Utf8 {
  import opened Wrappers
  import opened Arithmetic
  import opened Bytes

  /** `JS_ToInt32` has cut the argument to this range. */
  newtype int32 = x: int | -0x8000_0000 <= x < 0x8000_0000

  function FourOf(n: int): (s: seq<byte>)
    requires n >= 0
    ensures |s| == 4
  {
    [(0xF0 + n / 0x4_0000 % 16) as byte, (0x80 + n / 4096 % 64) as byte,
     (0x80 + n / 64 % 64) as byte, (0x80 + n % 64) as byte]
  }

  /** The bytes stored for one code point, each cut to eight bits. */
  function Encode(cp: int32): (s: seq<byte>)
    ensures 1 <= |s| <= 4
  {
    var n := cp as int;
    if n < 0x80 then [(n % 256) as byte]
    else if n < 0x800 then [(0xC0 + n / 64) as byte, (0x80 + n % 64) as byte]
    else if n < 0x1_0000 then [(0xE0 + n / 4096) as byte, (0x80 + n / 64 % 64) as byte, (0x80 + n % 64) as byte]
    else FourOf(n)
  }

  /** Table 3-6 of the Unicode standard: the lead byte tells the length, and the bytes hold the bits of the code. */
  predicate IsForm(cp: nat, s: seq<byte>) {
    if cp < 0x80 then |s| == 1 && s[0] as int == cp
    else if cp < 0x800 then
      |s| == 2 && 0xC0 <= s[0] < 0xE0 && 0x80 <= s[1] < 0xC0
      && cp == (s[0] as int - 0xC0) * 64 + (s[1] as int - 0x80)
    else if cp < 0x1_0000 then
      |s| == 3 && 0xE0 <= s[0] < 0xF0 && 0x80 <= s[1] < 0xC0 && 0x80 <= s[2] < 0xC0
      && cp == (s[0] as int - 0xE0) * 4096 + (s[1] as int - 0x80) * 64 + (s[2] as int - 0x80)
    else
      |s| == 4 && 0xF0 <= s[0] < 0xF8 && 0x80 <= s[1] < 0xC0 && 0x80 <= s[2] < 0xC0 && 0x80 <= s[3] < 0xC0
      && cp == (s[0] as int - 0xF0) * 0x4_0000 + (s[1] as int - 0x80) * 4096
               + (s[2] as int - 0x80) * 64 + (s[3] as int - 0x80)
  }

  lemma EncodedForm(cp: int32)
    requires 0 <= cp < 0x20_0000
    ensures IsForm(cp as int, Encode(cp))
  {
    var n := cp as int;
    SixBitDigits(n);
    DivisionIs(n / 0x4_0000, 16, 0, n / 0x4_0000);
  }

  function EncodeAll(cps: seq<int32>): (s: seq<byte>)
    ensures |s| <= 4 * |cps|
  {
    if cps == [] then [] else EncodeAll(cps[..|cps| - 1]) + Encode(cps[|cps| - 1])
  }

  method Put(buf: array<byte>, pos: nat, cp: int32) returns (next: nat)
    requires pos + 4 < buf.Length
    modifies buf
    ensures next <= pos + 4 && buf[..next] == old(buf[..pos]) + Encode(cp)
  {
    var n := cp as int;
    if n < 0x80 {
      buf[pos] := (n % 256) as byte;
      next := pos + 1;
    } else if n < 0x800 {
      buf[pos], buf[pos + 1] := (0xC0 + n / 64) as byte, (0x80 + n % 64) as byte;
      next := pos + 2;
    } else if n < 0x1_0000 {
      buf[pos], buf[pos + 1] := (0xE0 + n / 4096) as byte, (0x80 + n / 64 % 64) as byte;
      buf[pos + 2] := (0x80 + n % 64) as byte;
      next := pos + 3;
    } else {
      buf[pos], buf[pos + 1] := (0xF0 + n / 0x4_0000 % 16) as byte, (0x80 + n / 4096 % 64) as byte;
      buf[pos + 2], buf[pos + 3] := (0x80 + n / 64 % 64) as byte, (0x80 + n % 64) as byte;
      next := pos + 4;
    }
    assert buf[pos..next] == Encode(cp);
  }

  /** `js_string_from_code_point`: four bytes for each argument are always enough. */
  method FromCodePoint(cps: seq<int32>) returns (text: seq<byte>)
    ensures text == CString(EncodeAll(cps))
  {
    hide Encode;
    var buf := new byte[|cps| * 4 + 1](_ => 0);
    var pos: nat := 0;
    for i := 0 to |cps|
      invariant pos <= 4 * i && buf[..pos] == EncodeAll(cps[..i])
    {
      assert cps[..i + 1][..i] == cps[..i];
      pos := Put(buf, pos, cps[i]);
    }
    assert cps[..|cps|] == cps;
    buf[pos] := 0;
    text := CString(buf[..]);
    CStringTerminated(EncodeAll(cps), buf[..]);
  }

  /** `js_string_proto_code_point_at`; `None` is undefined. */
  function CodePointAt(text: seq<byte>, index: int): Option<int> {
    if index < 0 || index >= |text| then None
    else
      var left, c := |text| - index, text[index] as int;
      Some(
        if c < 0x80 then c
        else if c / 32 == 6 && left > 1 then Two(c, Low(text[index + 1]))
        else if c / 16 == 14 && left > 2 then Three(c, Low(text[index + 1]), Low(text[index + 2]))
        else if c / 8 == 30 && left > 3 then Four(c, Low(text[index + 1]), Low(text[index + 2]), Low(text[index + 3]))
        else c)
  }

  /** The low six bits of a byte. */
  function Low(c: byte): (n: nat)
    ensures n < 64
  {
    c as int % 64
  }

  function Two(c: nat, x: nat): nat { c % 32 * 64 + x }
  function Three(c: nat, x: nat, y: nat): nat { c % 16 * 4096 + x * 64 + y }
  function Four(c: nat, x: nat, y: nat, z: nat): nat { c % 8 * 0x4_0000 + x * 4096 + y * 64 + z }

  /** A number by its digits of six bits. */
  lemma SixBitDigits(n: nat)
    ensures n == n / 4096 * 4096 + n / 64 % 64 * 64 + n % 64
    ensures n / 4096 == n / 0x4_0000 * 64 + n / 4096 % 64
  {
    Divided(n, 64);
    Divided(n / 64, 64);
    DivDiv(n, 64, 64);
    Divided(n / 4096, 64);
    DivDiv(n, 4096, 64);
  }

  lemma TwoBack(n: nat)
    requires 0x80 <= n < 0x800
    ensures (0xC0 + n / 64) / 32 == 6 && Two(0xC0 + n / 64, n % 64) == n
  {
  }

  lemma ThreeBack(n: nat)
    requires 0x800 <= n < 0x1_0000
    ensures (0xE0 + n / 4096) / 16 == 14 && Three(0xE0 + n / 4096, n / 64 % 64, n % 64) == n
  {
    SixBitDigits(n);
    DivisionIs(0xE0 + n / 4096, 16, 14, n / 4096);
  }

  lemma FourBack(n: nat)
    requires 0x1_0000 <= n < 0x20_0000
    ensures (0xF0 + n / 0x4_0000 % 16) / 8 == 30
    ensures Four(0xF0 + n / 0x4_0000 % 16, n / 4096 % 64, n / 64 % 64, n % 64) == n
  {
    SixBitDigits(n);
    var h := n / 0x4_0000;
    DivisionIs(h, 16, 0, h);
    DivisionIs(0xF0 + h, 8, 30, h);
  }

  /** What the decoder can return at all. */
  lemma CodePointRange(text: seq<byte>, index: int)
    ensures CodePointAt(text, index).Some? ==> 0 <= CodePointAt(text, index).value < 0x20_0000
  {
  }

  /** Where the encoding of the code point `i` begins. */
  function Offset(cps: seq<int32>, i: nat): nat
    requires i <= |cps|
  {
    |EncodeAll(cps[..i])|
  }

  predicate InRange(cps: seq<int32>) {
    forall i :: 0 <= i < |cps| ==> 1 <= cps[i] < 0x20_0000
  }

  lemma LowBack(x: nat)
    requires x < 64
    ensures Low((0x80 + x) as byte) == x
  {
  }

  lemma TwoBytes(text: seq<byte>, index: nat, n: nat)
    requires 0x80 <= n < 0x800 && At(text, index, [(0xC0 + n / 64) as byte, (0x80 + n % 64) as byte])
    ensures CodePointAt(text, index) == Some(n)
  {
    hide Two, Three, Four, Low;
    AtFirst(text, index, [(0xC0 + n / 64) as byte, (0x80 + n % 64) as byte]);
    TwoBack(n);
    LowBack(n % 64);
  }

  lemma ThreeBytes(text: seq<byte>, index: nat, n: nat)
    requires 0x800 <= n < 0x1_0000
    requires At(text, index, [(0xE0 + n / 4096) as byte, (0x80 + n / 64 % 64) as byte, (0x80 + n % 64) as byte])
    ensures CodePointAt(text, index) == Some(n)
  {
    hide Two, Three, Four, Low;
    AtFirst(text, index, [(0xE0 + n / 4096) as byte, (0x80 + n / 64 % 64) as byte, (0x80 + n % 64) as byte]);
    ThreeBack(n);
    LowBack(n / 64 % 64);
    LowBack(n % 64);
  }

  lemma FourBytes(text: seq<byte>, index: nat, n: nat)
    requires 0x1_0000 <= n < 0x20_0000
    requires At(text, index, FourOf(n))
    ensures CodePointAt(text, index) == Some(n)
  {
    hide Two, Three, Four, Low;
    AtFirst(text, index, FourOf(n));
    FourBack(n);
    LowBack(n / 4096 % 64);
    LowBack(n / 64 % 64);
    LowBack(n % 64);
  }

  lemma OneCodePoint(text: seq<byte>, index: nat, cp: int32)
    requires 1 <= cp < 0x20_0000 && At(text, index, Encode(cp))
    ensures CodePointAt(text, index) == Some(cp as int)
  {
    var n := cp as int;
    if n < 0x80 {
      AtFirst(text, index, Encode(cp));
    } else {
      hide CodePointAt;
      if n < 0x800 {
        TwoBytes(text, index, n);
      } else if n < 0x1_0000 {
        ThreeBytes(text, index, n);
      } else {
        FourBytes(text, index, n);
      }
    }
  }

  lemma EncodeHasNoNul(cp: int32)
    requires 1 <= cp < 0x20_0000
    ensures NoNul(Encode(cp))
  {
  }

  lemma {:induction false} EncodeAllHasNoNul(cps: seq<int32>)
    requires InRange(cps)
    ensures NoNul(EncodeAll(cps))
  {
    hide Encode;
    if cps != [] {
      EncodeAllHasNoNul(cps[..|cps| - 1]);
      EncodeHasNoNul(cps[|cps| - 1]);
    }
  }

  lemma {:induction false} EncodingStands(cps: seq<int32>, i: nat)
    requires i < |cps|
    ensures At(EncodeAll(cps), Offset(cps, i), Encode(cps[i]))
    decreases |cps|
  {
    hide Encode;
    var n := |cps| - 1;
    if i < n {
      EncodingStands(cps[..n], i);
      assert cps[..n][..i] == cps[..i];
      var s, at := EncodeAll(cps[..n]), Offset(cps, i);
      assert (s + Encode(cps[n]))[at..at + |Encode(cps[i])|] == s[at..at + |Encode(cps[i])|];
    }
  }

  /** Every code point is read back where its encoding begins, when all can be represented. */
  lemma ReadsBack(cps: seq<int32>, i: nat)
    requires i < |cps| && InRange(cps)
    ensures CodePointAt(CString(EncodeAll(cps)), Offset(cps, i)) == Some(cps[i] as int)
  {
    EncodeAllHasNoNul(cps);
    CStringWhole(EncodeAll(cps));
    EncodingStands(cps, i);
    OneCodePoint(EncodeAll(cps), Offset(cps, i), cps[i]);
  }

  lemma NulByte()
    ensures Encode(0) == [0]
  {
  }

  /** NUL ends the text: a code point 0 is not read back. */
  lemma NulEndsText(cps: seq<int32>, i: nat)
    requires i < |cps| && cps[i] == 0
    ensures CodePointAt(CString(EncodeAll(cps)), Offset(cps, i)) == None
  {
    hide CodePointAt, EncodeAll, Offset, CString, Encode;
    EncodingStands(cps, i);
    var s, at := EncodeAll(cps), Offset(cps, i);
    NulByte();
    AtFirst(s, at, [0]);
    CStringStops(s, at);
    PastEnd(CString(s), at);
  }

  lemma PastEnd(text: seq<byte>, index: nat)
    requires index >= |text|
    ensures CodePointAt(text, index) == None
  {
  }

  /** Reading back works for all of a text exactly when every code point is from 1 to 0x1FFFFF. */
  lemma ReadsBackIffInRange(cps: seq<int32>)
    ensures (forall i {:trigger cps[i]} :: 0 <= i < |cps| ==>
              CodePointAt(CString(EncodeAll(cps)), Offset(cps, i)) == Some(cps[i] as int))
      <==> InRange(cps)
  {
    hide CodePointAt, EncodeAll, Offset, CString;
    if InRange(cps) {
      forall i | 0 <= i < |cps|
        ensures CodePointAt(CString(EncodeAll(cps)), Offset(cps, i)) == Some(cps[i] as int)
      {
        ReadsBack(cps, i);
      }
    } else {
      var i :| 0 <= i < |cps| && !(1 <= cps[i] < 0x20_0000);
      CodePointRange(CString(EncodeAll(cps)), Offset(cps, i));
      if cps[i] == 0 {
        NulEndsText(cps, i);
      }
    }
  }

  /** `index` is where the encoding of the code point `i` begins. */
  predicate Begins(cps: seq<int32>, i: nat, index: nat) {
    i < |cps| && Offset(cps, i) == index
  }

  predicate IsContinuation(c: byte) {
    0x80 <= c < 0xC0
  }

  /** Only the first byte of an encoding is no continuation byte. */
  lemma FirstByteOnly(cp: int32, k: nat)
    requires 1 <= cp < 0x20_0000 && k < |Encode(cp)|
    ensures IsContinuation(Encode(cp)[k]) <==> k > 0
  {
  }

  lemma OffsetsGrow(cps: seq<int32>, i: nat)
    requires i < |cps|
    ensures Offset(cps, i + 1) == Offset(cps, i) + |Encode(cps[i])|
  {
    assert cps[..i + 1][..i] == cps[..i];
  }

  /** Every byte of the text belongs to one encoding. */
  lemma {:induction false} FindEncoding(cps: seq<int32>, n: nat, index: nat) returns (i: nat)
    requires n <= |cps| && index < Offset(cps, n)
    ensures i < n && Offset(cps, i) <= index < Offset(cps, i) + |Encode(cps[i])|
    decreases n
  {
    hide Encode;
    OffsetsGrow(cps, n - 1);
    if Offset(cps, n - 1) <= index {
      i := n - 1;
    } else {
      i := FindEncoding(cps, n - 1, index);
    }
  }

  lemma RawByte(text: seq<byte>, index: nat)
    requires index < |text| && IsContinuation(text[index])
    ensures CodePointAt(text, index) == Some(text[index] as int)
  {
  }

  lemma {:induction false} OffsetsApart(cps: seq<int32>, i: nat, j: nat)
    requires i < j <= |cps|
    ensures Offset(cps, i) + |Encode(cps[i])| <= Offset(cps, j)
    decreases j
  {
    hide Encode;
    OffsetsGrow(cps, j - 1);
    if i < j - 1 {
      OffsetsApart(cps, i, j - 1);
    }
  }

  lemma NoneBeginsInside(cps: seq<int32>, i: nat, index: nat)
    requires i < |cps| && Offset(cps, i) < index < Offset(cps, i) + |Encode(cps[i])|
    ensures forall j: nat :: !Begins(cps, j, index)
  {
    hide Encode, Offset;
    forall j: nat
      ensures !Begins(cps, j, index)
    {
      if j < i {
        OffsetsApart(cps, j, i);
      } else if i < j < |cps| {
        OffsetsApart(cps, i, j);
      }
    }
  }

  /** The byte at an index of the text, as a byte of one encoding. */
  lemma ByteOfEncoding(cps: seq<int32>, index: nat) returns (i: nat)
    requires index < |EncodeAll(cps)|
    ensures i < |cps| && Offset(cps, i) <= index < Offset(cps, i) + |Encode(cps[i])|
    ensures EncodeAll(cps)[index] == Encode(cps[i])[index - Offset(cps, i)]
  {
    hide Encode;
    assert cps[..|cps|] == cps;
    i := FindEncoding(cps, |cps|, index);
    EncodingStands(cps, i);
    AtFirst(EncodeAll(cps), Offset(cps, i), Encode(cps[i]));
    var k := index - Offset(cps, i);
    assert EncodeAll(cps)[Offset(cps, i) + k] == Encode(cps[i])[k];
  }

  /**
   UTF-8 finds its place again: the encodings begin exactly where there is no continuation byte.
   At every other index the byte itself comes back, never a code point put together wrongly.
   */
  lemma BeginsIffNoContinuation(cps: seq<int32>, index: nat)
    requires InRange(cps) && index < |EncodeAll(cps)|
    ensures (exists i: nat :: Begins(cps, i, index)) <==> !IsContinuation(EncodeAll(cps)[index])
    ensures !(exists i: nat :: Begins(cps, i, index)) ==>
      CodePointAt(CString(EncodeAll(cps)), index) == Some(EncodeAll(cps)[index] as int)
  {
    hide Encode, EncodeAll, CodePointAt, IsContinuation, CString, Offset;
    EncodeAllHasNoNul(cps);
    CStringWhole(EncodeAll(cps));
    var i := ByteOfEncoding(cps, index);
    FirstByteOnly(cps[i], index - Offset(cps, i));
    if Offset(cps, i) == index {
      assert Begins(cps, i, index);
    } else {
      NoneBeginsInside(cps, i, index);
      RawByte(EncodeAll(cps), index);
    }
  }
}
