/** btoa and atob: the encoding of section 4 of RFC 4648. */
module Base64 {
  import opened Arithmetic
  import opened Bytes

  const PAD: byte := 61

  /** `base64_table`: A to Z, a to z, 0 to 9, plus and slash. */
  function Letter(n: nat): (c: byte)
    requires n < 64
    ensures c != PAD
  {
    if n < 26 then (65 + n) as byte
    else if n < 52 then (71 + n) as byte
    else if n < 62 then (n - 4) as byte
    else if n == 62 then 43
    else 47
  }

  /** `decode_table`; a byte that is no letter counts as zero. */
  function Value(c: byte): (n: nat)
    ensures n < 64
  {
    if 65 <= c <= 90 then c as int - 65
    else if 97 <= c <= 122 then c as int - 71
    else if 48 <= c <= 57 then c as int + 4
    else if c == 43 then 62
    else if c == 47 then 63
    else 0
  }

  predicate IsLetter(c: byte) {
    65 <= c <= 90 || 97 <= c <= 122 || 48 <= c <= 57 || c == 43 || c == 47
  }

  const ALPHABET := CAPITALS + LETTERS + FIGURES + "+/"

  /** Table 1 of RFC 4648. */
  lemma LettersAreTheAlphabet(n: nat)
    requires n < 64
    ensures |ALPHABET| == 64 && Letter(n) as char == ALPHABET[n]
    ensures PAD as char == '='
  {
  }

  lemma LetterOfValue(c: byte)
    ensures Letter(Value(c)) == c <==> IsLetter(c)
    ensures !IsLetter(c) ==> Value(c) == 0
  {
  }

  lemma ValueOfLetter(n: nat)
    requires n < 64
    ensures IsLetter(Letter(n)) && Value(Letter(n)) == n
  {
  }

  /** Up to three bytes as 24 bits, of which the 6-bit digits 0 to 3 are taken. */
  function Digit(g: seq<byte>, k: nat): (n: nat)
    requires k < 4
    ensures n < 64
  {
    var b0: nat, b1: nat, b2: nat := ByteOr0(g, 0), ByteOr0(g, 1), ByteOr0(g, 2);
    if k == 0 then b0 / 4
    else if k == 1 then b0 % 4 * 16 + b1 / 16
    else if k == 2 then b1 % 16 * 4 + b2 / 64
    else b2 % 64
  }

  function ByteOr0(g: seq<byte>, i: nat): (n: nat)
    ensures n < 256
  {
    if i < |g| then g[i] as int else 0
  }

  /** The digits are those of the group read as one number, its first byte highest. */
  lemma DigitsAreTheNumber(g: seq<byte>)
    ensures Digit(g, 0) * 0x4_0000 + Digit(g, 1) * 0x1000 + Digit(g, 2) * 0x40 + Digit(g, 3)
         == ByteOr0(g, 0) * 0x1_0000 + ByteOr0(g, 1) * 0x100 + ByteOr0(g, 2)
  {
  }

  /** Four characters for one to three bytes. */
  function EncodeGroup(g: seq<byte>): (t: seq<byte>)
    requires 1 <= |g| <= 3
    ensures |t| == 4
  {
    [Letter(Digit(g, 0)), Letter(Digit(g, 1)),
     if |g| > 1 then Letter(Digit(g, 2)) else PAD,
     if |g| > 2 then Letter(Digit(g, 3)) else PAD]
  }

  function Encode(b: seq<byte>): (t: seq<byte>)
    ensures |t| == (|b| + 2) / 3 * 4
  {
    if b == [] then []
    else if |b| <= 3 then EncodeGroup(b)
    else EncodeGroup(b[..3]) + Encode(b[3..])
  }

  /** Test vectors of section 10 of RFC 4648: "f", "fo", "foo" and "foob". */
  lemma Vectors()
    ensures Encode([102]) == [90, 103, PAD, PAD]
    ensures Encode([102, 111]) == [90, 109, 56, PAD]
    ensures Encode([102, 111, 111]) == [90, 109, 57, 118]
    ensures Encode([102, 111, 111, 98]) == [90, 109, 57, 118, 89, 103, PAD, PAD]
  {
    var four: seq<byte> := [102, 111, 111, 98];
    assert four[..3] == [102, 111, 111] && four[3..] == [98];
  }

  /** The bytes of four characters, one fewer for each of the last two that is a pad. */
  function DecodeGroup(t: seq<byte>): (g: seq<byte>)
    requires |t| == 4
    ensures 1 <= |g| <= 3
  {
    var a, b, c, d := Value(t[0]), Value(t[1]), Value(t[2]), Value(t[3]);
    [(a * 4 + b / 16) as byte]
    + (if t[2] == PAD then [] else [(b % 16 * 16 + c / 4) as byte])
    + (if t[3] == PAD then [] else [(c % 4 * 64 + d) as byte])
  }

  function Decode(t: seq<byte>): (b: seq<byte>)
    requires |t| % 4 == 0
    ensures |b| <= |t| / 4 * 3
  {
    if t == [] then [] else DecodeGroup(t[..4]) + Decode(t[4..])
  }

  lemma GroupRoundTrip(g: seq<byte>)
    requires 1 <= |g| <= 3
    ensures DecodeGroup(EncodeGroup(g)) == g
  {
    hide Letter, Value, Digit;
    ValueOfLetter(Digit(g, 0));
    ValueOfLetter(Digit(g, 1));
    ValueOfLetter(Digit(g, 2));
    ValueOfLetter(Digit(g, 3));
    DigitsMakeBytes(g);
  }

  lemma DigitsMakeBytes(g: seq<byte>)
    ensures Digit(g, 0) * 4 + Digit(g, 1) / 16 == ByteOr0(g, 0)
    ensures Digit(g, 1) % 16 * 16 + Digit(g, 2) / 4 == ByteOr0(g, 1)
    ensures Digit(g, 2) % 4 * 64 + Digit(g, 3) == ByteOr0(g, 2)
  {
  }

  lemma NothingEncoded(b: seq<byte>)
    requires b == []
    ensures Encode(b) == []
  {
  }

  lemma EncodeStep(b: seq<byte>, n: nat)
    requires b != [] && n == if |b| <= 3 then |b| else 3
    ensures Encode(b) == EncodeGroup(b[..n]) + Encode(b[n..])
    ensures Encode(b)[..4] == EncodeGroup(b[..n]) && Encode(b)[4..] == Encode(b[n..])
  {
    hide EncodeGroup;
    if |b| <= 3 {
      assert b[..n] == b && b[n..] == [];
    }
  }

  /** atob undoes btoa. */
  lemma {:induction false} RoundTrip(b: seq<byte>)
    ensures Decode(Encode(b)) == b
  {
    hide EncodeGroup, DecodeGroup, Encode;
    if b == [] {
      NothingEncoded(b);
    } else {
      var n := if |b| <= 3 then |b| else 3;
      EncodeStep(b, n);
      GroupRoundTrip(b[..n]);
      RoundTrip(b[n..]);
      assert b[..n] + b[n..] == b;
    }
  }

  /** Four characters that stand for three bytes, or at the end of a text for one or two. */
  predicate CanonicalGroup(t: seq<byte>, last: bool)
    requires |t| == 4
  {
    IsLetter(t[0]) && IsLetter(t[1])
    && (IsLetter(t[3]) ==> IsLetter(t[2]))
    && (!IsLetter(t[3]) ==> last && t[3] == PAD)
    && (!IsLetter(t[3]) && IsLetter(t[2]) ==> Value(t[2]) % 4 == 0)
    && (!IsLetter(t[3]) && !IsLetter(t[2]) ==> t[2] == PAD && Value(t[1]) % 16 == 0)
  }

  /** Sections 3.2 and 3.5: padding only at the end, unused bits zero, no other characters. */
  predicate Canonical(t: seq<byte>)
    requires |t| % 4 == 0
  {
    t == [] || (CanonicalGroup(t[..4], |t| == 4) && Canonical(t[4..]))
  }

  lemma UnusedBits(g: seq<byte>)
    ensures |g| == 2 ==> Digit(g, 2) % 4 == 0
    ensures |g| == 1 ==> Digit(g, 1) % 16 == 0
  {
  }

  lemma EncodedGroupCanonical(g: seq<byte>)
    requires 1 <= |g| <= 3
    ensures CanonicalGroup(EncodeGroup(g), true)
    ensures |g| == 3 ==> CanonicalGroup(EncodeGroup(g), false)
  {
    hide Letter, Value, IsLetter, Digit;
    UnusedBits(g);
    ValueOfLetter(Digit(g, 0));
    ValueOfLetter(Digit(g, 1));
    ValueOfLetter(Digit(g, 2));
    ValueOfLetter(Digit(g, 3));
    PadIsNoLetter();
  }

  lemma PadIsNoLetter()
    ensures !IsLetter(PAD)
  {
  }

  lemma {:induction false} EncodedIsCanonical(b: seq<byte>)
    ensures Canonical(Encode(b))
  {
    hide CanonicalGroup, EncodeGroup, Encode;
    if b == [] {
      NothingEncoded(b);
    } else {
      var n := if |b| <= 3 then |b| else 3;
      EncodeStep(b, n);
      EncodedGroupCanonical(b[..n]);
      EncodedIsCanonical(b[n..]);
    }
  }

  lemma CanonicalGroupBack(t: seq<byte>, last: bool)
    requires |t| == 4 && CanonicalGroup(t, last)
    ensures EncodeGroup(DecodeGroup(t)) == t
    ensures !last ==> |DecodeGroup(t)| == 3
  {
    hide Letter, Value, IsLetter;
    LetterOfValue(t[0]);
    LetterOfValue(t[1]);
    LetterOfValue(t[2]);
    LetterOfValue(t[3]);
    PadIsNoLetter();
  }

  lemma {:induction false} CanonicalBack(t: seq<byte>)
    requires |t| % 4 == 0 && Canonical(t)
    ensures Encode(Decode(t)) == t
    decreases |t|
  {
    hide CanonicalGroup, EncodeGroup, DecodeGroup, Encode;
    if t == [] {
      NothingEncoded([]);
    } else {
      var g := DecodeGroup(t[..4]);
      CanonicalGroupBack(t[..4], |t| == 4);
      CanonicalBack(t[4..]);
      assert t == t[..4] + t[4..];
      assert Decode(t)[..|g|] == g && Decode(t)[|g|..] == Decode(t[4..]);
      EncodeStep(Decode(t), |g|);
    }
  }

  /** btoa undoes atob on canonical texts and on no others. */
  lemma CanonicalIffRoundTrip(t: seq<byte>)
    requires |t| % 4 == 0
    ensures Encode(Decode(t)) == t <==> Canonical(t)
  {
    if Canonical(t) {
      CanonicalBack(t);
    }
    EncodedIsCanonical(Decode(t));
  }

  /** The three shifts that collect up to three bytes. */
  function Triple(g: seq<byte>): nat {
    ByteOr0(g, 0) * 65536 + ByteOr0(g, 1) * 256 + ByteOr0(g, 2)
  }

  /** A number below 64 times something and a rest: the low six bits, and what is above them. */
  lemma LowSix(n: nat, high: nat, low: nat)
    requires n == high * 64 + low && low < 64
    ensures n % 64 == low
  {
    DivisionIs(n, 64, high, low);
  }

  lemma DigitsOfTriple(g: seq<byte>)
    ensures Triple(g) / 262144 % 64 == Digit(g, 0) && Triple(g) / 4096 % 64 == Digit(g, 1)
    ensures Triple(g) / 64 % 64 == Digit(g, 2) && Triple(g) % 64 == Digit(g, 3)
  {
    hide ByteOr0;
    var b0: nat, b1: nat, b2: nat := ByteOr0(g, 0), ByteOr0(g, 1), ByteOr0(g, 2);
    Divided(b0, 4);
    Divided(b1, 16);
    Divided(b2, 64);
    DivisionIs(Triple(g), 262144, b0 / 4, b0 % 4 * 65536 + b1 * 256 + b2);
    DivisionIs(Triple(g), 4096, b0 * 16 + b1 / 16, b1 % 16 * 256 + b2);
    DivisionIs(Triple(g), 64, b0 * 1024 + b1 * 4 + b2 / 64, b2 % 64);
    LowSix(b0 / 4, 0, Digit(g, 0));
    LowSix(b0 * 16 + b1 / 16, b0 / 4, Digit(g, 1));
    LowSix(b0 * 1024 + b1 * 4 + b2 / 64, b0 * 16 + b1 / 16, Digit(g, 2));
  }

  /** What is left of a text from `i` on, which may lie behind its end. */
  function From(s: seq<byte>, i: nat): seq<byte> {
    if i < |s| then s[i..] else []
  }

  /** The four characters of one turn of the loop. */
  lemma GroupEncoded(input: seq<byte>, i: nat, g: seq<byte>, t: seq<byte>)
    requires i < |input| && g == input[i..if i + 3 <= |input| then i + 3 else |input|]
    requires |t| == 4 && t[0] == Letter(Triple(g) / 262144 % 64) && t[1] == Letter(Triple(g) / 4096 % 64)
    requires t[2] == if |g| > 1 then Letter(Triple(g) / 64 % 64) else PAD
    requires t[3] == if |g| > 2 then Letter(Triple(g) % 64) else PAD
    ensures Encode(From(input, i)) == t + Encode(From(input, i + 3))
  {
    hide Letter, Digit, Triple, Encode;
    DigitsOfTriple(g);
    var b := input[i..];
    var n := if |b| <= 3 then |b| else 3;
    assert b[..n] == g && b[n..] == From(input, i + 3);
    EncodeStep(b, n);
  }

  lemma TripleOf(input: seq<byte>, i: nat, g: seq<byte>)
    requires i < |input| && g == input[i..if i + 3 <= |input| then i + 3 else |input|]
    ensures Triple(g) == input[i] as int * 65536 + (if i + 1 < |input| then input[i + 1] as int * 256 else 0)
      + (if i + 2 < |input| then input[i + 2] as int else 0)
  {
  }

  /** One turn of the loop of `lr_btoa`. */
  method PutGroup(input: seq<byte>, i: nat, out: array<byte>, j: nat)
    requires i < |input| && j + 4 <= out.Length
    modifies out
    ensures out[..j] == old(out[..j])
    ensures Encode(From(input, i)) == out[j..j + 4] + Encode(From(input, i + 3))
  {
    hide Letter, Triple, Encode, From;
    var remaining := |input| - i;
    ghost var g := input[i..if i + 3 <= |input| then i + 3 else |input|];
    TripleOf(input, i, g);
    var triple: nat := input[i] as int * 65536;
    triple := triple + if remaining > 1 then input[i + 1] as int * 256 else 0;
    triple := triple + if remaining > 2 then input[i + 2] as int else 0;
    out[j] := Letter(triple / 262144 % 64);
    out[j + 1] := Letter(triple / 4096 % 64);
    out[j + 2] := if remaining > 1 then Letter(triple / 64 % 64) else PAD;
    out[j + 3] := if remaining > 2 then Letter(triple % 64) else PAD;
    GroupEncoded(input, i, g, out[j..j + 4]);
  }

  /** How many groups of three bytes there are, the last one perhaps incomplete. */
  function Groups(length: nat): nat {
    (length + 2) / 3
  }

  lemma GroupLeft(length: nat, k: nat)
    ensures 3 * k < length <==> k < Groups(length)
  {
    Divided(length + 2, 3);
  }

  ghost predicate EncodedTo(input: seq<byte>, i: nat, done: seq<byte>) {
    done + Encode(From(input, i)) == Encode(input)
  }

  lemma EncodedNext(input: seq<byte>, i: nat, done: seq<byte>, t: seq<byte>)
    requires EncodedTo(input, i, done) && Encode(From(input, i)) == t + Encode(From(input, i + 3))
    ensures EncodedTo(input, i + 3, done + t)
  {
    hide Encode, From;
    Regroup(done, t, Encode(From(input, i + 3)), Encode(input));
  }

  lemma EncodedEnds(input: seq<byte>, i: nat, done: seq<byte>)
    ensures EncodedTo(input, 0, [])
    ensures i >= |input| && EncodedTo(input, i, done) ==> done == Encode(input)
  {
    assert From(input, 0) == input;
    if i >= |input| {
      NothingEncoded(From(input, i));
    }
  }

  /** `lr_btoa`: the output fills its buffer up to the NUL. */
  method Btoa(input: seq<byte>) returns (out: array<byte>)
    ensures out.Length == (|input| + 2) / 3 * 4 + 1
    ensures out[..out.Length - 1] == Encode(input) && out[out.Length - 1] == 0
  {
    out := new byte[(|input| + 2) / 3 * 4 + 1];
    BtoaInto(input, out);
  }

  method BtoaInto(input: seq<byte>, out: array<byte>)
    requires out.Length == Groups(|input|) * 4 + 1
    modifies out
    ensures out[..Groups(|input|) * 4] == Encode(input) && out[Groups(|input|) * 4] == 0
  {
    hide Encode, Groups, EncodedTo, From;
    var i, j := 0, 0;
    ghost var k: nat := 0;
    EncodedEnds(input, 0, []);
    GroupLeft(|input|, 0);
    while i < |input|
      invariant i == 3 * k && j == 4 * k && k <= Groups(|input|)
      invariant EncodedTo(input, i, out[..j])
    {
      GroupLeft(|input|, k);
      ghost var done := out[..j];
      PutGroup(input, i, out, j);
      EncodedNext(input, i, done, out[j..j + 4]);
      assert out[..j + 4] == done + out[j..j + 4];
      j := j + 4;
      i := i + 3;
      k := k + 1;
    }
    GroupLeft(|input|, k);
    EncodedEnds(input, i, out[..j]);
    out[j] := 0;
  }

  lemma DecodeStep(t: seq<byte>, i: nat)
    requires |t| % 4 == 0 && i % 4 == 0 && i < |t|
    ensures Decode(t[i..]) == DecodeGroup(t[i..i + 4]) + Decode(t[i + 4..])
  {
    hide DecodeGroup;
    assert t[i..][..4] == t[i..i + 4] && t[i..][4..] == t[i + 4..];
  }

  lemma Bits(x: nat, y: nat)
    requires x < 64 && y < 64
    ensures (x * 16 + y / 4) % 256 == x % 16 * 16 + y / 4
    ensures (x * 64 + y) % 256 == x % 4 * 64 + y
  {
    Divided(x, 16);
    Divided(x, 4);
    DivisionIs(x * 16 + y / 4, 256, x / 16, x % 16 * 16 + y / 4);
    DivisionIs(x * 64 + y, 256, x / 4, x % 4 * 64 + y);
  }

  /** How many bytes a group writes. */
  function GroupLength(t: seq<byte>): (n: nat)
    requires |t| == 4
    ensures n == |DecodeGroup(t)|
  {
    1 + (if t[2] == PAD then 0 else 1) + if t[3] == PAD then 0 else 1
  }

  /** One turn of the loop of `lr_atob`; casting to a char drops the bits above the eighth. */
  method TakeGroup(t: seq<byte>, out: array<byte>, at: nat) returns (j: nat)
    requires |t| == 4 && at + GroupLength(t) <= out.Length
    modifies out
    ensures j == at + GroupLength(t) && out[..j] == old(out[..at]) + DecodeGroup(t)
  {
    hide Value;
    var a, b := Value(t[0]), Value(t[1]);
    var c := if t[2] == PAD then 0 else Value(t[2]);
    var d := if t[3] == PAD then 0 else Value(t[3]);
    assert Value(PAD) == 0 by { PadIsNothing(); }
    Bits(b, c);
    Bits(c, d);
    j := at;
    out[j] := (a * 4 + b / 16) as byte;
    j := j + 1;
    if t[2] != PAD {
      out[j] := ((b * 16 + c / 4) % 256) as byte;
      j := j + 1;
    }
    if t[3] != PAD {
      out[j] := ((c * 64 + d) % 256) as byte;
      j := j + 1;
    }
  }

  lemma PadIsNothing()
    ensures Value(PAD) == 0
  {
  }

  /** The characters that are read: a last group of three takes the NUL for its fourth. */
  function Completed(input: seq<byte>): seq<byte> {
    if |input| % 4 == 3 then input + [0] else input
  }

  /**
   No character is read behind the NUL, and what is decoded fits the buffer that was measured for
   the complete groups.
   */
  predicate StaysInside(input: seq<byte>) {
    |Completed(input)| % 4 == 0 && |Decode(Completed(input))| <= |input| / 4 * 3
  }

  lemma NothingDecoded(t: seq<byte>)
    requires t == []
    ensures Decode(t) == []
  {
  }

  lemma CompletedLength(input: seq<byte>)
    ensures var n, r, full := |input| / 4, |input| % 4, Completed(input);
      && |input| == 4 * n + r && r < 4
      && |full| == (if r == 3 then 4 * n + 4 else 4 * n + r)
      && (r == 0 || r == 3 ==> |full| % 4 == 0)
  {
    Divided(|input|, 4);
    if |input| % 4 == 3 {
      DivisionIs(|input| + 1, 4, |input| / 4 + 1, 0);
    }
  }

  /** The group `k` as it is read, when its third character is there at least. */
  function GroupAt(input: seq<byte>, i: nat): (t: seq<byte>)
    requires i + 3 <= |input|
    ensures |t| == 4
  {
    [input[i], input[i + 1], input[i + 2], if i + 3 < |input| then input[i + 3] else 0]
  }

  lemma GroupOfCompleted(input: seq<byte>, k: nat)
    requires 4 * k + 3 <= |input|
    ensures 4 * k + 4 <= |Completed(input)| && Completed(input)[4 * k..4 * k + 4] == GroupAt(input, 4 * k)
    ensures k < |input| / 4 || (k == |input| / 4 && |input| % 4 == 3 && |Completed(input)| == 4 * k + 4)
  {
    CompletedLength(input);
  }

  lemma NoThirdCharacter(input: seq<byte>, k: nat)
    requires 4 * k < |input| < 4 * k + 3
    ensures !StaysInside(input)
  {
    hide Decode;
    DivisionIs(|input|, 4, k, |input| - 4 * k);
  }

  /** What has been decoded so far, when the text ends in a complete group or one of three. */
  ghost predicate DecodedTo(input: seq<byte>, i: nat, done: seq<byte>) {
    var full := Completed(input);
    i <= |full| && i % 4 == 0 && (|full| % 4 == 0 ==> done + Decode(full[i..]) == Decode(full))
  }

  lemma DecodedNext(input: seq<byte>, k: nat, done: seq<byte>)
    requires 4 * k + 3 <= |input| && DecodedTo(input, 4 * k, done)
    ensures DecodedTo(input, 4 * k + 4, done + DecodeGroup(GroupAt(input, 4 * k)))
  {
    hide Decode, DecodeGroup, GroupAt, Completed;
    var full := Completed(input);
    GroupOfCompleted(input, k);
    if |full| % 4 == 0 {
      DecodeStep(full, 4 * k);
      Regroup(done, DecodeGroup(GroupAt(input, 4 * k)), Decode(full[4 * k + 4..]), Decode(full));
    }
  }

  /** At the end: everything is decoded, and whether it fits decides. */
  lemma DecodedAll(input: seq<byte>, i: nat, done: seq<byte>)
    requires |input| <= i && DecodedTo(input, i, done) && |Completed(input)| % 4 == 0
    requires |input| % 4 == 0 ==> |done| <= |input| / 4 * 3
    ensures done == Decode(Completed(input))
    ensures StaysInside(input) <==> |done| <= |input| / 4 * 3
  {
    hide Decode;
    CompletedLength(input);
    NothingDecoded(Completed(input)[i..]);
  }

  /**
   `lr_atob`, on every text.  `inside` is false when a read or a write would be outside of its
   array; the model stops in front of it.  Otherwise `j` bytes of the buffer are the result.
   */
  method Atob(input: seq<byte>) returns (out: array<byte>, j: nat, inside: bool)
    ensures out.Length == |input| / 4 * 3 + 1
    ensures inside <==> StaysInside(input)
    ensures inside ==> |Completed(input)| % 4 == 0
    ensures inside ==> j < out.Length && out[..j] == Decode(Completed(input)) && out[j] == 0
  {
    hide Decode, DecodeGroup, GroupLength, StaysInside;
    out := new byte[|input| / 4 * 3 + 1];
    var i := 0;
    j := 0;
    ghost var k: nat := 0;
    assert Completed(input)[0..] == Completed(input);
    while i < |input|
      invariant i == 4 * k && j <= out.Length && DecodedTo(input, i, out[..j])
      invariant k <= |input| / 4 ==> j <= 3 * k
      invariant k > |input| / 4 ==> |input| % 4 == 3
    {
      hide Completed, DecodedTo;
      if i + 3 > |input| {
        NoThirdCharacter(input, k);
        return out, j, false;
      }
      var t := GroupAt(input, i);
      GroupOfCompleted(input, k);
      DecodedNext(input, k, out[..j]);
      GroupShort(t);
      if j + GroupLength(t) > out.Length {
        TooLong(input, k, out[..j]);
        return out, j, false;
      }
      j := TakeGroup(t, out, j);
      i := i + 4;
      k := k + 1;
    }
    CompletedLength(input);
    DecodedAll(input, i, out[..j]);
    if j >= out.Length {
      return out, j, false;
    }
    out[j] := 0;
    inside := true;
  }

  lemma GroupShort(t: seq<byte>)
    requires |t| == 4
    ensures 1 <= GroupLength(t) <= 3
  {
  }

  lemma TooLong(input: seq<byte>, k: nat, done: seq<byte>)
    requires 4 * k + 3 <= |input| && DecodedTo(input, 4 * k + 4, done + DecodeGroup(GroupAt(input, 4 * k)))
    requires k <= |input| / 4 && |done| <= 3 * k
    requires |done| + GroupLength(GroupAt(input, 4 * k)) > |input| / 4 * 3 + 1
    ensures !StaysInside(input)
  {
    hide Decode, DecodeGroup, GroupLength, GroupAt;
    GroupShort(GroupAt(input, 4 * k));
    GroupOfCompleted(input, k);
    CompletedLength(input);
    DecodedAll(input, 4 * k + 4, done + DecodeGroup(GroupAt(input, 4 * k)));
  }

  lemma {:induction false} LettersDecode(t: seq<byte>)
    requires |t| % 4 == 0 && PAD !in t
    ensures |Decode(t)| == |t| / 4 * 3
  {
    if t != [] {
      LettersDecode(t[4..]);
    }
  }

  /** Only for multiples of four is every text of a length read and written within bounds. */
  lemma AllTextsStayInsideIff(length: nat)
    ensures (forall t: seq<byte> :: |t| == length ==> StaysInside(t)) <==> length % 4 == 0
  {
    if length % 4 != 0 {
      var t: seq<byte> := seq(length, _ => 65);
      CompletedLength(t);
      if length % 4 == 3 {
        LettersDecode(Completed(t));
      }
      assert !StaysInside(t);
    }
  }
}
