/**
 SHA-256: the hash function of sections 5 and 6.2 of FIPS 180-4, and the streaming context that
 absorbs a message in pieces.
 */
module Sha256 {
  import opened Arithmetic
  import opened Bytes

  type Word = bv32

  const K0: seq<Word> := [
    0x428a2f98, 0x71374491, 0xb5c0fbcf, 0xe9b5dba5,
    0x3956c25b, 0x59f111f1, 0x923f82a4, 0xab1c5ed5
  ]
  const K1: seq<Word> := [
    0xd807aa98, 0x12835b01, 0x243185be, 0x550c7dc3,
    0x72be5d74, 0x80deb1fe, 0x9bdc06a7, 0xc19bf174
  ]
  const K2: seq<Word> := [
    0xe49b69c1, 0xefbe4786, 0x0fc19dc6, 0x240ca1cc,
    0x2de92c6f, 0x4a7484aa, 0x5cb0a9dc, 0x76f988da
  ]
  const K3: seq<Word> := [
    0x983e5152, 0xa831c66d, 0xb00327c8, 0xbf597fc7,
    0xc6e00bf3, 0xd5a79147, 0x06ca6351, 0x14292967
  ]
  const K4: seq<Word> := [
    0x27b70a85, 0x2e1b2138, 0x4d2c6dfc, 0x53380d13,
    0x650a7354, 0x766a0abb, 0x81c2c92e, 0x92722c85
  ]
  const K5: seq<Word> := [
    0xa2bfe8a1, 0xa81a664b, 0xc24b8b70, 0xc76c51a3,
    0xd192e819, 0xd6990624, 0xf40e3585, 0x106aa070
  ]
  const K6: seq<Word> := [
    0x19a4c116, 0x1e376c08, 0x2748774c, 0x34b0bcb5,
    0x391c0cb3, 0x4ed8aa4a, 0x5b9cca4f, 0x682e6ff3
  ]
  const K7: seq<Word> := [
    0x748f82ee, 0x78a5636f, 0x84c87814, 0x8cc70208,
    0x90befffa, 0xa4506ceb, 0xbef9a3f7, 0xc67178f2
  ]

  /** The constants of section 4.2.2, one for each round. */
  const K := K0 + K1 + K2 + K3 + K4 + K5 + K6 + K7

  const INITIAL: seq<Word> := [
    0x6a09e667, 0xbb67ae85, 0x3c6ef372, 0xa54ff53a,
    0x510e527f, 0x9b05688c, 0x1f83d9ab, 0x5be0cd19
  ]

  const BLOCK := 64

  // ---- The functions on words of section 4.1.2 ---------------------------------------------

  /** ROTR of section 3.2. */
  function Rotr(x: Word, n: bv6): Word
    requires 0 < n < 32
  {
    (x >> n) | (x << (32 - n))
  }

  function Ch(x: Word, y: Word, z: Word): Word { (x & y) ^ (!x & z) }
  function Maj(x: Word, y: Word, z: Word): Word { (x & y) ^ (x & z) ^ (y & z) }
  function Ep0(x: Word): Word { Rotr(x, 2) ^ Rotr(x, 13) ^ Rotr(x, 22) }
  function Ep1(x: Word): Word { Rotr(x, 6) ^ Rotr(x, 11) ^ Rotr(x, 25) }
  function Sig0(x: Word): Word { Rotr(x, 7) ^ Rotr(x, 18) ^ (x >> 3) }
  function Sig1(x: Word): Word { Rotr(x, 17) ^ Rotr(x, 19) ^ (x >> 10) }

  /** Addition modulo 2^32. */
  function Add(x: Word, y: Word): Word { x + y }

  function AsBits(b: byte): bv8 { b as bv8 }
  function AsByte(x: bv8): byte { x as byte }

  function Assemble(x0: bv8, x1: bv8, x2: bv8, x3: bv8): Word {
    ((x0 as Word) << 24) | ((x1 as Word) << 16) | ((x2 as Word) << 8) | (x3 as Word)
  }

  /** A word shifted down and cut to eight bits. */
  function Cut(w: Word, shift: bv6): bv8
    requires shift < 32
  {
    ((w >> shift) & 0xFF) as bv8
  }

  /** Four bytes as a word, the first byte highest. */
  function FromBytes(b0: byte, b1: byte, b2: byte, b3: byte): Word {
    Assemble(AsBits(b0), AsBits(b1), AsBits(b2), AsBits(b3))
  }

  function TopByte(w: Word, shift: bv6): byte
    requires shift < 32
  {
    AsByte(Cut(w, shift))
  }

  function ToBytes(w: Word): (s: seq<byte>)
    ensures |s| == 4
  {
    [TopByte(w, 24), TopByte(w, 16), TopByte(w, 8), TopByte(w, 0)]
  }

  lemma BitsBack(x: bv8)
    ensures AsBits(AsByte(x)) == x
  {
  }

  lemma Assembled(w: Word)
    ensures Assemble(Cut(w, 24), Cut(w, 16), Cut(w, 8), Cut(w, 0)) == w
  {
  }

  lemma WordAsBytes(w: Word)
    ensures FromBytes(ToBytes(w)[0], ToBytes(w)[1], ToBytes(w)[2], ToBytes(w)[3]) == w
  {
    hide AsBits, AsByte, Cut, Assemble;
    BitsBack(Cut(w, 24));
    BitsBack(Cut(w, 16));
    BitsBack(Cut(w, 8));
    BitsBack(Cut(w, 0));
    Assembled(w);
  }

  // ---- Section 6.2.2: the hash of a sequence of blocks ---------------------------------------

  /** The word of the message schedule that follows `w`, once the 16 words of the block are there. */
  function NextWord(w: seq<Word>): Word
    requires |w| >= 16
  {
    var t := |w|;
    Add(Add(Add(Sig1(w[t - 2]), w[t - 7]), Sig0(w[t - 15])), w[t - 16])
  }

  function BlockWord(block: seq<byte>, t: nat): Word
    requires |block| == BLOCK && t < 16
  {
    FromBytes(block[4 * t], block[4 * t + 1], block[4 * t + 2], block[4 * t + 3])
  }

  /** The first `n` words of the message schedule of a block. */
  function Schedule(block: seq<byte>, n: nat): (w: seq<Word>)
    requires |block| == BLOCK
    ensures |w| == n
  {
    if n == 0 then []
    else
      var w := Schedule(block, n - 1);
      w + [if n <= 16 then BlockWord(block, n - 1) else NextWord(w)]
  }

  /** The eight working variables. */
  datatype Vars = Vars(a: Word, b: Word, c: Word, d: Word, e: Word, f: Word, g: Word, h: Word)

  function T1(v: Vars, k: Word, w: Word): Word {
    Add(Add(Add(Add(v.h, Ep1(v.e)), Ch(v.e, v.f, v.g)), k), w)
  }

  function T2(v: Vars): Word {
    Add(Ep0(v.a), Maj(v.a, v.b, v.c))
  }

  function Round(v: Vars, k: Word, w: Word): Vars {
    Vars(Add(T1(v, k, w), T2(v)), v.a, v.b, v.c, Add(v.d, T1(v, k, w)), v.e, v.f, v.g)
  }

  /** The first `n` rounds on a schedule. */
  function Rounds(v: Vars, w: seq<Word>, n: nat): Vars
    requires n <= |w| && n <= 64
  {
    if n == 0 then v else Round(Rounds(v, w, n - 1), K[n - 1], w[n - 1])
  }

  function VarsOf(h: seq<Word>): Vars
    requires |h| == 8
  {
    Vars(h[0], h[1], h[2], h[3], h[4], h[5], h[6], h[7])
  }

  function AddVars(h: seq<Word>, v: Vars): (r: seq<Word>)
    requires |h| == 8
    ensures |r| == 8
  {
    [Add(h[0], v.a), Add(h[1], v.b), Add(h[2], v.c), Add(h[3], v.d),
     Add(h[4], v.e), Add(h[5], v.f), Add(h[6], v.g), Add(h[7], v.h)]
  }

  /** One block: the intermediate hash value behind it. */
  function Compress(h: seq<Word>, block: seq<byte>): (r: seq<Word>)
    requires |h| == 8 && |block| == BLOCK
    ensures |r| == 8
  {
    AddVars(h, Rounds(VarsOf(h), Schedule(block, 64), 64))
  }

  /** All blocks in order. */
  function HashBlocks(h: seq<Word>, m: seq<byte>): (r: seq<Word>)
    requires |h| == 8 && |m| % BLOCK == 0
    ensures |r| == 8
    decreases |m|
  {
    if m == [] then h else HashBlocks(Compress(h, m[..BLOCK]), m[BLOCK..])
  }

  lemma {:induction false} HashOneMore(h: seq<Word>, m: seq<byte>, block: seq<byte>)
    requires |h| == 8 && |m| % BLOCK == 0 && |block| == BLOCK
    ensures HashBlocks(h, m + block) == Compress(HashBlocks(h, m), block)
    decreases |m|
  {
    hide Compress;
    if m == [] {
      assert m + block == block && block[..BLOCK] == block && block[BLOCK..] == [];
    } else {
      HashOneMore(Compress(h, m[..BLOCK]), m[BLOCK..], block);
      assert (m + block)[..BLOCK] == m[..BLOCK] && (m + block)[BLOCK..] == m[BLOCK..] + block;
    }
  }

  // ---- Section 5.1.1: padding -----------------------------------------------------------

  /** A number as `width` bytes, the highest first; what does not fit is dropped. */
  function BigEndian(n: nat, width: nat): (s: seq<byte>)
    ensures |s| == width
  {
    if width == 0 then [] else BigEndian(n / 256, width - 1) + [(n % 256) as byte]
  }

  function ZeroBytes(length: nat): nat {
    if length % 64 < 56 then 55 - length % 64 else 119 - length % 64
  }

  function Zeros(n: nat): (s: seq<byte>)
    ensures |s| == n
  {
    seq(n, _ => 0)
  }

  lemma PadFits(length: nat)
    ensures (length + 1 + ZeroBytes(length) + 8) % BLOCK == 0
  {
    Divided(length, 64);
    var q := length / 64 + if length % 64 < 56 then 1 else 2;
    DivisionIs(length + 1 + ZeroBytes(length) + 8, 64, q, 0);
  }

  function Pad(m: seq<byte>): (p: seq<byte>)
    ensures |p| % BLOCK == 0
  {
    PadFits(|m|);
    m + [0x80] + Zeros(ZeroBytes(|m|)) + BigEndian(8 * |m|, 8)
  }

  /** The standard's rule in bits: k is the least solution of l + 1 + k = 448 modulo 512. */
  lemma PadIsLeast(length: nat, k: nat)
    ensures (8 * length + 1 + (7 + 8 * ZeroBytes(length))) % 512 == 448
    ensures (8 * length + 1 + k) % 512 == 448 ==> 7 + 8 * ZeroBytes(length) <= k
    ensures 1 <= 1 + ZeroBytes(length) <= 64
  {
    Divided(length, 64);
    var q, r := length / 64, length % 64;
    DivisionIs(8 * length + 1 + (7 + 8 * ZeroBytes(length)), 512, if r < 56 then q else q + 1, 448);
    var t := 8 * r + 1 + k;
    if k < 7 + 8 * ZeroBytes(length) {
      if t < 512 {
        DivisionIs(8 * length + 1 + k, 512, q, t);
      } else {
        DivisionIs(8 * length + 1 + k, 512, q + 1, t - 512);
      }
    }
  }

  function Pow256(n: nat): nat {
    if n == 0 then 1 else 256 * Pow256(n - 1)
  }

  lemma {:induction false} BigEndianDropsHigh(n: nat, k: nat, width: nat)
    ensures BigEndian(n + k * Pow256(width), width) == BigEndian(n, width)
  {
    if width > 0 {
      var high := k * Pow256(width - 1);
      assert k * Pow256(width) == 256 * high;
      Divided(n, 256);
      DivisionIs(n + 256 * high, 256, n / 256 + high, n % 256);
      BigEndianDropsHigh(n / 256, k, width - 1);
    }
  }

  /** The byte at `i` is the number shifted down by the bytes behind it. */
  lemma {:induction false} BigEndianAt(n: nat, width: nat, i: nat)
    requires i < width
    ensures Pow256(width - 1 - i) > 0
    ensures BigEndian(n, width)[i] == (n / Pow256(width - 1 - i) % 256) as byte
  {
    if i < width - 1 {
      BigEndianAt(n / 256, width - 1, i);
      DivDiv(n, 256, Pow256(width - 2 - i));
    }
  }

  lemma {:induction false} BigEndianInjective(m: nat, n: nat, width: nat)
    requires m < Pow256(width) && n < Pow256(width) && BigEndian(m, width) == BigEndian(n, width)
    ensures m == n
  {
    if width > 0 {
      var a, b := BigEndian(m, width), BigEndian(n, width);
      assert a[..width - 1] == BigEndian(m / 256, width - 1) && b[..width - 1] == BigEndian(n / 256, width - 1);
      assert a[width - 1] == (m % 256) as byte && b[width - 1] == (n % 256) as byte;
      Divided(m, 256);
      Divided(n, 256);
      BigEndianInjective(m / 256, n / 256, width - 1);
    }
  }

  /** No two messages within the standard's limit have the same padded form. */
  lemma PadInjective(m: seq<byte>, n: seq<byte>)
    requires |m| < 0x2000_0000_0000_0000 && |n| < 0x2000_0000_0000_0000 && Pad(m) == Pad(n)
    ensures m == n
  {
    var p := Pad(m);
    assert p[|p| - 8..] == BigEndian(8 * |m|, 8) && p[|p| - 8..] == BigEndian(8 * |n|, 8);
    assert Pow256(8) == 0x1_0000_0000_0000_0000;
    BigEndianInjective(8 * |m|, 8 * |n|, 8);
    assert p[..|m|] == m && p[..|n|] == n;
  }

  /** The hash value as bytes. */
  function DigestBytes(h: seq<Word>): (s: seq<byte>)
    ensures |s| == 4 * |h|
  {
    if h == [] then [] else DigestBytes(h[..|h| - 1]) + ToBytes(h[|h| - 1])
  }

  function Sha256(m: seq<byte>): (digest: seq<byte>)
    ensures |digest| == 32
  {
    DigestBytes(HashBlocks(INITIAL, Pad(m)))
  }

  // ---- The streaming context ------------------------------------------------------------

  /** The whole blocks of a message, and what is left of it. */
  function Whole(m: seq<byte>): (s: seq<byte>)
    ensures |s| % BLOCK == 0
  {
    m[..|m| - |m| % BLOCK]
  }

  function Rest(m: seq<byte>): (s: seq<byte>)
    ensures |s| == |m| % BLOCK
  {
    m[|m| - |m| % BLOCK..]
  }

  lemma OneMoreByte(m: seq<byte>, c: byte)
    ensures |m| % BLOCK == 63 ==> Whole(m + [c]) == Whole(m) + (Rest(m) + [c]) && Rest(m + [c]) == []
    ensures |m| % BLOCK != 63 ==> Whole(m + [c]) == Whole(m) && Rest(m + [c]) == Rest(m) + [c]
  {
  }

  lemma NothingLeft(m: seq<byte>)
    requires |m| % BLOCK == 0
    ensures Whole(m) == m
  {
  }

  lemma CountIsLength(n: nat)
    ensures n % COUNT_LIMIT % 64 == n % 64
    ensures (n % COUNT_LIMIT + 1) % COUNT_LIMIT == (n + 1) % COUNT_LIMIT
    ensures (n + 1) % COUNT_LIMIT % 64 == (n + 1) % 64
  {
    LowBits(n);
    LowBits(n + 1);
    Divided(n, COUNT_LIMIT);
    var q, r := n / COUNT_LIMIT, n % COUNT_LIMIT;
    if r + 1 < COUNT_LIMIT {
      DivisionIs(n + 1, COUNT_LIMIT, q, r + 1);
      DivisionIs(r + 1, COUNT_LIMIT, 0, r + 1);
    } else {
      DivisionIs(n + 1, COUNT_LIMIT, q + 1, 0);
      DivisionIs(r + 1, COUNT_LIMIT, 1, 0);
    }
  }

  lemma LowBits(n: nat)
    ensures n % COUNT_LIMIT % 64 == n % 64
  {
    Divided(n, COUNT_LIMIT);
    var q, r := n / COUNT_LIMIT, n % COUNT_LIMIT;
    Divided(r, 64);
    DivisionIs(n, 64, q * (COUNT_LIMIT / 64) + r / 64, r % 64);
  }

  /** The 64-bit length field: eight times the wrapped counter, wrapped again. */
  function LengthField(n: nat): nat {
    n % COUNT_LIMIT * 8 % COUNT_LIMIT
  }

  lemma LengthFieldIs(n: nat) returns (high: nat)
    ensures 8 * n == LengthField(n) + high * COUNT_LIMIT
  {
    Divided(n, COUNT_LIMIT);
    Divided(n % COUNT_LIMIT * 8, COUNT_LIMIT);
    high := 8 * (n / COUNT_LIMIT) + n % COUNT_LIMIT * 8 / COUNT_LIMIT;
  }

  /** What `sha256_final` appends is the padding, whether or not the counter has wrapped. */
  lemma PaddedByParts(m: seq<byte>)
    ensures Pad(m) == m + ([0x80] + Zeros(ZeroBytes(|m|))) + BigEndian(LengthField(|m|), 8)
  {
    hide LengthField, BigEndian, ZeroBytes;
    var high := LengthFieldIs(|m|);
    assert Pow256(8) == COUNT_LIMIT;
    BigEndianDropsHigh(LengthField(|m|), high, 8);
  }

  const COUNT_LIMIT: nat := 0x1_0000_0000_0000_0000

  /** `SHA256_CTX`; `msg` is what has been absorbed so far. */
  class Context {
    const state: array<Word>
    var count: nat
    const buffer: array<byte>
    ghost var msg: seq<byte>

    ghost predicate Shape() {
      state.Length == 8 && buffer.Length == BLOCK
    }

    ghost predicate Valid()
      reads this, state, buffer
    {
      Shape() && count == |msg| % COUNT_LIMIT
      && state[..] == HashBlocks(INITIAL, Whole(msg))
      && buffer[..|msg| % BLOCK] == Rest(msg)
    }

    /** `sha256_init`. */
    constructor ()
      ensures Valid() && fresh(state) && fresh(buffer) && msg == []
    {
      state := new Word[8](i requires 0 <= i < 8 => INITIAL[i]);
      count := 0;
      buffer := new byte[64];
      msg := [];
    }

    /** The message schedule of `sha256_transform`. */
    method ScheduleWords() returns (m: array<Word>)
      requires Shape()
      ensures fresh(m) && m[..] == Schedule(buffer[..], 64)
    {
      hide FromBytes, Add, Sig0, Sig1;
      m := new Word[64];
      for i := 0 to 16
        invariant m[..i] == Schedule(buffer[..], i)
      {
        m[i] := FromBytes(buffer[4 * i], buffer[4 * i + 1], buffer[4 * i + 2], buffer[4 * i + 3]);
      }
      for i := 16 to 64
        invariant m[..i] == Schedule(buffer[..], i)
      {
        m[i] := Add(Add(Add(Sig1(m[i - 2]), m[i - 7]), Sig0(m[i - 15])), m[i - 16]);
      }
      assert m[..] == m[..64];
    }

    /** The rounds of `sha256_transform`. */
    method RunRounds(m: array<Word>) returns (v: Vars)
      requires Shape() && m.Length == 64
      ensures v == Rounds(VarsOf(state[..]), m[..], 64)
    {
      hide Add, Ep0, Ep1, Ch, Maj;
      ghost var start := VarsOf(state[..]);
      var a, b, c, d := state[0], state[1], state[2], state[3];
      var e, f, g, h := state[4], state[5], state[6], state[7];
      assert Vars(a, b, c, d, e, f, g, h) == start;
      for i := 0 to 64
        invariant Vars(a, b, c, d, e, f, g, h) == Rounds(start, m[..], i)
      {
        var t1 := Add(Add(Add(Add(h, Ep1(e)), Ch(e, f, g)), K[i]), m[i]);
        var t2 := Add(Ep0(a), Maj(a, b, c));
        h, g, f := g, f, e;
        e := Add(d, t1);
        d, c, b := c, b, a;
        a := Add(t1, t2);
      }
      v := Vars(a, b, c, d, e, f, g, h);
    }

    /** `sha256_transform`, always of the buffer. */
    method Transform()
      requires Shape()
      modifies state
      ensures state[..] == Compress(old(state[..]), buffer[..])
    {
      hide Schedule, Rounds, AddVars, VarsOf;
      var m := ScheduleWords();
      var v := RunRounds(m);
      AddToState(v);
    }

    method AddToState(v: Vars)
      requires Shape()
      modifies state
      ensures state[..] == AddVars(old(state[..]), v)
    {
      hide Add;
      var sum := AddVars(state[..], v);
      state[0], state[1], state[2], state[3] := sum[0], sum[1], sum[2], sum[3];
      state[4], state[5], state[6], state[7] := sum[4], sum[5], sum[6], sum[7];
    }

    /** The body of the loop of `sha256_update`. */
    method Absorb(c: byte)
      requires Valid()
      modifies this, state, buffer
      ensures Valid() && msg == old(msg) + [c]
    {
      hide HashBlocks, Compress, Whole, Rest;
      OneMoreByte(msg, c);
      CountIsLength(|msg|);
      ghost var n := |msg| % BLOCK;
      buffer[count % 64] := c;
      assert buffer[..n + 1] == Rest(msg) + [c];
      count := (count + 1) % COUNT_LIMIT;
      if count % 64 == 0 {
        assert buffer[..] == buffer[..n + 1];
        HashOneMore(INITIAL, Whole(msg), buffer[..]);
        Transform();
      }
      msg := msg + [c];
    }

    /** `sha256_update`. */
    method Update(data: seq<byte>)
      requires Valid()
      modifies this, state, buffer
      ensures Valid() && msg == old(msg) + data
    {
      hide HashBlocks, Whole, Rest;
      for i := 0 to |data|
        invariant Valid() && msg == old(msg) + data[..i]
      {
        Absorb(data[i]);
      }
    }

    /** `pad_len`: from 1 to 64 bytes, up to the length field. */
    function PadLength(): (n: nat)
      reads this, state, buffer
      requires Valid()
      ensures n == 1 + ZeroBytes(|msg|) && 1 <= n <= 64
    {
      CountIsLength(|msg|);
      if count % 64 < 56 then 56 - count % 64 else 120 - count % 64
    }

    /** `bit_len`. */
    function BitLength(): (n: nat)
      reads this, state, buffer
      requires Valid()
      ensures n == LengthField(|msg|)
    {
      count * 8 % COUNT_LIMIT
    }

    /** The eight shifts of `sha256_final`. */
    method LengthBytes(bitLen: nat) returns (s: seq<byte>)
      ensures s == BigEndian(bitLen, 8)
    {
      s := [];
      for i := 0 to 8
        invariant s == BigEndian(bitLen, 8)[..i]
      {
        BigEndianAt(bitLen, 8, i);
        s := s + [(bitLen / Pow256(7 - i) % 256) as byte];
      }
    }

    /** `sha256_final`. */
    method Final(digest: array<byte>)
      requires Valid() && digest.Length == 32
      modifies this, state, buffer, digest
      ensures digest[..] == Sha256(old(msg))
    {
      hide HashBlocks, DigestBytes, Whole, Rest, Pad, LengthField;
      PaddedByParts(msg);
      var bitLen := BitLength();
      Update([0x80] + Zeros(PadLength() - 1));
      var lenBuf := LengthBytes(bitLen);
      Update(lenBuf);
      NothingLeft(msg);
      WriteDigest(digest);
    }

    method WriteDigest(digest: array<byte>)
      requires Shape() && digest.Length == 32
      modifies digest
      ensures digest[..] == DigestBytes(state[..])
    {
      hide TopByte;
      ghost var h := state[..];
      for i := 0 to 8
        invariant digest[..4 * i] == DigestBytes(h[..i])
      {
        var w := state[i];
        assert h[..i + 1][..i] == h[..i];
        digest[4 * i] := TopByte(w, 24);
        digest[4 * i + 1] := TopByte(w, 16);
        digest[4 * i + 2] := TopByte(w, 8);
        digest[4 * i + 3] := TopByte(w, 0);
      }
      assert h[..8] == h;
    }
  }

  // ---- Any way of feeding a message ---------------------------------------------------------

  function Concat(pieces: seq<seq<byte>>): seq<byte> {
    if pieces == [] then [] else Concat(pieces[..|pieces| - 1]) + pieces[|pieces| - 1]
  }

  /** However a message is cut into updates, the digest is that of the whole message. */
  method DigestOfPieces(pieces: seq<seq<byte>>) returns (digest: array<byte>)
    ensures digest[..] == Sha256(Concat(pieces))
  {
    hide Sha256, HashBlocks, Whole, Rest;
    var context := new Context();
    for i := 0 to |pieces|
      invariant context.Valid() && fresh(context) && fresh(context.state) && fresh(context.buffer)
      invariant context.msg == Concat(pieces[..i])
    {
      assert pieces[..i + 1][..i] == pieces[..i];
      context.Update(pieces[i]);
    }
    assert pieces[..|pieces|] == pieces;
    digest := new byte[32];
    context.Final(digest);
  }
}
