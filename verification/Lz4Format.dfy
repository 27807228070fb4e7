/**
 The LZ4 block format as a sequence of (literals, match) pairs with a literals-only end:
 what a block means (`Expand`), how it is written as bytes (`Emit`), and how the bytes are
 read back (`Decode`).
 */
module Lz4Format {

  import opened Bytes

  const MIN_MATCH := 4
  const MAX_DISTANCE := 65535

  /** `literals`, then `length` bytes copied from `offset` bytes back. */
  datatype Sequence = Sequence(literals: seq<byte>, offset: nat, length: nat)

  /** The sequences of a block and the literals that end it. */
  datatype Block = Block(sequences: seq<Sequence>, last: seq<byte>)

  // ---- Meaning -----------------------------------------------------------------------

  /** Byte-by-byte copy from `offset` back; source and destination may overlap. */
  function CopyMatch(out: seq<byte>, offset: nat, length: nat): (r: seq<byte>)
    requires 1 <= offset <= |out|
    ensures |r| == |out| + length && out <= r
    decreases length
  {
    if length == 0 then out
    else CopyMatch(out + [out[|out| - offset]], offset, length - 1)
  }

  /** The output after a sequence. */
  function After(out: seq<byte>, s: Sequence): (r: seq<byte>)
    requires 1 <= s.offset <= |out| + |s.literals|
    ensures |r| == |out| + |s.literals| + s.length && out <= r
  {
    CopyMatch(out + s.literals, s.offset, s.length)
  }

  /** The offsets of all sequences stay inside what has been written before them. */
  predicate WellFormed(out: seq<byte>, ss: seq<Sequence>)
    decreases |ss|
  {
    ss == [] ||
    (&& 1 <= ss[0].offset <= MAX_DISTANCE
     && ss[0].offset <= |out| + |ss[0].literals|
     && MIN_MATCH <= ss[0].length
     && WellFormed(After(out, ss[0]), ss[1..]))
  }

  function ExpandFrom(out: seq<byte>, ss: seq<Sequence>): (r: seq<byte>)
    requires WellFormed(out, ss)
    ensures out <= r
    decreases |ss|
  {
    if ss == [] then out
    else ExpandFrom(After(out, ss[0]), ss[1..])
  }

  predicate Valid(b: Block) {
    WellFormed([], b.sequences)
  }

  /** The bytes a block stands for. */
  function Expand(b: Block): seq<byte>
    requires Valid(b)
  {
    ExpandFrom([], b.sequences) + b.last
  }

  // ---- Bytes -------------------------------------------------------------------------

  function Nibble(n: nat): (r: nat)
    ensures r <= 15
  {
    if n < 15 then n else 15
  }

  /** `n` as a run of 255 bytes and a final smaller byte. */
  function Runs(n: nat): (s: seq<byte>)
    ensures |s| == n / 255 + 1
  {
    if n < 255 then [n as byte] else [255] + Runs(n - 255)
  }

  /** The extension bytes of a length whose nibble is `Nibble(n)`. */
  function Extension(n: nat): (s: seq<byte>)
    ensures |s| == if n < 15 then 0 else (n - 15) / 255 + 1
  {
    if n < 15 then [] else Runs(n - 15)
  }

  function Token(literals: nat, match_: nat): byte {
    (Nibble(literals) * 16 + Nibble(match_)) as byte
  }

  function OffsetBytes(offset: nat): (s: seq<byte>)
    requires offset <= MAX_DISTANCE
    ensures |s| == 2
  {
    [(offset % 256) as byte, (offset / 256) as byte]
  }

  predicate Encodable(s: Sequence) {
    1 <= s.offset <= MAX_DISTANCE && MIN_MATCH <= s.length
  }

  /** Token, length extension and literals. */
  function EmitLiterals(literals: seq<byte>, match_: nat): seq<byte> {
    [Token(|literals|, match_)] + Extension(|literals|) + literals
  }

  /** Offset and length extension. */
  function EmitMatch(offset: nat, match_: nat): (s: seq<byte>)
    requires offset <= MAX_DISTANCE
    ensures |s| >= 2
  {
    OffsetBytes(offset) + Extension(match_)
  }

  function EmitSequence(s: Sequence): seq<byte>
    requires Encodable(s)
  {
    EmitLiterals(s.literals, s.length - MIN_MATCH) + EmitMatch(s.offset, s.length - MIN_MATCH)
  }

  predicate AllEncodable(ss: seq<Sequence>) {
    forall i :: 0 <= i < |ss| ==> Encodable(ss[i])
  }

  function EmitSequences(ss: seq<Sequence>): seq<byte>
    requires AllEncodable(ss)
  {
    if ss == [] then [] else EmitSequence(ss[0]) + EmitSequences(ss[1..])
  }

  function EmitLast(last: seq<byte>): seq<byte> {
    if last == [] then [] else EmitLiterals(last, 0)
  }

  function Emit(b: Block): seq<byte>
    requires AllEncodable(b.sequences)
  {
    EmitSequences(b.sequences) + EmitLast(b.last)
  }

  lemma {:induction false} ValidIsEncodable(out: seq<byte>, ss: seq<Sequence>)
    requires WellFormed(out, ss)
    ensures AllEncodable(ss)
    decreases |ss|
  {
    if ss != [] {
      ValidIsEncodable(After(out, ss[0]), ss[1..]);
      assert ss == [ss[0]] + ss[1..];
    }
  }

  // ---- Decoding ----------------------------------------------------------------------

  /**
   The outcome of decoding into a buffer of a given size.  `OutOfInput` stands for a read past
   the end of the input, which the C code does not check in its extension loops.
   */
  datatype Decoded = OutOfInput | Rejected | Done(out: seq<byte>)

  datatype Length = NoLength | Length(value: nat, next: nat)

  /** Adds extension bytes to `n`, from `ip` on, up to the first byte below 255. */
  function ReadRuns(src: seq<byte>, ip: nat, n: nat): (r: Length)
    requires ip <= |src|
    ensures r.Length? ==> ip < r.next <= |src|
    decreases |src| - ip
  {
    if ip == |src| then NoLength
    else if src[ip] == 255 then ReadRuns(src, ip + 1, n + 255)
    else Length(n + src[ip] as int, ip + 1)
  }

  function ReadLength(src: seq<byte>, ip: nat, nibble: nat, base: nat): (r: Length)
    requires ip <= |src|
    ensures r.Length? ==> ip <= r.next <= |src|
  {
    if nibble == 15 then ReadRuns(src, ip, base + 15) else Length(base + nibble, ip)
  }

  /** Copying inside the output buffer; offset 0 leaves the bytes the buffer already holds. */
  function CopyInBuffer(out: seq<byte>, offset: nat, length: nat, buffer: seq<byte>): (r: seq<byte>)
    requires offset <= |out| && |out| + length <= |buffer|
    ensures |r| == |out| + length
  {
    if offset == 0 then out + buffer[|out|..|out| + length] else CopyMatch(out, offset, length)
  }

  function HighNibble(token: byte): nat {
    token as int / 16
  }

  function LowNibble(token: byte): nat {
    token as int % 16
  }

  /** One turn of the decoding loop: it ends, or goes on from `ip` with more output. */
  datatype Turn = Stop(result: Decoded) | Continue(ip: nat, out: seq<byte>)

  /** The literals announced by the token at `ip`. */
  function TakeLiterals(src: seq<byte>, ip: nat, out: seq<byte>, size: nat): (r: Turn)
    requires ip < |src| && |out| <= size
    ensures r.Continue? ==> ip < r.ip <= |src| && |r.out| <= size
    ensures r.Stop? ==> !r.result.Done?
  {
    match ReadLength(src, ip + 1, HighNibble(src[ip]), 0)
    case NoLength => Stop(OutOfInput)
    case Length(lit, at) =>
      if at + lit > |src| || |out| + lit > size then Stop(Rejected)
      else Continue(at + lit, out + src[at..at + lit])
  }

  /** The match whose offset is at `ip` and whose length has the given nibble. */
  function TakeMatch(src: seq<byte>, ip: nat, nibble: nat, out: seq<byte>, buffer: seq<byte>): (r: Turn)
    requires ip <= |src| && |out| <= |buffer|
    ensures r.Continue? ==> ip < r.ip <= |src| && |r.out| <= |buffer|
    ensures r.Stop? ==> !r.result.Done?
  {
    if ip + 2 > |src| then Stop(Rejected)
    else
      var offset := src[ip] as int + 256 * src[ip + 1] as int;
      match ReadLength(src, ip + 2, nibble, MIN_MATCH)
      case NoLength => Stop(OutOfInput)
      case Length(len, next) =>
        if offset > |out| || |out| + len > |buffer| then Stop(Rejected)
        else Continue(next, CopyInBuffer(out, offset, len, buffer))
  }

  function DecodeTurn(src: seq<byte>, ip: nat, out: seq<byte>, buffer: seq<byte>): (r: Turn)
    requires ip < |src| && |out| <= |buffer|
    ensures r.Continue? ==> ip < r.ip <= |src| && |r.out| <= |buffer|
    ensures r.Stop? && r.result.Done? ==> |r.result.out| <= |buffer|
  {
    match TakeLiterals(src, ip, out, |buffer|)
    case Stop(result) => Stop(result)
    case Continue(ip', out') =>
      if ip' == |src| then Stop(Done(out'))
      else TakeMatch(src, ip', LowNibble(src[ip]), out', buffer)
  }

  /**
   `lr_lz4_decompress` from input position `ip` with `out` already written: `buffer` is what the
   output buffer held at the start, and its length is `dst_len`.
   */
  function Decode(src: seq<byte>, ip: nat, out: seq<byte>, buffer: seq<byte>): (r: Decoded)
    requires ip <= |src| && |out| <= |buffer|
    ensures r.Done? ==> |r.out| <= |buffer|
    decreases |src| - ip
  {
    if ip == |src| then Done(out)
    else
      match DecodeTurn(src, ip, out, buffer)
      case Stop(result) => result
      case Continue(ip', out') => Decode(src, ip', out', buffer)
  }

  // ---- Reading back what was written ----------------------------------------------------

  lemma {:induction false} RunsReadBack(src: seq<byte>, ip: nat, n: nat, base: nat)
    requires At(src, ip, Runs(n))
    ensures ReadRuns(src, ip, base) == Length(base + n, ip + |Runs(n)|)
    decreases n
  {
    AtFirst(src, ip, Runs(n));
    if n >= 255 {
      AtSplit(src, ip, [255], Runs(n - 255));
      RunsReadBack(src, ip + 1, n - 255, base + 255);
    }
  }

  lemma ExtensionReadBack(src: seq<byte>, ip: nat, n: nat, base: nat)
    requires At(src, ip, Extension(n))
    ensures ReadLength(src, ip, Nibble(n), base) == Length(base + n, ip + |Extension(n)|)
  {
    if n >= 15 {
      RunsReadBack(src, ip, n - 15, base + 15);
    }
  }

  lemma TokenSplit(lit: nat, len: nat)
    ensures HighNibble(Token(lit, len)) == Nibble(lit) && LowNibble(Token(lit, len)) == Nibble(len)
  {
  }

  /** The token and the literals of a sequence. */
  lemma LiteralsReadBack(src: seq<byte>, ip: nat, literals: seq<byte>, len: nat, out: seq<byte>, size: nat)
    requires At(src, ip, EmitLiterals(literals, len)) && |out| + |literals| <= size
    ensures ip < |src| && LowNibble(src[ip]) == Nibble(len)
    ensures TakeLiterals(src, ip, out, size) == Continue(ip + |EmitLiterals(literals, len)|, out + literals)
  {
    hide Extension, ReadLength, Nibble, Token, HighNibble, LowNibble;
    var t, e := [Token(|literals|, len)], Extension(|literals|);
    TokenSplit(|literals|, len);
    AtSplit(src, ip, t + e, literals);
    AtSplit(src, ip, t, e);
    AtFirst(src, ip, t);
    ExtensionReadBack(src, ip + 1, |literals|, 0);
  }

  /** The offset and the extension of a match length. */
  lemma MatchReadBack(src: seq<byte>, ip: nat, offset: nat, len: nat, out: seq<byte>, buffer: seq<byte>)
    requires 1 <= offset <= MAX_DISTANCE && offset <= |out| && |out| + MIN_MATCH + len <= |buffer|
    requires At(src, ip, EmitMatch(offset, len))
    ensures TakeMatch(src, ip, Nibble(len), out, buffer)
         == Continue(ip + |EmitMatch(offset, len)|, CopyInBuffer(out, offset, MIN_MATCH + len, buffer))
  {
    hide Extension, ReadLength, Nibble, CopyInBuffer;
    AtSplit(src, ip, OffsetBytes(offset), Extension(len));
    AtFirst(src, ip, OffsetBytes(offset));
    ExtensionReadBack(src, ip + 2, len, MIN_MATCH);
  }

  /** Decoding one emitted sequence performs it and goes on behind it. */
  lemma SequenceReadBack(src: seq<byte>, ip: nat, s: Sequence, out: seq<byte>, buffer: seq<byte>)
    requires Encodable(s) && s.offset <= |out| + |s.literals|
    requires |out| + |s.literals| + s.length <= |buffer|
    requires At(src, ip, EmitSequence(s))
    ensures ip < |src|
    ensures DecodeTurn(src, ip, out, buffer) == Continue(ip + |EmitSequence(s)|, After(out, s))
  {
    hide CopyInBuffer, EmitLiterals, EmitMatch, TakeLiterals, TakeMatch, Nibble, LowNibble, At, After;
    var len := s.length - MIN_MATCH;
    var head, tail, out' := EmitLiterals(s.literals, len), EmitMatch(s.offset, len), out + s.literals;
    AtSplit(src, ip, head, tail);
    LiteralsReadBack(src, ip, s.literals, len, out, |buffer|);
    MatchReadBack(src, ip + |head|, s.offset, len, out', buffer);
    AtBounds(src, ip + |head|, tail);
    CopyIsAfter(out, s, buffer);
  }

  lemma CopyIsAfter(out: seq<byte>, s: Sequence, buffer: seq<byte>)
    requires 1 <= s.offset <= |out| + |s.literals| && |out| + |s.literals| + s.length <= |buffer|
    ensures CopyInBuffer(out + s.literals, s.offset, s.length, buffer) == After(out, s)
  {
  }

  /** Decoding the closing literals appends them and ends. */
  lemma LastReadBack(src: seq<byte>, ip: nat, last: seq<byte>, out: seq<byte>, buffer: seq<byte>)
    requires |out| + |last| <= |buffer| && last != []
    requires At(src, ip, EmitLast(last)) && ip + |EmitLast(last)| == |src|
    ensures ip < |src|
    ensures DecodeTurn(src, ip, out, buffer) == Stop(Done(out + last))
  {
    hide EmitLiterals, TakeLiterals, Nibble;
    LiteralsReadBack(src, ip, last, 0, out, |buffer|);
  }

  lemma {:induction false} ReadBackFrom(src: seq<byte>, ip: nat, ss: seq<Sequence>, last: seq<byte>,
                                        out: seq<byte>, buffer: seq<byte>)
    requires AllEncodable(ss) && WellFormed(out, ss)
    requires |ExpandFrom(out, ss)| + |last| <= |buffer|
    requires At(src, ip, EmitSequences(ss) + EmitLast(last))
    requires ip + |EmitSequences(ss) + EmitLast(last)| == |src|
    ensures Decode(src, ip, out, buffer) == Done(ExpandFrom(out, ss) + last)
    decreases |ss|
  {
    hide DecodeTurn, EmitSequence, Encodable, After, At;
    if ss == [] {
      assert EmitSequences(ss) + EmitLast(last) == EmitLast(last);
      if last != [] {
        LastReadBack(src, ip, last, out, buffer);
      }
    } else {
      var s := ss[0];
      assert Encodable(s);
      var rest := EmitSequences(ss[1..]) + EmitLast(last);
      assert EmitSequences(ss) + EmitLast(last) == EmitSequence(s) + rest;
      AtSplit(src, ip, EmitSequence(s), rest);
      SequenceReadBack(src, ip, s, out, buffer);
      ReadBackFrom(src, ip + |EmitSequence(s)|, ss[1..], last, After(out, s), buffer);
    }
  }

  /** Decoding what a valid block is written as gives exactly the bytes it stands for. */
  lemma EmitThenDecode(b: Block, buffer: seq<byte>)
    requires Valid(b) && |Expand(b)| <= |buffer|
    ensures AllEncodable(b.sequences)
    ensures Decode(Emit(b), 0, [], buffer) == Done(Expand(b))
  {
    ValidIsEncodable([], b.sequences);
    ReadBackFrom(Emit(b), 0, b.sequences, b.last, [], buffer);
  }

  // ---- Extending a block, and its size ----------------------------------------------------

  lemma {:induction false} AppendSequence(out: seq<byte>, ss: seq<Sequence>, s: Sequence)
    requires WellFormed(out, ss) && Encodable(s)
    requires s.offset <= |ExpandFrom(out, ss)| + |s.literals|
    ensures WellFormed(out, ss + [s])
    ensures ExpandFrom(out, ss + [s]) == After(ExpandFrom(out, ss), s)
    decreases |ss|
  {
    hide After;
    if ss == [] {
      assert ss + [s] == [s];
      assert WellFormed(After(out, s), []);
    } else {
      AppendSequence(After(out, ss[0]), ss[1..], s);
      assert (ss + [s])[0] == ss[0] && (ss + [s])[1..] == ss[1..] + [s];
    }
  }

  lemma {:induction false} EmitAppended(ss: seq<Sequence>, s: Sequence)
    requires AllEncodable(ss) && Encodable(s)
    ensures AllEncodable(ss + [s])
    ensures EmitSequences(ss + [s]) == EmitSequences(ss) + EmitSequence(s)
  {
    hide EmitSequence, Encodable;
    if ss == [] {
      assert ss + [s] == [s];
      assert EmitSequences([s]) == EmitSequence(s) + EmitSequences([]);
    } else {
      EmitAppended(ss[1..], s);
      assert (ss + [s])[0] == ss[0] && (ss + [s])[1..] == ss[1..] + [s];
    }
  }

  /** A sequence is written in no more bytes than it stands for, but for its literal runs. */
  lemma SequenceSize(s: Sequence)
    requires Encodable(s)
    ensures |EmitSequence(s)| <= |s.literals| + s.length + |s.literals| / 255
  {
  }

  /** The literals before a match fit even before the extension bytes are counted. */
  lemma LiteralsSize(literals: seq<byte>, match_: nat)
    ensures 1 <= |EmitLiterals(literals, match_)| <= |literals| + 2 + |literals| / 255
  {
  }

  /** The high nibble counts the literals; lengths go on in bytes; offsets are little-endian. */
  lemma WrittenBytes()
    ensures Token(3, 0) == 0x30 && Token(0, 3) == 0x03 && Token(15, 270) == 0xFF
    ensures Extension(14) == [] && Extension(15) == [0] && Extension(269) == [254] && Extension(270) == [255, 0]
    ensures OffsetBytes(0x1234) == [0x34, 0x12] && OffsetBytes(65535) == [0xFF, 0xFF]
    ensures MIN_MATCH == 4 && MAX_DISTANCE == 65535
  {
  }
}
