/**
 `lr_lz4_compress` and `lr_lz4_decompress` over byte arrays, and the round trip.
 */
module Lz4Codec {
  import opened Bytes
  import opened Lz4Format
  import opened Lz4Finder

  /** `LR_LZ4_COMPRESS_BOUND`. */
  function CompressBound(n: nat): nat {
    n + n / 255 + 16
  }

  // ---- Writing the parts of a sequence --------------------------------------------------

  method PutRuns(dst: array<byte>, op: nat, n: nat) returns (op': nat)
    requires op + n / 255 + 1 <= dst.Length
    modifies dst
    ensures op' == op + |Runs(n)| <= dst.Length
    ensures dst[..op'] == old(dst[..op]) + Runs(n)
  {
    op' := op;
    var rest := n;
    while rest >= 255
      invariant op' + rest / 255 + 1 == op + n / 255 + 1
      invariant op <= op' < dst.Length
      invariant dst[..op'] + Runs(rest) == old(dst[..op]) + Runs(n)
      decreases rest
    {
      dst[op'] := 255;
      op' := op' + 1;
      rest := rest - 255;
    }
    dst[op'] := rest as byte;
    op' := op' + 1;
  }

  method PutBytes(dst: array<byte>, op: nat, src: array<byte>, from: nat, n: nat) returns (op': nat)
    requires src != dst && from + n <= src.Length && op + n <= dst.Length
    modifies dst
    ensures op' == op + n
    ensures dst[..op'] == old(dst[..op]) + src[from..from + n]
  {
    for i := 0 to n
      invariant dst[..op + i] == old(dst[..op]) + src[from..from + i]
    {
      dst[op + i] := src[from + i];
    }
    op' := op + n;
  }

  /** Token with an empty low nibble, and the literal-length extension. */
  method PutLength(dst: array<byte>, op: nat, n: nat) returns (op': nat)
    requires op + 1 + |Extension(n)| <= dst.Length
    modifies dst
    ensures op' == op + 1 + |Extension(n)|
    ensures dst[..op'] == old(dst[..op]) + ([Token(n, 0)] + Extension(n))
  {
    hide Runs;
    ghost var before := dst[..op];
    dst[op] := if n >= 15 then (15 * 16) as byte else (n * 16) as byte;
    op' := op + 1;
    assert dst[..op'] == before + [Token(n, 0)];
    if n >= 15 {
      op' := PutRuns(dst, op', n - 15);
    }
  }

  /** A length and the literals from `anchor` on. */
  method PutLiterals(dst: array<byte>, op: nat, src: array<byte>, anchor: nat, n: nat) returns (op': nat)
    requires src != dst && anchor + n <= src.Length
    requires op + |EmitLiterals(src[anchor..anchor + n], 0)| <= dst.Length
    modifies dst
    ensures op' == op + |EmitLiterals(src[anchor..anchor + n], 0)|
    ensures dst[..op'] == old(dst[..op]) + EmitLiterals(src[anchor..anchor + n], 0)
  {
    hide Token, Extension;
    op' := PutLength(dst, op, n);
    op' := PutBytes(dst, op', src, anchor, n);
  }

  method PutOffset(dst: array<byte>, op: nat, offset: nat) returns (op': nat)
    requires offset <= MAX_DISTANCE && op + 2 <= dst.Length
    modifies dst
    ensures op' == op + 2
    ensures dst[..op'] == old(dst[..op]) + OffsetBytes(offset)
  {
    dst[op] := (offset % 256) as byte;
    dst[op + 1] := (offset / 256) as byte;
    op' := op + 2;
  }

  /** Puts `nibble` into a token whose low nibble is still empty, so the C code's `|=` adds. */
  method OrToken(dst: array<byte>, tokenAt: nat, nibble: nat)
    requires tokenAt < dst.Length && dst[tokenAt] as int + nibble < 256
    modifies dst
    ensures dst[..] == old(dst[..])[tokenAt := (old(dst[tokenAt]) as int + nibble) as byte]
  {
    dst[tokenAt] := (dst[tokenAt] as int + nibble) as byte;
  }

  /**
   The match of a sequence whose literals stand behind `before`: the offset, the length nibble
   in the token already written at `tokenAt`, and the length extension.
   */
  method PutMatch(dst: array<byte>, tokenAt: nat, op: nat, ghost before: seq<byte>, ghost literals: seq<byte>,
                  offset: nat, length: nat)
    returns (op': nat)
    requires 1 <= offset <= MAX_DISTANCE && MIN_MATCH <= length
    requires op + |EmitMatch(offset, length - MIN_MATCH)| <= dst.Length
    requires tokenAt == |before|
    requires dst[..op] == before + EmitLiterals(literals, 0)
    modifies dst
    ensures op' == op + |EmitMatch(offset, length - MIN_MATCH)|
    ensures dst[..op'] == before + EmitSequence(Sequence(literals, offset, length))
  {
    hide EmitLiterals, OffsetBytes, Extension, Runs;
    var n := length - MIN_MATCH;
    op' := PutOffset(dst, op, offset);
    PutNibble(dst, tokenAt, op', before, literals, OffsetBytes(offset), n);
    if n >= 15 {
      op' := PutRuns(dst, op', n - 15);
    }
    ExtensionIs(n);
    Parts(before, EmitLiterals(literals, n), OffsetBytes(offset), Extension(n));
  }

  lemma ExtensionIs(n: nat)
    ensures Extension(n) == if n < 15 then [] else Runs(n - 15)
  {
  }

  lemma Parts(before: seq<byte>, a: seq<byte>, b: seq<byte>, c: seq<byte>)
    ensures before + a + b + c == before + (a + (b + c))
    ensures c == [] ==> before + a + b == before + (a + (b + c))
  {
  }

  /** The length nibble, once literals and offset are there. */
  method PutNibble(dst: array<byte>, tokenAt: nat, op: nat, ghost before: seq<byte>, ghost literals: seq<byte>,
                   ghost tail: seq<byte>, n: nat)
    requires tokenAt == |before| && op <= dst.Length
    requires dst[..op] == before + EmitLiterals(literals, 0) + tail
    modifies dst
    ensures dst[..op] == before + EmitLiterals(literals, n) + tail
  {
    hide EmitLiterals, Nibble;
    NibbleOf(n);
    PatchToken(before, literals, tail, n);
    ghost var was := dst[..op];
    assert dst[tokenAt] == was[tokenAt];
    OrToken(dst, tokenAt, if n < 15 then n else 15);
    assert dst[..op] == was[tokenAt := (was[tokenAt] as int + Nibble(n)) as byte];
  }

  lemma NibbleOf(n: nat)
    ensures Nibble(n) == if n < 15 then n else 15
  {
  }

  lemma PatchToken(before: seq<byte>, literals: seq<byte>, tail: seq<byte>, n: nat)
    ensures var written := before + EmitLiterals(literals, 0) + tail;
      && |before| < |written|
      && written[|before|] as int + Nibble(n) < 256
      && written[|before| := (written[|before|] as int + Nibble(n)) as byte]
         == before + EmitLiterals(literals, n) + tail
  {
    hide Extension;
    var e := Extension(|literals|) + literals;
    assert EmitLiterals(literals, 0) == [Token(|literals|, 0)] + e;
    assert EmitLiterals(literals, n) == [Token(|literals|, n)] + e;
  }

  // ---- Compression ---------------------------------------------------------------------

  /** Sequences `ss` stand for the input up to `anchor`, and `written` is how they are written. */
  ghost predicate Progress(input: seq<byte>, anchor: nat, ss: seq<Sequence>, written: seq<byte>) {
    && anchor <= |input|
    && AllEncodable(ss)
    && WellFormed([], ss)
    && ExpandFrom([], ss) == input[..anchor]
    && written == EmitSequences(ss)
    && |written| <= anchor + anchor / 255
  }

  /** Copying from an earlier equal region reproduces the input, even when the regions overlap. */
  lemma {:induction false} CopyReproduces(input: seq<byte>, offset: nat, ip: nat, length: nat)
    requires 1 <= offset && Repeats(input, offset, ip, ip + length)
    ensures CopyMatch(input[..ip], offset, length) == input[..ip + length]
    decreases length
  {
    if length > 0 {
      assert input[..ip] + [input[ip - offset]] == input[..ip + 1];
      CopyReproduces(input, offset, ip + 1, length - 1);
    }
  }

  /** Emitting a found match carries the progress to its end. */
  lemma ProgressByMatch(input: seq<byte>, anchor: nat, ss: seq<Sequence>, written: seq<byte>,
                        offset: nat, ip: nat, length: nat)
    requires Progress(input, anchor, ss, written)
    requires anchor <= ip && 1 <= offset <= MAX_DISTANCE && MIN_MATCH <= length
    requires Repeats(input, offset, ip, ip + length)
    ensures var s := Sequence(input[anchor..ip], offset, length);
      Encodable(s) && Progress(input, ip + length, ss + [s], written + EmitSequence(s))
  {
    hide EmitSequence, EmitSequences, WellFormed, ExpandFrom, CopyMatch, AllEncodable;
    var s := Sequence(input[anchor..ip], offset, length);
    assert input[..anchor] + s.literals == input[..ip];
    AppendSequence([], ss, s);
    EmitAppended(ss, s);
    SequenceSize(s);
    CopyReproduces(input, offset, ip, length);
    FloorsAdd(anchor, |s.literals|);
  }

  lemma FloorsAdd(a: nat, b: nat)
    ensures a / 255 + b / 255 <= (a + b) / 255
  {
  }

  /**
   How far the match goes: not past `ip` in the source, so that it is no longer than its offset
   unless it is a shortest one.
   */
  method ExtendMatch(src: array<byte>, ip: nat, from: nat) returns (end: nat)
    requires from < ip && ip + 5 < src.Length
    requires Repeats(src[..], ip - from, ip, ip + MIN_MATCH)
    ensures end == MatchEnd(src[..], ip, from, ip + MIN_MATCH)
    ensures ip + MIN_MATCH <= end <= src.Length - 2
    ensures Repeats(src[..], ip - from, ip, end)
    ensures end - ip <= if ip - from > MIN_MATCH then ip - from else MIN_MATCH
  {
    MatchEndIs(src[..], ip, from, ip + MIN_MATCH);
    end := ip + MIN_MATCH;
    var source := from + MIN_MATCH;
    while end < src.Length - MIN_MATCH && source < ip && src[end] == src[source]
      invariant ip + MIN_MATCH <= end <= src.Length && source == from + (end - ip)
      invariant MatchEnd(src[..], ip, from, end) == MatchEnd(src[..], ip, from, ip + MIN_MATCH)
      decreases src.Length - end
    {
      end := end + 1;
      source := source + 1;
    }
  }

  /** Writes the sequence that ends with the match `[ip, end)`; its size check cannot fail. */
  method PutSequence(src: array<byte>, dst: array<byte>, at: nat, op: nat, anchor: nat, ip: nat, from: nat, end: nat,
                     ghost ss: seq<Sequence>)
    returns (op': nat, ghost ss': seq<Sequence>)
    requires src != dst && dst.Length >= at + CompressBound(src.Length) && at <= op <= dst.Length
    requires Progress(src[..], anchor, ss, dst[at..op])
    requires anchor <= ip && from < ip && ip - from <= MAX_DISTANCE && ip + MIN_MATCH <= end
    requires Repeats(src[..], ip - from, ip, end)
    modifies dst
    ensures ss' == ss + [Sequence(src[..][anchor..ip], ip - from, end - ip)]
    ensures at <= op' <= dst.Length && Progress(src[..], end, ss', dst[at..op'])
  {
    hide EmitSequence, EmitLiterals, EmitMatch, Encodable, CopyMatch;
    ghost var s := Sequence(src[..][anchor..ip], ip - from, end - ip);
    ghost var before := dst[at..op];
    ghost var prefix := dst[..op];
    assert prefix == prefix[..at] + before;
    ProgressByMatch(src[..], anchor, ss, before, ip - from, ip, end - ip);
    assert Progress(src[..], end, ss + [s], before + EmitSequence(s));
    PartSizes(s);
    assert s.literals == src[anchor..anchor + (ip - anchor)];
    if op + 1 + (ip - anchor) > at + CompressBound(src.Length) {
      assert false;
    }
    op' := PutLiterals(dst, op, src, anchor, ip - anchor);
    op' := PutMatch(dst, op, op', prefix, s.literals, ip - from, end - ip);
    assert dst[at..op'] == dst[..op'][at..];
    ss' := ss + [s];
  }

  /** Writes the literals after the last match; its size check cannot fail either. */
  method PutLast(src: array<byte>, dst: array<byte>, at: nat, op: nat, anchor: nat, ghost ss: seq<Sequence>)
    returns (op': nat, ghost block: Block)
    requires src != dst && dst.Length >= at + CompressBound(src.Length) && at <= op <= dst.Length
    requires Progress(src[..], anchor, ss, dst[at..op])
    requires anchor + 2 <= src.Length
    modifies dst
    ensures at < op' <= at + src.Length + src.Length / 255 + 2 && op' <= dst.Length
    ensures block == Block(ss, src[..][anchor..])
    ensures Valid(block) && AllEncodable(block.sequences) && |block.last| >= 2
    ensures Expand(block) == src[..]
    ensures dst[at..op'] == Emit(block)
  {
    hide EmitSequences, WellFormed, ExpandFrom, AllEncodable, EmitLiterals;
    var litLen := src.Length - anchor;
    ghost var last := src[anchor..];
    assert src[anchor..anchor + litLen] == last;
    assert src[..] == src[..][..anchor] + last;
    LiteralsSize(last, 0);
    FloorsAdd(anchor, litLen);
    if op + 1 + litLen > at + CompressBound(src.Length) {
      assert false;
    }
    ghost var prefix := dst[..op];
    assert prefix == prefix[..at] + dst[at..op];
    op' := PutLiterals(dst, op, src, anchor, litLen);
    assert dst[at..op'] == dst[..op'][at..];
    block := Block(ss, last);
  }

  /**
   `lr_lz4_compress`.  The output is the block of what the match finder finds; it stands for the
   input, ends in at least two literals, and is at most `n + n / 255 + 2` bytes long: neither of the
   two size checks can fail.  The block is written from position `at` of the output buffer on.
   */
  method Compress(src: array<byte>, dst: array<byte>, at: nat) returns (size: nat, ghost block: Block)
    requires src != dst && src.Length < 0x8000_0000 && dst.Length >= at + CompressBound(src.Length)
    modifies dst
    ensures src.Length < MIN_MATCH ==> size == 0
    ensures src.Length >= MIN_MATCH ==>
      && block == Found(src[..])
      && 0 < size <= src.Length + src.Length / 255 + 2
      && Valid(block) && AllEncodable(block.sequences) && |block.last| >= 2
      && Expand(block) == src[..]
      && at + size <= dst.Length && dst[at..at + size] == Emit(block)
  {
    hide Progress, Emit, Expand, Valid, AllEncodable, Found, FindAll, FinderStep, MatchEnd, Hash, Repeats;
    block := Block([], []);
    if src.Length < MIN_MATCH {
      return 0, block;
    }
    var table := new int[HASH_SIZE](_ => -1);
    var n := src.Length;
    ghost var ss: seq<Sequence> := [];
    var ip: nat, anchor: nat, op: nat := 0, 0, at;
    var step: nat, searches: nat := 1, 1;
    NoProgressYet(src[..]);
    assert dst[at..op] == [];
    ghost var f := NothingYet();
    assert table[..] == EmptyTable();
    while ip + LAST_LITERALS < n
      invariant f == Finder(ip, anchor, table[..], step, searches, ss) && FinderOk(src[..], f)
      invariant FindAll(src[..], f) == FindAll(src[..], NothingYet())
      invariant at <= op <= dst.Length && Progress(src[..], anchor, ss, dst[at..op])
      decreases n - ip
    {
      var h := Hash(src[ip], src[ip + 1], src[ip + 2], src[ip + 3]);
      var from := table[h];
      assert h == Slot(src[..], ip);
      table[h] := ip;
      if from >= 0 && ip - from <= MAX_DISTANCE
        && src[ip] == src[from] && src[ip + 1] == src[from + 1]
        && src[ip + 2] == src[from + 2] && src[ip + 3] == src[from + 3]
      {
        MatchRepeats(src[..], ip, from);
        var end := ExtendMatch(src, ip, from);
        FollowMatch(src[..], f, from, end);
        op, ss := PutSequence(src, dst, at, op, anchor, ip, from, end, ss);
        step := end - ip;
        searches := 0;
        ip := end;
        anchor := end;
      } else {
        FollowMiss(src[..], f);
        ip := ip + step;
        searches := searches + 1;
        step := searches / 2 + 1;
      }
      FollowStep(src[..], f);
      f := FinderStep(src[..], f);
    }
    FollowEnd(src[..], f);
    op, block := PutLast(src, dst, at, op, anchor, ss);
    size := op - at;
  }

  /** The nibble of the match does not change the size of the literals. */
  lemma PartSizes(s: Sequence)
    requires Encodable(s)
    ensures |EmitSequence(s)| == |EmitLiterals(s.literals, 0)| + |EmitMatch(s.offset, s.length - MIN_MATCH)|
  {
  }

  lemma NoProgressYet(input: seq<byte>)
    ensures Progress(input, 0, [], [])
  {
  }

  // ---- Decompression -------------------------------------------------------------------

  /** What the C function returns, or that it read past the end of its input first. */
  datatype Outcome = ReadPastEnd | Size(n: nat)

  method ReadExtension(src: seq<byte>, ip: nat, n: nat) returns (r: Length)
    requires ip <= |src|
    ensures r == ReadRuns(src, ip, n)
  {
    var at: nat, total: nat := ip, n;
    while at < |src| && src[at] == 255
      invariant ip <= at <= |src|
      invariant ReadRuns(src, at, total) == ReadRuns(src, ip, n)
    {
      total := total + 255;
      at := at + 1;
    }
    r := if at == |src| then NoLength else Length(total + src[at] as int, at + 1);
  }

  method ReadLengthOf(src: seq<byte>, ip: nat, nibble: nat, base: nat) returns (r: Length)
    requires ip <= |src|
    ensures r == ReadLength(src, ip, nibble, base)
  {
    if nibble == 15 {
      r := ReadExtension(src, ip, base + 15);
    } else {
      r := Length(base + nibble, ip);
    }
  }

  method CopyLiterals(dst: array<byte>, op: nat, literals: seq<byte>)
    requires op + |literals| <= dst.Length
    modifies dst
    ensures dst[..op + |literals|] == old(dst[..op]) + literals
    ensures dst[op + |literals|..] == old(dst[op + |literals|..])
  {
    for i := 0 to |literals|
      invariant dst[..op + i] == old(dst[..op]) + literals[..i]
      invariant dst[op + i..] == old(dst[op + i..])
    {
      dst[op + i] := literals[i];
    }
  }

  lemma {:induction false} CopyMatchGrows(out: seq<byte>, offset: nat, length: nat)
    requires 1 <= offset <= |out|
    ensures CopyMatch(out, offset, length + 1)
         == CopyMatch(out, offset, length) + [CopyMatch(out, offset, length)[|out| + length - offset]]
    decreases length
  {
    if length > 0 {
      CopyMatchGrows(out + [out[|out| - offset]], offset, length - 1);
    }
  }

  lemma CopyInBufferGrows(out: seq<byte>, offset: nat, length: nat, buffer: seq<byte>)
    requires offset <= |out| && |out| + length < |buffer|
    ensures var before := CopyInBuffer(out, offset, length, buffer);
      CopyInBuffer(out, offset, length + 1, buffer)
      == before + [if offset == 0 then buffer[|out| + length] else before[|out| + length - offset]]
  {
    if offset > 0 {
      CopyMatchGrows(out, offset, length);
    }
  }

  /** The overlapping byte loop: reads what it may have written itself, `offset` back. */
  method CopyOverlapping(dst: array<byte>, op: nat, offset: nat, length: nat, ghost buffer: seq<byte>)
    requires offset <= op && op + length <= dst.Length == |buffer|
    requires dst[op..] == buffer[op..]
    modifies dst
    ensures dst[..op + length] == CopyInBuffer(old(dst[..op]), offset, length, buffer)
    ensures dst[op + length..] == buffer[op + length..]
  {
    hide CopyMatch;
    CopyNothing(dst[..op], offset, buffer);
    for i := 0 to length
      invariant dst[..op + i] == CopyInBuffer(old(dst[..op]), offset, i, buffer)
      invariant dst[op + i..] == buffer[op + i..]
    {
      hide CopyInBuffer;
      CopyInBufferGrows(old(dst[..op]), offset, i, buffer);
      ghost var before := dst[..op + i];
      assert offset == 0 ==> dst[op + i] == dst[op + i..][0] == buffer[op + i];
      assert offset > 0 ==> dst[op - offset + i] == before[op - offset + i];
      dst[op + i] := dst[op - offset + i];
    }
  }

  lemma CopyNothing(out: seq<byte>, offset: nat, buffer: seq<byte>)
    requires offset <= |out| <= |buffer|
    ensures CopyInBuffer(out, offset, 0, buffer) == out
  {
  }

  /** How far a turn of the loop got: it ended the function, or went on. */
  datatype Advance = Ended(outcome: Outcome) | Reached(ip: nat, op: nat)

  /** What a turn must do to the output buffer, given what the format says. */
  ghost predicate Performs(turn: Turn, r: Advance, after: seq<byte>, buffer: seq<byte>) {
    |after| == |buffer| &&
    match turn
    case Stop(OutOfInput) => r == Ended(ReadPastEnd)
    case Stop(Rejected) => r == Ended(Size(0))
    case Stop(Done(out)) => false
    case Continue(ip, out) => r == Reached(ip, |out|) && |out| <= |buffer| && after == out + buffer[|out|..]
  }

  method TurnLiterals(src: seq<byte>, ip: nat, dst: array<byte>, op: nat, ghost buffer: seq<byte>) returns (r: Advance)
    requires ip < |src| && op <= dst.Length == |buffer| && dst[op..] == buffer[op..]
    modifies dst
    ensures Performs(TakeLiterals(src, ip, old(dst[..op]), |buffer|), r, dst[..], buffer)
  {
    hide ReadLength;
    var lit := ReadLengthOf(src, ip + 1, src[ip] as int / 16, 0);
    if lit.NoLength? {
      return Ended(ReadPastEnd);
    }
    if lit.next + lit.value > |src| || op + lit.value > dst.Length {
      return Ended(Size(0));
    }
    CopyLiterals(dst, op, src[lit.next..lit.next + lit.value]);
    assert dst[..] == dst[..op + lit.value] + dst[op + lit.value..];
    assert buffer[op..][lit.value..] == buffer[op + lit.value..];
    return Reached(lit.next + lit.value, op + lit.value);
  }

  method TurnMatch(src: seq<byte>, ip: nat, nibble: nat, dst: array<byte>, op: nat, ghost buffer: seq<byte>)
    returns (r: Advance)
    requires ip <= |src| && op <= dst.Length == |buffer| && dst[op..] == buffer[op..]
    modifies dst
    ensures Performs(TakeMatch(src, ip, nibble, old(dst[..op]), buffer), r, dst[..], buffer)
  {
    hide ReadLength, CopyInBuffer;
    if ip + 2 > |src| {
      return Ended(Size(0));
    }
    var offset := src[ip] as int + 256 * src[ip + 1] as int;
    var len := ReadLengthOf(src, ip + 2, nibble, MIN_MATCH);
    if len.NoLength? {
      return Ended(ReadPastEnd);
    }
    if offset > op || op + len.value > dst.Length {
      return Ended(Size(0));
    }
    CopyOverlapping(dst, op, offset, len.value, buffer);
    return Reached(len.next, op + len.value);
  }

  /** `lr_lz4_decompress`, on every input: what it returns and what the buffer holds afterwards. */
  method Decompress(src: seq<byte>, dst: array<byte>) returns (outcome: Outcome)
    modifies dst
    ensures match Decode(src, 0, [], old(dst[..]))
      case OutOfInput => outcome == ReadPastEnd
      case Rejected => outcome == Size(0)
      case Done(out) => outcome == Size(|out|) && dst[..] == out + old(dst[|out|..])
  {
    hide TakeLiterals, TakeMatch;
    ghost var buffer := dst[..];
    var ip: nat, op: nat := 0, 0;
    assert dst[..op] == [];
    while ip < |src|
      invariant ip <= |src| && op <= dst.Length
      invariant Decode(src, ip, dst[..op], buffer) == Decode(src, 0, [], buffer)
      invariant dst[..] == dst[..op] + buffer[op..]
      decreases |src| - ip
    {
      var token := src[ip];
      var turn := TurnLiterals(src, ip, dst, op, buffer);
      if turn.Ended? {
        return turn.outcome;
      }
      ip := turn.ip;
      op := turn.op;
      if ip >= |src| {
        break;
      }
      turn := TurnMatch(src, ip, token as int % 16, dst, op, buffer);
      if turn.Ended? {
        return turn.outcome;
      }
      ip := turn.ip;
      op := turn.op;
    }
    outcome := Size(op);
  }

  /** Compressing and decompressing any input of at least four bytes gives it back. */
  method RoundTrip(src: array<byte>, packed: array<byte>, back: array<byte>) returns (outcome: Outcome)
    requires src != packed && src != back && packed != back
    requires MIN_MATCH <= src.Length < 0x8000_0000
    requires packed.Length >= CompressBound(src.Length) && back.Length == src.Length
    modifies packed, back
    ensures outcome == Size(src.Length) && back[..] == src[..] == old(src[..])
  {
    hide Found, Decode, Emit, Expand, Valid, AllEncodable;
    var size, block := Compress(src, packed, 0);
    EmitThenDecode(block, back[..]);
    assert packed[0..size] == packed[..size];
    outcome := Decompress(packed[..size], back);
  }
}
