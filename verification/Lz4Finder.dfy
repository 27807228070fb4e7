/**
 The match finder of `lr_lz4_compress`: which sequences it finds in an input.  The output bytes are
 left to `Lz4Codec`, whose compressor follows this run step by step.
 */
module Lz4Finder {
  import opened Bytes
  import opened Lz4Format

  const LAST_LITERALS := 5
  const HASH_SIZE := 0x4000

  /** `lz4_hash` of the little-endian word of four bytes. */
  function Hash(b0: byte, b1: byte, b2: byte, b3: byte): (h: nat)
    ensures h < HASH_SIZE
  {
    var word := b0 as int + 0x100 * b1 as int + 0x1_0000 * b2 as int + 0x100_0000 * b3 as int;
    (word * 2654435761) % 0x1_0000_0000 / 0x4_0000
  }

  /** Of the bytes of "abcd", lowest first. */
  lemma HashOfText()
    ensures Hash('a' as byte, 'b' as byte, 'c' as byte, 'd' as byte) == 6339
  {
  }

  /** Every byte of `[ip, end)` is the byte `offset` before it. */
  ghost predicate Repeats(input: seq<byte>, offset: nat, ip: nat, end: nat) {
    offset <= ip && end <= |input| && forall j :: ip <= j < end ==> input[j] == input[j - offset]
  }

  predicate SameFour(input: seq<byte>, i: nat, j: nat)
    requires i + 4 <= |input| && j + 4 <= |input|
  {
    input[i] == input[j] && input[i + 1] == input[j + 1] && input[i + 2] == input[j + 2] && input[i + 3] == input[j + 3]
  }

  /** Where a match of `ip` with `from` that reaches `end` comes to stop. */
  function MatchEnd(input: seq<byte>, ip: nat, from: nat, end: nat): (r: nat)
    requires from < ip <= end <= |input|
    ensures end <= r <= |input|
    ensures end + 2 <= |input| ==> r + 2 <= |input|
    decreases |input| - end
  {
    if end + MIN_MATCH < |input| && from + (end - ip) < ip && input[end] == input[from + (end - ip)] then
      MatchEnd(input, ip, from, end + 1)
    else
      end
  }

  /** Not into the last four bytes, but for a shortest match, and not past `ip` in the source. */
  lemma {:induction false} MatchEndIs(input: seq<byte>, ip: nat, from: nat, end: nat)
    requires from < ip && ip + MIN_MATCH <= end <= |input| - 2 && Repeats(input, ip - from, ip, end)
    requires end == ip + MIN_MATCH || end - ip <= ip - from
    ensures end <= MatchEnd(input, ip, from, end) <= |input| - 2
    ensures Repeats(input, ip - from, ip, MatchEnd(input, ip, from, end))
    ensures MatchEnd(input, ip, from, end) - ip <= if ip - from > MIN_MATCH then ip - from else MIN_MATCH
    decreases |input| - end
  {
    if end + MIN_MATCH < |input| && from + (end - ip) < ip && input[end] == input[from + (end - ip)] {
      MatchEndIs(input, ip, from, end + 1);
    }
  }

  /** And only there: at the last four bytes, at the end of the source, or at a difference. */
  lemma {:induction false} MatchEndStops(input: seq<byte>, ip: nat, from: nat, end: nat)
    requires from < ip <= end <= |input|
    ensures var r := MatchEnd(input, ip, from, end);
            && (r + 4 >= |input| || from + (r - ip) >= ip || input[r] != input[from + (r - ip)])
            && (r > end ==> r + 3 < |input| && r - ip <= ip - from && Repeats(input, ip - from, end, r))
    decreases |input| - end
  {
    if end + MIN_MATCH < |input| && from + (end - ip) < ip && input[end] == input[from + (end - ip)] {
      MatchEndStops(input, ip, from, end + 1);
    }
  }

  /** The variables of the loop, and the sequences found so far. */
  datatype Finder = Finder(ip: nat, anchor: nat, table: seq<int>, step: nat, searches: nat, found: seq<Sequence>)

  predicate FinderOk(input: seq<byte>, f: Finder) {
    && f.anchor <= f.ip && f.anchor + 2 <= |input|
    && f.step >= 1
    && |f.table| == HASH_SIZE
    && AllEncodable(f.found)
    && forall h :: 0 <= h < HASH_SIZE ==> -1 <= f.table[h] < f.ip
  }

  function EmptyTable(): (table: seq<int>)
    ensures |table| == HASH_SIZE && forall h :: 0 <= h < HASH_SIZE ==> table[h] == -1
  {
    seq(HASH_SIZE, _ => -1)
  }

  function NothingYet(): Finder {
    Finder(0, 0, EmptyTable(), 1, 1, [])
  }

  /** The slot that the hash of the bytes at `ip` selects. */
  function Slot(input: seq<byte>, ip: nat): (h: nat)
    requires ip + 4 <= |input|
    ensures h < HASH_SIZE
  {
    Hash(input[ip], input[ip + 1], input[ip + 2], input[ip + 3])
  }

  predicate IsMatch(input: seq<byte>, ip: nat, from: int)
    requires ip + 4 <= |input| && from < ip
  {
    from >= 0 && ip - from <= MAX_DISTANCE && SameFour(input, ip, from)
  }

  /** One turn of the loop. */
  function FinderStep(input: seq<byte>, f: Finder): (g: Finder)
    requires FinderOk(input, f) && f.ip + LAST_LITERALS < |input|
    ensures FinderOk(input, g) && g.ip > f.ip
  {
    var h := Slot(input, f.ip);
    var from, table := f.table[h], f.table[h := f.ip];
    if IsMatch(input, f.ip, from) then
      var end := MatchEnd(input, f.ip, from, f.ip + MIN_MATCH);
      Finder(end, end, table, end - f.ip, 0, f.found + [Sequence(input[f.anchor..f.ip], f.ip - from, end - f.ip)])
    else
      Finder(f.ip + f.step, f.anchor, table, (f.searches + 1) / 2 + 1, f.searches + 1, f.found)
  }

  function FindAll(input: seq<byte>, f: Finder): (g: Finder)
    requires FinderOk(input, f)
    ensures FinderOk(input, g)
    decreases |input| - f.ip
  {
    if f.ip + LAST_LITERALS < |input| then FindAll(input, FinderStep(input, f)) else f
  }

  /** The block that the compressor writes. */
  function Found(input: seq<byte>): (b: Block)
    requires |input| >= MIN_MATCH
    ensures AllEncodable(b.sequences)
  {
    var f := FindAll(input, NothingYet());
    Block(f.found, input[f.anchor..])
  }

  // ---- Following the run -------------------------------------------------------------------

  lemma FollowMatch(input: seq<byte>, f: Finder, from: nat, end: nat)
    requires FinderOk(input, f) && f.ip + LAST_LITERALS < |input|
    requires from == f.table[Slot(input, f.ip)] && IsMatch(input, f.ip, from)
    requires end == MatchEnd(input, f.ip, from, f.ip + MIN_MATCH)
    ensures FinderStep(input, f)
         == Finder(end, end, f.table[Slot(input, f.ip) := f.ip], end - f.ip, 0,
                   f.found + [Sequence(input[f.anchor..f.ip], f.ip - from, end - f.ip)])
  {
    hide Slot, MatchEnd, SameFour, FindAll;
  }

  lemma FollowStep(input: seq<byte>, f: Finder)
    requires FinderOk(input, f) && f.ip + LAST_LITERALS < |input|
    ensures FindAll(input, FinderStep(input, f)) == FindAll(input, f)
  {
    hide FinderStep;
  }

  lemma FollowMiss(input: seq<byte>, f: Finder)
    requires FinderOk(input, f) && f.ip + LAST_LITERALS < |input|
    requires !IsMatch(input, f.ip, f.table[Slot(input, f.ip)])
    ensures FinderStep(input, f)
         == Finder(f.ip + f.step, f.anchor, f.table[Slot(input, f.ip) := f.ip],
                   (f.searches + 1) / 2 + 1, f.searches + 1, f.found)
  {
    hide Slot, MatchEnd, SameFour, FindAll;
  }

  lemma FollowEnd(input: seq<byte>, f: Finder)
    requires FinderOk(input, f) && f.ip + LAST_LITERALS >= |input| >= MIN_MATCH
    requires FinderOk(input, NothingYet()) && FindAll(input, f) == FindAll(input, NothingYet())
    ensures Found(input) == Block(f.found, input[f.anchor..])
  {
  }

  // ---- How many literals are left ---------------------------------------------------------

  /** Seven equal bytes: a match that leaves two literals, so the last five bytes are not literals. */
  lemma SevenEqualBytes(b: byte)
    ensures Found([b, b, b, b, b, b, b]) == Block([Sequence([b], 1, 4)], [b, b])
  {
    hide Hash;
    var input := [b, b, b, b, b, b, b];
    var h := Slot(input, 0);
    var f := NothingYet();
    var g := FinderStep(input, f);
    assert g == Finder(1, 0, f.table[h := 0], 2, 2, []);
    assert Slot(input, 1) == h && g.table[h] == 0;
    var k := FinderStep(input, g);
    assert k.ip == 5 && k.anchor == 5 && k.found == [Sequence(input[0..1], 1, 4)];
    assert FindAll(input, k) == k;
    assert FindAll(input, g) == k;
    assert FindAll(input, f) == k;
    assert input[0..1] == [b] && input[5..] == [b, b];
  }

  /** Six equal bytes are too few: nothing is looked at closer than six bytes to the end. */
  lemma SixEqualBytes(b: byte)
    ensures Found([b, b, b, b, b, b]) == Block([], [b, b, b, b, b, b])
  {
    hide Hash;
    var input := [b, b, b, b, b, b];
    var f := NothingYet();
    var g := FinderStep(input, f);
    assert g == Finder(1, 0, f.table[Slot(input, 0) := 0], 2, 2, []);
    assert FindAll(input, g) == g && FindAll(input, f) == g;
    assert input[0..] == input;
  }

  /** How those seven are written: one literal and a match at offset 1, then two literals. */
  lemma SevenEqualBytesWritten(b: byte)
    ensures Emit(Found([b, b, b, b, b, b, b])) == [0x10, b, 1, 0, 0x20, b, b]
  {
    SevenEqualBytes(b);
    hide Found;
    var s := Sequence([b], 1, 4);
    assert EmitSequence(s) == [0x10, b, 1, 0];
    assert EmitSequences([s]) == EmitSequence(s) + EmitSequences([]);
  }

  ghost predicate AllFoursDiffer(input: seq<byte>) {
    forall i, j :: 0 <= i < j && j + 4 <= |input| ==> !SameFour(input, i, j)
  }

  /** Where nothing repeats, the search skips more and more: it looks at 0, 1, 3, 5, 8, 11. */
  lemma SearchSpreadsOut(input: seq<byte>)
    requires |input| > 16 && AllFoursDiffer(input)
    ensures var f0 := NothingYet();
            && f0.ip == 0 && FinderOk(input, f0)
            && var f1 := FinderStep(input, f0);
            && f1.ip == 1
            && var f2 := FinderStep(input, f1);
            && f2.ip == 3
            && var f3 := FinderStep(input, f2);
            && f3.ip == 5
            && var f4 := FinderStep(input, f3);
            && f4.ip == 8
            && var f5 := FinderStep(input, f4);
            && f5.ip == 11 && f5.anchor == 0 && f5.found == []
  {
    hide FinderStep, Slot;
    var f0 := NothingYet();
    Missed(input, f0);
    var f1 := FinderStep(input, f0);
    Missed(input, f1);
    var f2 := FinderStep(input, f1);
    Missed(input, f2);
    var f3 := FinderStep(input, f2);
    Missed(input, f3);
    Missed(input, FinderStep(input, f3));
  }

  lemma Missed(input: seq<byte>, f: Finder)
    requires FinderOk(input, f) && f.ip + LAST_LITERALS < |input| && AllFoursDiffer(input)
    ensures var g := FinderStep(input, f);
            && g.ip == f.ip + f.step && g.anchor == f.anchor && g.found == f.found
            && g.step == (f.searches + 1) / 2 + 1 && g.searches == f.searches + 1
  {
    hide FinderStep, Slot, SameFour;
    var from := f.table[Slot(input, f.ip)];
    if from >= 0 {
      FoursAreSymmetric(input, from, f.ip);
    }
    FollowMiss(input, f);
  }

  lemma FoursAreSymmetric(input: seq<byte>, i: nat, j: nat)
    requires i + 4 <= |input| && j + 4 <= |input|
    ensures SameFour(input, i, j) <==> SameFour(input, j, i)
  {
  }

  /** The four bytes in front of `end` also stand at `j`, before and within reach of a match. */
  predicate SeenAt(input: seq<byte>, end: nat, j: nat) {
    MIN_MATCH <= end <= |input| && j + MIN_MATCH < end && end - MIN_MATCH - j <= MAX_DISTANCE
    && SameFour(input, end - MIN_MATCH, j)
  }

  ghost predicate SeenBefore(input: seq<byte>, end: nat) {
    exists j :: SeenAt(input, end, j)
  }

  lemma MatchSeenBefore(input: seq<byte>, offset: nat, ip: nat, end: nat)
    requires 1 <= offset <= MAX_DISTANCE && ip + MIN_MATCH <= end && Repeats(input, offset, ip, end)
    ensures SeenBefore(input, end)
  {
    assert SeenAt(input, end, end - MIN_MATCH - offset);
  }

  lemma StepSeenBefore(input: seq<byte>, f: Finder)
    requires FinderOk(input, f) && f.ip + LAST_LITERALS < |input| && (f.anchor > 0 ==> SeenBefore(input, f.anchor))
    ensures var a := FinderStep(input, f).anchor; a > 0 ==> SeenBefore(input, a)
  {
    hide Slot, SeenBefore, MatchEnd, Repeats;
    var from := f.table[Slot(input, f.ip)];
    if IsMatch(input, f.ip, from) {
      MatchRepeats(input, f.ip, from);
      MatchEndIs(input, f.ip, from, f.ip + MIN_MATCH);
      MatchSeenBefore(input, f.ip - from, f.ip, MatchEnd(input, f.ip, from, f.ip + MIN_MATCH));
    }
  }

  lemma MatchRepeats(input: seq<byte>, ip: nat, from: nat)
    requires ip + 4 <= |input| && from < ip && SameFour(input, ip, from)
    ensures Repeats(input, ip - from, ip, ip + MIN_MATCH)
  {
  }

  lemma {:induction false} AnchorSeenBefore(input: seq<byte>, f: Finder)
    requires FinderOk(input, f) && (f.anchor > 0 ==> SeenBefore(input, f.anchor))
    ensures var a := FindAll(input, f).anchor; a > 0 ==> SeenBefore(input, a)
    decreases |input| - f.ip
  {
    hide FinderStep, SeenBefore;
    if f.ip + LAST_LITERALS < |input| {
      StepSeenBefore(input, f);
      AnchorSeenBefore(input, FinderStep(input, f));
    }
  }

  /**
   At least five literals are left whenever none of the groups of four bytes that end four, three
   or two bytes before the end of the input stands anywhere before, within reach.
   */
  lemma FiveLiteralsLeft(input: seq<byte>)
    requires |input| >= LAST_LITERALS
    requires forall end :: |input| - 4 <= end <= |input| - 2 ==> !SeenBefore(input, end)
    ensures |Found(input).last| >= LAST_LITERALS
  {
    hide SeenBefore;
    AnchorSeenBefore(input, NothingYet());
  }
}
