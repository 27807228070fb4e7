/** String.prototype.replaceAll on C strings, and what ECMAScript asks for. */
module StringReplace {
  import opened Wrappers
  import opened Bytes
  import opened StringSplit

  /** All occurrences replaced: the parts of the split, joined with the replacement. */
  function Replaced(s: Text, search: Text, replacement: Text): Text
    requires search != []
  {
    Join(Split(s, search), replacement)
  }

  lemma ReplaceStep(s: Text, search: Text, replacement: Text)
    requires search != []
    ensures Find(s, search).None? ==> Replaced(s, search, replacement) == s
    ensures Find(s, search).Some? ==>
      var k := Find(s, search).value;
      Replaced(s, search, replacement) == s[..k] + (replacement + Replaced(s[k + |search|..], search, replacement))
  {
    hide Find;
    if Find(s, search).Some? {
      var k := Find(s, search).value;
      assert Split(s, search)[1..] == Split(s[k + |search|..], search);
    }
  }

  function Count(s: Text, search: Text): (n: nat)
    requires search != []
  {
    |Split(s, search)| - 1
  }

  /** How long the result is, and that the estimate made before building it is enough. */
  lemma {:induction false} ReplacedLength(s: Text, search: Text, replacement: Text)
    requires search != []
    ensures |Replaced(s, search, replacement)| == |s| + Count(s, search) * (|replacement| - |search|)
    ensures |Replaced(s, search, replacement)|
         <= |s| + Count(s, search) * (if |replacement| > |search| then |replacement| - |search| else 0)
    decreases |s|
  {
    hide Find, Join;
    var gain := |replacement| - |search|;
    ReplaceStep(s, search, replacement);
    if Find(s, search).Some? {
      var rest := s[Find(s, search).value + |search|..];
      ReplacedLength(rest, search, replacement);
      var n := Count(rest, search);
      assert Count(s, search) == n + 1;
      assert (n + 1) * gain == n * gain + gain;
      if gain > 0 {
        assert (n + 1) * gain == n * gain + gain;
      } else {
        assert (n + 1) * gain <= 0;
      }
    }
  }

  /** `memcpy` to a place in the buffer. */
  method CopyTo(buf: array<byte>, pos: nat, t: Text)
    requires pos + |t| <= buf.Length
    modifies buf
    ensures buf[..pos + |t|] == old(buf[..pos]) + t
  {
    for i := 0 to |t|
      invariant buf[..pos + i] == old(buf[..pos]) + t[..i]
    {
      buf[pos + i] := t[i];
    }
  }

  method CountOccurrences(s: Text, search: Text) returns (count: nat)
    requires search != []
    ensures count == Count(s, search)
  {
    count := 0;
    var pos := 0;
    assert s[0..] == s;
    var next := Find(s, search);
    while next.Some?
      invariant pos <= |s| && next == Find(s[pos..], search)
      invariant count + Count(s[pos..], search) == Count(s, search)
      decreases |s| - pos
    {
      assert s[pos..][next.value + |search|..] == s[pos + next.value + |search|..];
      count := count + 1;
      pos := pos + next.value + |search|;
      next := Find(s[pos..], search);
    }
  }

  lemma RegroupBoth(done: Text, a: Text, b: Text, rest: Text, total: Text)
    requires done + (a + (b + rest)) == total
    ensures done + a + b + rest == total
    ensures |done| + |a| + |b| <= |total|
  {
  }

  /** The second loop of `js_string_proto_replace_all`; no branch that grows the buffer is taken. */
  method BuildReplaced(s: Text, search: Text, replacement: Text, size: nat) returns (text: Text)
    requires search != [] && |Replaced(s, search, replacement)| < size
    ensures text == Replaced(s, search, replacement)
  {
    hide Find, Replaced;
    var buf := new byte[size + 1024];
    var pos: nat, cur: nat := 0, 0;
    assert s[0..] == s;
    ghost var total := Replaced(s, search, replacement);
    var next := Find(s, search);
    while next.Some?
      invariant cur <= |s| && pos <= |total| && next == Find(s[cur..], search)
      invariant buf[..pos] + Replaced(s[cur..], search, replacement) == total
      decreases |s| - cur
    {
      ghost var done, rest := buf[..pos], s[cur..];
      var at := cur + next.value;
      ReplaceStep(rest, search, replacement);
      assert rest[..next.value] == s[cur..at] && rest[next.value + |search|..] == s[at + |search|..];
      RegroupBoth(done, s[cur..at], replacement, Replaced(s[at + |search|..], search, replacement), total);
      CopyTo(buf, pos, s[cur..at]);
      pos := pos + (at - cur);
      if pos + |replacement| > size + 1024 {
        assert false;
      }
      CopyTo(buf, pos, replacement);
      pos := pos + |replacement|;
      cur := at + |search|;
      next := Find(s[cur..], search);
    }
    ReplaceStep(s[cur..], search, replacement);
    if pos + |s[cur..]| > size + 1024 {
      assert false;
    }
    CopyTo(buf, pos, s[cur..]);
    pos := pos + |s[cur..]|;
    buf[pos] := 0;
    text := buf[..pos];
  }

  /** What the code gives for a search and a replacement that are text. */
  function CodeReplaced(s: Text, search: Text, replacement: Text): Text {
    if search == [] then s else Replaced(s, search, replacement)
  }

  // ---- What the standard asks for ------------------------------------------------------------

  const DOLLAR: byte := 36

  /** A byte of the replacement, or one of the patterns `$&`, `` $` `` and `$'`. */
  datatype Piece = Byte(c: byte) | Matched | TextBefore | TextBehind

  /** A replacement as GetSubstitution of ECMA-262 reads it where nothing is captured. */
  function Pieces(r: Text): seq<Piece> {
    if r == [] then []
    else if |r| >= 2 && r[0] == DOLLAR && r[1] == DOLLAR then [Byte(DOLLAR)] + Pieces(r[2..])
    else if |r| >= 2 && r[0] == DOLLAR && r[1] == 38 then [Matched] + Pieces(r[2..])
    else if |r| >= 2 && r[0] == DOLLAR && r[1] == 96 then [TextBefore] + Pieces(r[2..])
    else if |r| >= 2 && r[0] == DOLLAR && r[1] == 39 then [TextBehind] + Pieces(r[2..])
    else [Byte(r[0])] + Pieces(r[1..])
  }

  /** A piece at the occurrence of the search at `p`. */
  function PieceText(piece: Piece, s: Text, search: Text, p: nat): Text
    requires p + |search| <= |s|
  {
    match piece
    case Byte(c) => [c]
    case Matched => search
    case TextBefore => s[..p]
    case TextBehind => s[p + |search|..]
  }

  function Expanded(pieces: seq<Piece>, s: Text, search: Text, p: nat): Text
    requires p + |search| <= |s|
  {
    if pieces == [] then [] else PieceText(pieces[0], s, search, p) + Expanded(pieces[1..], s, search, p)
  }

  /** All occurrences from `pos` on replaced, the patterns expanded at each. */
  function StandardFrom(s: Text, search: Text, pieces: seq<Piece>, pos: nat): Text
    requires search != [] && pos <= |s|
    decreases |s| - pos
  {
    match Find(s[pos..], search)
    case None => s[pos..]
    case Some(k) =>
      s[pos..pos + k] + (Expanded(pieces, s, search, pos + k) + StandardFrom(s, search, pieces, pos + k + |search|))
  }

  /** The empty text occurs before, between and after all characters. */
  function BetweenFrom(s: Text, pieces: seq<Piece>, pos: nat): Text
    requires pos <= |s|
    decreases |s| - pos
  {
    Expanded(pieces, s, [], pos) + if pos == |s| then [] else [s[pos]] + BetweenFrom(s, pieces, pos + 1)
  }

  /** The result that section 22.1.3.19 of ECMA-262 (13th edition) asks for, a character being one byte. */
  function Standard(s: Text, search: Text, replacement: Text): Text {
    if search == [] then BetweenFrom(s, Pieces(replacement), 0)
    else StandardFrom(s, search, Pieces(replacement), 0)
  }

  lemma PatternsAreRead()
    ensures Pieces([36, 38, 36, 96, 36, 39, 36, 36]) == [Matched, TextBefore, TextBehind, Byte(36)]
    ensures Pieces([36, 49]) == [Byte(36), Byte(49)] && Pieces([45]) == [Byte(45)]
  {
    var r: Text := [36, 38, 36, 96, 36, 39, 36, 36];
    assert r[2..] == [36, 96, 36, 39, 36, 36];
    assert r[2..][2..] == [36, 39, 36, 36];
    assert r[2..][2..][2..] == [36, 36];
    assert Pieces([36, 36]) == [Byte(36)] + Pieces([36, 36][2..]);
  }

  lemma ByteFound(s: Text, c: byte, k: nat)
    requires k < |s| && s[k] == c && forall i :: 0 <= i < k ==> s[i] != c
    ensures Find(s, [c]) == Some(k)
  {
    forall i: nat | i < k
      ensures !Occurs(s, [c], i)
    {
      assert s[i..i + 1][0] == s[i];
    }
    FindIs(s, [c], k);
  }

  lemma ByteMissing(s: Text, c: byte)
    requires forall i :: 0 <= i < |s| ==> s[i] != c
    ensures Find(s, [c]) == None
  {
    forall i: nat
      ensures !Occurs(s, [c], i)
    {
      assert i < |s| ==> s[i..i + 1][0] == s[i];
    }
  }

  /** "xay" with "a" replaced by itself, what is before, what is behind and a dollar; "x" with dashes around. */
  lemma PatternsAtWork()
    ensures Standard([120, 97, 121], [97], [36, 38, 36, 96, 36, 39, 36, 36]) == [120, 97, 120, 121, 36, 121]
    ensures Standard([120], [], [45]) == [45, 120, 45]
  {
    hide Find, FindFrom, Pieces;
    PatternsAreRead();
    var s: Text := [120, 97, 121];
    var pieces := [Matched, TextBefore, TextBehind, Byte(36)];
    assert s[0..] == s && s[2..] == [121];
    ByteFound(s, 97, 1);
    ByteMissing([121], 97);
    assert StandardFrom(s, [97], pieces, 2) == [121];
    assert Expanded([Byte(36)], s, [97], 1) == [36];
    assert Expanded([TextBehind, Byte(36)], s, [97], 1) == [121, 36];
    assert Expanded([TextBefore, TextBehind, Byte(36)], s, [97], 1) == [120, 121, 36];
    assert Expanded(pieces, s, [97], 1) == [97, 120, 121, 36];
    assert Expanded([Byte(45)], [120], [], 0) == [45] && Expanded([Byte(45)], [120], [], 1) == [45];
    assert BetweenFrom([120], [Byte(45)], 1) == [45];
  }

  // ---- When the code meets it ------------------------------------------------------------------

  /** No pattern stands for the text before or behind. */
  predicate NoContext(pieces: seq<Piece>) {
    TextBefore !in pieces && TextBehind !in pieces
  }

  /** What pieces without context stand for, at any occurrence in any text. */
  function Meaning(pieces: seq<Piece>, search: Text): Text {
    if pieces == [] then []
    else (if pieces[0].Byte? then [pieces[0].c] else search) + Meaning(pieces[1..], search)
  }

  /** The replacement has no context, and stands for itself, or for nothing between characters. */
  predicate TakenLiterally(search: Text, replacement: Text) {
    NoContext(Pieces(replacement))
    && Meaning(Pieces(replacement), search) == if search == [] then [] else replacement
  }

  lemma {:induction false} ExpandedIsMeaning(pieces: seq<Piece>, s: Text, search: Text, p: nat)
    requires p + |search| <= |s| && NoContext(pieces)
    ensures Expanded(pieces, s, search, p) == Meaning(pieces, search)
  {
    if pieces != [] {
      ExpandedIsMeaning(pieces[1..], s, search, p);
    }
  }

  /** A pattern for the text before or behind makes the expansion as long as that. */
  lemma {:induction false} ExpandedIsLong(pieces: seq<Piece>, s: Text, search: Text, p: nat)
    requires p + |search| <= |s|
    ensures TextBefore in pieces ==> |Expanded(pieces, s, search, p)| >= p
    ensures TextBehind in pieces ==> |Expanded(pieces, s, search, p)| >= |s| - p - |search|
  {
    if pieces != [] {
      ExpandedIsLong(pieces[1..], s, search, p);
      assert pieces == [pieces[0]] + pieces[1..];
    }
  }

  lemma {:induction false} LiteralFrom(s: Text, search: Text, replacement: Text, pos: nat)
    requires search != [] && pos <= |s| && TakenLiterally(search, replacement)
    ensures StandardFrom(s, search, Pieces(replacement), pos) == Replaced(s[pos..], search, replacement)
    decreases |s| - pos
  {
    hide Find, Replaced, Expanded, Meaning;
    var rest := s[pos..];
    ReplaceStep(rest, search, replacement);
    match Find(rest, search)
    case None =>
    case Some(k) =>
      ExpandedIsMeaning(Pieces(replacement), s, search, pos + k);
      LiteralFrom(s, search, replacement, pos + k + |search|);
      assert rest[..k] == s[pos..pos + k] && rest[k + |search|..] == s[pos + k + |search|..];
  }

  lemma {:induction false} NothingBetween(s: Text, pieces: seq<Piece>, pos: nat)
    requires pos <= |s| && NoContext(pieces) && Meaning(pieces, []) == []
    ensures BetweenFrom(s, pieces, pos) == s[pos..]
    decreases |s| - pos
  {
    ExpandedIsMeaning(pieces, s, [], pos);
    if pos < |s| {
      NothingBetween(s, pieces, pos + 1);
      assert s[pos..] == [s[pos]] + s[pos + 1..];
    }
  }

  /** Enough for every text. */
  lemma LiteralMeetsStandard(s: Text, search: Text, replacement: Text)
    requires TakenLiterally(search, replacement)
    ensures CodeReplaced(s, search, replacement) == Standard(s, search, replacement)
  {
    assert s[0..] == s;
    if search == [] {
      NothingBetween(s, Pieces(replacement), 0);
    } else {
      LiteralFrom(s, search, replacement, 0);
    }
  }

  lemma StandardStep(s: Text, search: Text, pieces: seq<Piece>, pos: nat)
    requires search != [] && pos <= |s|
    ensures Find(s[pos..], search) == None ==> StandardFrom(s, search, pieces, pos) == s[pos..]
    ensures Find(s[pos..], search).Some? ==>
      var k := Find(s[pos..], search).value;
      StandardFrom(s, search, pieces, pos)
      == s[pos..pos + k] + (Expanded(pieces, s, search, pos + k) + StandardFrom(s, search, pieces, pos + k + |search|))
  {
    hide Expanded;
  }

  lemma SameBetween(a: Text, x: Text, y: Text, b: Text)
    requires a + (x + b) == a + (y + b)
    ensures x == y
  {
    assert (a + (x + b))[|a|..] == x + b && (a + (y + b))[|a|..] == y + b;
    assert (x + b)[..|x|] == x && (y + b)[..|y|] == y;
  }

  /** In a text in which the search occurs once, code and standard agree if the expansion does. */
  lemma OneOccurrence(s: Text, search: Text, replacement: Text, n: nat)
    requires search != [] && Find(s, search) == Some(n) && Find(s[n + |search|..], search) == None
    ensures CodeReplaced(s, search, replacement) == Standard(s, search, replacement)
        ==> Expanded(Pieces(replacement), s, search, n) == replacement
  {
    hide Find, Replaced, Expanded, Pieces, StandardFrom;
    var rest, x := s[n + |search|..], Expanded(Pieces(replacement), s, search, n);
    ReplaceStep(s, search, replacement);
    ReplaceStep(rest, search, replacement);
    assert CodeReplaced(s, search, replacement) == s[..n] + (replacement + rest);
    assert s[0..] == s;
    StandardStep(s, search, Pieces(replacement), 0);
    StandardStep(s, search, Pieces(replacement), n + |search|);
    assert Standard(s, search, replacement) == s[..n] + (x + rest);
    if CodeReplaced(s, search, replacement) == Standard(s, search, replacement) {
      SameBetween(s[..n], replacement, x, rest);
    }
  }

  /** A byte that the search does not begin with. */
  function Other(search: Text): (c: byte)
    requires search != []
    ensures c != 0 && c != search[0]
  {
    if search[0] == 1 then 2 else 1
  }

  function Filler(search: Text, n: nat): (t: Text)
    requires search != []
    ensures |t| == n && NoNul(t) && forall i :: 0 <= i < n ==> t[i] == Other(search)
  {
    seq(n, _ => Other(search))
  }

  lemma NoneInFiller(search: Text, n: nat)
    requires search != []
    ensures Find(Filler(search, n), search) == None
  {
    var t := Filler(search, n);
    forall i: nat
      ensures !Occurs(t, search, i)
    {
      if i + |search| <= n {
        assert t[i..i + |search|][0] == Other(search);
      }
    }
    FindNone(t, search);
  }

  lemma FoundBehindFiller(search: Text, n: nat)
    requires search != []
    ensures Find(Filler(search, n) + search, search) == Some(n)
  {
    var s := Filler(search, n) + search;
    assert s[n..n + |search|] == search;
    forall i: nat | i < n
      ensures !Occurs(s, search, i)
    {
      if i + |search| <= |s| {
        assert s[i..i + |search|][0] == Other(search);
      }
    }
    FindIs(s, search, n);
  }

  lemma FoundAtOnce(search: Text, rest: Text)
    requires search != []
    ensures Find(search + rest, search) == Some(0)
  {
    assert (search + rest)[0..|search|] == search;
    FindIs(search + rest, search, 0);
  }

  lemma NoneInNothing(search: Text)
    requires search != []
    ensures Find([], search) == None
  {
  }

  /** A text on which the code and the standard differ. */
  lemma LiteralIsNeeded(search: Text, replacement: Text) returns (s: Text)
    requires NoNul(search) && search != [] && !TakenLiterally(search, replacement)
    ensures NoNul(s) && CodeReplaced(s, search, replacement) != Standard(s, search, replacement)
  {
    hide Find, Pieces, Expanded, Meaning, Standard, CodeReplaced;
    var pieces, t := Pieces(replacement), Filler(search, |replacement| + 1);
    if TextBefore in pieces {
      s := t + search;
      FoundBehindFiller(search, |t|);
      NoneInNothing(search);
      assert s[|t| + |search|..] == [];
      OneOccurrence(s, search, replacement, |t|);
      ExpandedIsLong(pieces, s, search, |t|);
    } else if TextBehind in pieces {
      s := search + t;
      FoundAtOnce(search, t);
      NoneInFiller(search, |t|);
      assert s[0 + |search|..] == t;
      OneOccurrence(s, search, replacement, 0);
      ExpandedIsLong(pieces, s, search, 0);
    } else {
      s := search;
      assert search + [] == search;
      FoundAtOnce(search, []);
      NoneInNothing(search);
      assert s[0 + |search|..] == [];
      OneOccurrence(s, search, replacement, 0);
      ExpandedIsMeaning(pieces, s, search, 0);
    }
  }

  /** Between characters, everything that is expanded makes the text longer. */
  lemma {:induction false} BetweenIsLong(s: Text, pieces: seq<Piece>, pos: nat)
    requires pos <= |s|
    ensures |BetweenFrom(s, pieces, pos)| >= |s| - pos + |Expanded(pieces, s, [], pos)|
    decreases |s| - pos
  {
    hide Expanded;
    if pos < |s| {
      BetweenIsLong(s, pieces, pos + 1);
    }
  }

  lemma NothingIsNeeded(search: Text, replacement: Text) returns (s: Text)
    requires search == [] && !TakenLiterally(search, replacement)
    ensures NoNul(s) && CodeReplaced(s, search, replacement) != Standard(s, search, replacement)
  {
    hide Pieces, Expanded, Meaning;
    var pieces := Pieces(replacement);
    s := [1];
    BetweenIsLong(s, pieces, 0);
    BetweenIsLong(s, pieces, 1);
    ExpandedIsLong(pieces, s, [], 0);
    ExpandedIsLong(pieces, s, [], 1);
    if NoContext(pieces) {
      ExpandedIsMeaning(pieces, s, [], 0);
    }
  }

  /**
   The code meets the standard on all texts exactly when the replacement can be taken literally: its
   patterns, if it has any, stand for itself, or for nothing when the search is empty.
   */
  lemma ReplaceAllMeetsStandardIff(search: Text, replacement: Text)
    requires NoNul(search)
    ensures (forall s: Text :: NoNul(s) ==> CodeReplaced(s, search, replacement) == Standard(s, search, replacement))
       <==> TakenLiterally(search, replacement)
  {
    hide CodeReplaced, Standard, TakenLiterally;
    if TakenLiterally(search, replacement) {
      forall s: Text | NoNul(s)
        ensures CodeReplaced(s, search, replacement) == Standard(s, search, replacement)
      {
        LiteralMeetsStandard(s, search, replacement);
      }
    } else if search == [] {
      var s := NothingIsNeeded(search, replacement);
    } else {
      var s := LiteralIsNeeded(search, replacement);
    }
  }

  lemma {:induction false} PlainPieces(r: Text, search: Text)
    requires DOLLAR !in r
    ensures NoContext(Pieces(r)) && Meaning(Pieces(r), search) == r
  {
    if r != [] {
      PlainPieces(r[1..], search);
      assert r == [r[0]] + r[1..];
    }
  }

  /** Without a dollar sign, it meets the standard unless something is to be put between characters. */
  lemma PlainMeetsStandardIff(s: Text, search: Text, replacement: Text)
    requires DOLLAR !in replacement
    ensures CodeReplaced(s, search, replacement) == Standard(s, search, replacement)
       <==> search != [] || replacement == []
  {
    hide Pieces, Expanded, Meaning;
    PlainPieces(replacement, search);
    if search != [] || replacement == [] {
      LiteralMeetsStandard(s, search, replacement);
    } else {
      BetweenIsLong(s, Pieces(replacement), 0);
      ExpandedIsMeaning(Pieces(replacement), s, [], 0);
    }
  }

  /** `js_string_proto_replace_all` with a replacement that is text; nothing is searched for "". */
  method ReplaceAll(s: Text, search: Text, replacement: Text) returns (text: Text)
    ensures text == CodeReplaced(s, search, replacement)
    ensures TakenLiterally(search, replacement) ==> text == Standard(s, search, replacement)
  {
    if TakenLiterally(search, replacement) {
      LiteralMeetsStandard(s, search, replacement);
    }
    hide TakenLiterally, Standard;
    if search == [] {
      return s;
    }
    var count := CountOccurrences(s, search);
    ReplacedLength(s, search, replacement);
    if count == 0 {
      ReplaceStep(s, search, replacement);
      return s;
    }
    var size := |s| + count * (if |replacement| > |search| then |replacement| - |search| else 0) + 1;
    text := BuildReplaced(s, search, replacement, size);
  }
}
