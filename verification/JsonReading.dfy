/**
 JSON.parse reads every text of the JSON grammar (RFC 8259), white space and escapes included, as the
 value it stands for, as long as its strings are below 4095 bytes and its numbers below 128.  A text is
 given by its syntax tree.
 */
module JsonReading {
  import opened Bytes
  import opened Numerals
  import opened JsonText
  import opened JsonNumbers
  import opened JsonGrammar
  import Utf8

  /** One character of a string: as it is, a letter behind a backslash, or a code. */
  datatype Char = Plain(c: byte) | Escape(letter: byte) | Code(hex: seq<byte>)

  /** A value, with the white space inside it. */
  datatype Tree =
    | TNull
    | TBool(b: bool)
    | TNumber(l: Lexeme)
    | TString(chars: seq<Char>)
    | TArray(space: seq<byte>, elements: seq<Element>)
    | TObject(space: seq<byte>, pairs: seq<Pair>)

  datatype Element = Element(before: seq<byte>, item: Tree, after: seq<byte>)

  datatype Pair = Pair(before: seq<byte>, key: seq<Char>, afterKey: seq<byte>,
                       beforeValue: seq<byte>, value: Tree, after: seq<byte>)

  predicate IsBlank(space: seq<byte>) {
    forall i :: 0 <= i < |space| ==> space[i] as char in " \t\n\r"
  }

  // ---- The text of a tree ------------------------------------------------------------------------

  function CharText(ch: Char): seq<byte> {
    match ch
    case Plain(c) => [c]
    case Escape(letter) => ['\\' as byte, letter]
    case Code(hex) => ['\\' as byte, 'u' as byte] + hex
  }

  function CharsText(chars: seq<Char>): seq<byte> {
    if chars == [] then [] else CharText(chars[0]) + CharsText(chars[1..])
  }

  function StringText(chars: seq<Char>): seq<byte> {
    ['"' as byte] + (CharsText(chars) + ['"' as byte])
  }

  function TextOf(t: Tree): seq<byte>
    decreases t, 0
  {
    match t
    case TNull => ['n' as byte, 'u' as byte, 'l' as byte, 'l' as byte]
    case TBool(true) => ['t' as byte, 'r' as byte, 'u' as byte, 'e' as byte]
    case TBool(false) => ['f' as byte, 'a' as byte, 'l' as byte, 's' as byte, 'e' as byte]
    case TNumber(l) => Written(l)
    case TString(chars) => StringText(chars)
    case TArray(space, elements) =>
      ['[' as byte] + if elements == [] then space + [']' as byte] else ElementsText(elements)
    case TObject(space, pairs) =>
      ['{' as byte] + if pairs == [] then space + ['}' as byte] else PairsText(pairs)
  }

  /** Elements with commas between them, and the closing bracket. */
  function ElementsText(es: seq<Element>): seq<byte>
    requires es != []
    decreases es, 1
  {
    es[0].before + (TextOf(es[0].item) + (es[0].after + OtherElements(es[1..])))
  }

  function OtherElements(es: seq<Element>): seq<byte>
    decreases es, 2
  {
    if es == [] then [']' as byte] else [',' as byte] + ElementsText(es)
  }

  function PairsText(ps: seq<Pair>): seq<byte>
    requires ps != []
    decreases ps, 1
  {
    ps[0].before + (StringText(ps[0].key) + (ps[0].afterKey + ([':' as byte] + (ps[0].beforeValue
      + (TextOf(ps[0].value) + (ps[0].after + OtherPairs(ps[1..])))))))
  }

  function OtherPairs(ps: seq<Pair>): seq<byte>
    decreases ps, 2
  {
    if ps == [] then ['}' as byte] else [',' as byte] + PairsText(ps)
  }

  // ---- What may stand in a tree ------------------------------------------------------------------

  predicate IsChar(ch: Char) {
    match ch
    case Plain(c) => c as char !in "\"\\"
    case Escape(letter) => letter as char in "\"\\/bfnrt"
    case Code(hex) => |hex| == 4 && AllDigits(hex, 16)
  }

  predicate AreChars(chars: seq<Char>) {
    forall i :: 0 <= i < |chars| ==> IsChar(chars[i])
  }

  predicate IsShortString(chars: seq<Char>) {
    AreChars(chars) && |BytesOf(chars)| < 4095
  }

  predicate IsTree(t: Tree)
    decreases t, 0
  {
    match t
    case TNumber(l) => WellFormed(l) && NoLeadingZero(l) && l.whole != [] && |Written(l)| <= 127
    case TString(chars) => IsShortString(chars)
    case TArray(space, elements) => IsBlank(space) && AreElements(elements)
    case TObject(space, pairs) => IsBlank(space) && ArePairs(pairs)
    case _ => true
  }

  predicate AreElements(es: seq<Element>)
    decreases es, 1
  {
    es == [] ||
    (&& IsBlank(es[0].before) && IsTree(es[0].item) && IsBlank(es[0].after)
     && AreElements(es[1..]))
  }

  predicate ArePairs(ps: seq<Pair>)
    decreases ps, 1
  {
    ps == [] ||
    (&& IsBlank(ps[0].before) && IsShortString(ps[0].key) && IsBlank(ps[0].afterKey)
     && IsBlank(ps[0].beforeValue) && IsTree(ps[0].value) && IsBlank(ps[0].after)
     && ArePairs(ps[1..]))
  }

  // ---- What a tree stands for --------------------------------------------------------------------

  /** The character of an escape letter. */
  function Unescaped(letter: byte): (c: byte) {
    match letter as char
    case 'b' => 8
    case 'f' => 12
    case 'n' => '\n' as byte
    case 'r' => '\r' as byte
    case 't' => '\t' as byte
    case _ => letter
  }

  /** A code stands for its UTF-8 bytes. */
  function CharBytes(ch: Char): seq<byte>
    requires IsChar(ch)
  {
    match ch
    case Plain(c) => [c]
    case Escape(letter) => [Unescaped(letter)]
    case Code(hex) =>
      HexRunIs(hex);
      assert Power(16, 4) == 0x1_0000;
      Utf8.Encode(PlaceValue(hex, 16) as Utf8.int32)
  }

  function BytesOf(chars: seq<Char>): seq<byte>
    requires AreChars(chars)
  {
    if chars == [] then [] else CharBytes(chars[0]) + BytesOf(chars[1..])
  }

  /** Strings are C strings, so they end at a NUL. */
  function Denoted(t: Tree): Json
    requires IsTree(t)
    decreases t, 0
  {
    match t
    case TNull => JNull
    case TBool(b) => JBool(b)
    case TNumber(l) => JNumber(Meaning(l))
    case TString(chars) => JText(CString(BytesOf(chars)))
    case TArray(_, elements) => JArray(DenotedItems(elements))
    case TObject(_, pairs) => JObject(DenotedMembers(pairs, []))
  }

  function DenotedItems(es: seq<Element>): seq<Json>
    requires AreElements(es)
    decreases es, 1
  {
    if es == [] then [] else [Denoted(es[0].item)] + DenotedItems(es[1..])
  }

  /** The members in order; a key that is repeated takes the later value. */
  function DenotedMembers(ps: seq<Pair>, members: seq<Member>): seq<Member>
    requires ArePairs(ps)
    decreases ps, 1
  {
    if ps == [] then members
    else DenotedMembers(ps[1..], SetMember(members, CString(BytesOf(ps[0].key)), Denoted(ps[0].value)))
  }

  // ---- White space and strings -------------------------------------------------------------------

  lemma {:induction false} BlankSkipped(src: seq<byte>, p: nat, space: seq<byte>)
    requires At(src, p, space) && IsBlank(space) && !IsSpace(ByteAt(src, p + |space|))
    ensures p + |space| <= |src| && SkipSpace(src, p) == p + |space|
    decreases |space|
  {
    hide IsSpace;
    if space != [] {
      SpaceIs(space[0]);
      AtFirst(src, p, space);
      assert space == [space[0]] + space[1..];
      AtSplit(src, p, [space[0]], space[1..]);
      BlankSkipped(src, p + 1, space[1..]);
    }
  }

  lemma CodeRead(hex: seq<byte>)
    requires IsChar(Code(hex))
    ensures CodeBytes(UnicodeCode(hex)) == CharBytes(Code(hex))
  {
    hide PlaceValue, UnicodeCode, CodeBytes, DigitVal;
    FourHexDigits(hex);
    CodeIsUtf8(PlaceValue(hex, 16));
  }

  lemma LetterRead(letter: byte)
    requires IsChar(Escape(letter))
    ensures letter as char != 'u' && UnescapeByte(letter) == Unescaped(letter)
  {
  }

  lemma CharRead(src: seq<byte>, p: nat, ch: Char)
    requires IsChar(ch) && At(src, p, CharText(ch))
    ensures p < |src| && src[p] != QUOTE
    ensures StringUnit(src, p) == Parsed(CharBytes(ch), p + |CharText(ch)|)
  {
    hide PlaceValue, UnicodeCode, CodeBytes, DigitVal, At;
    var t := CharText(ch);
    AtFirst(src, p, t);
    AtBounds(src, p, t);
    match ch
    case Plain(c) =>
      assert src[p + 0] == t[0];
    case Escape(letter) =>
      assert src[p + 0] == t[0] && src[p + 1] == t[1];
      LetterRead(letter);
    case Code(hex) =>
      assert src[p + 0] == t[0] && src[p + 1] == t[1];
      AtSplit(src, p, ['\\' as byte, 'u' as byte], hex);
      SliceAt(src, p + 2, hex);
      CodeRead(hex);
  }

  lemma SliceAt(src: seq<byte>, p: nat, s: seq<byte>)
    requires At(src, p, s)
    ensures p + |s| <= |src| && src[p..p + |s|] == s
  {
  }

  lemma {:induction false} CharsRead(src: seq<byte>, p: nat, chars: seq<Char>, text: seq<byte>)
    requires AreChars(chars) && At(src, p, CharsText(chars) + ['"' as byte])
    requires |text| + |BytesOf(chars)| < 4095
    ensures p + |CharsText(chars)| + 1 <= |src|
    ensures StringBody(src, p, text) == Parsed(text + BytesOf(chars), p + |CharsText(chars)| + 1)
    decreases |chars|
  {
    hide StringUnit, CharBytes, CharText, IsChar, At;
    if chars == [] {
      AtHead(src, p, CharsText(chars) + ['"' as byte]);
      AtBounds(src, p, CharsText(chars) + ['"' as byte]);
      assert text + BytesOf(chars) == text;
    } else {
      var first, rest := CharText(chars[0]), CharsText(chars[1..]) + ['"' as byte];
      assert CharsText(chars) + ['"' as byte] == first + rest;
      AtSplit(src, p, first, rest);
      CharRead(src, p, chars[0]);
      var bytes := CharBytes(chars[0]);
      assert text + BytesOf(chars) == (text + bytes) + BytesOf(chars[1..]);
      CharsRead(src, p + |first|, chars[1..], text + bytes);
    }
  }

  lemma NoSpaceIsBlank()
    ensures IsBlank([])
  {
  }

  lemma MarksAreNoSpace()
    ensures !IsSpace('"' as byte) && !IsSpace('[' as byte) && !IsSpace(']' as byte) && !IsSpace(0)
    ensures !IsSpace('{' as byte) && !IsSpace('}' as byte) && !IsSpace(',' as byte) && !IsSpace(':' as byte)
  {
  }

  /** A mark behind white space is found. */
  lemma MarkRead(src: seq<byte>, p: nat, space: seq<byte>, mark: byte, rest: seq<byte>)
    requires IsBlank(space) && !IsSpace(mark) && At(src, p, space + ([mark] + rest))
    ensures p + |space| < |src| && src[p + |space|] == mark && SkipSpace(src, p) == p + |space|
    ensures Expect(src, p, mark) == Parsed((), p + |space| + 1)
    ensures At(src, p + |space| + 1, rest)
  {
    hide At, IsSpace, IsBlank;
    AtSplit(src, p, space, [mark] + rest);
    AtHead(src, p + |space|, [mark] + rest);
    AtBounds(src, p + |space|, [mark] + rest);
    AtSplit(src, p + |space|, [mark], rest);
    BlankSkipped(src, p, space);
  }

  /** A string behind white space is read. */
  lemma StringRead(src: seq<byte>, p: nat, space: seq<byte>, chars: seq<Char>)
    requires IsBlank(space) && IsShortString(chars) && At(src, p, space + StringText(chars))
    ensures p <= |src|
    ensures ParseString(src, p) == Parsed(CString(BytesOf(chars)), p + |space + StringText(chars)|)
  {
    hide At, IsBlank, IsSpace, StringBody, BytesOf, CharsText, CString;
    MarksAreNoSpace();
    MarkRead(src, p, space, QUOTE, CharsText(chars) + ['"' as byte]);
    CharsRead(src, p + |space| + 1, chars, []);
    assert [] + BytesOf(chars) == BytesOf(chars);
  }

  // ---- Values --------------------------------------------------------------------------------

  /** A byte that may come behind a value: white space, a comma, a closing bracket, or the end. */
  predicate MayFollow(c: byte) {
    c == 0 || c as char in " \t\n\r,]}"
  }

  /** What the text of a tree begins with. */
  predicate Begins(t: Tree, c: byte) {
    match t
    case TNull => c as char == 'n'
    case TBool(b) => c as char == if b then 't' else 'f'
    case TNumber(l) => c as char == '-' || '0' as byte <= c <= '9' as byte
    case TString(_) => c as char == '"'
    case TArray(_, _) => c as char == '['
    case TObject(_, _) => c as char == '{'
  }

  lemma TreeBegins(t: Tree)
    requires IsTree(t)
    ensures TextOf(t) != [] && Begins(t, TextOf(t)[0])
  {
    hide ElementsText, PairsText, DigitVal;
    if t.TNumber? {
      assert IsDigit(t.l.whole[0], 10);
      DecimalIs(t.l.whole[0]);
    }
  }

  lemma BeginsNoSpace(t: Tree, c: byte)
    requires Begins(t, c)
    ensures !IsSpace(c) && c != CLOSE_ARRAY && c != CLOSE_OBJECT
  {
  }

  lemma FollowsNumber(l: Lexeme, c: byte)
    requires MayFollow(c)
    ensures EndsBefore(l, c)
  {
  }

  /** Where a value begins behind white space. */
  lemma ValueFound(src: seq<byte>, p: nat, space: seq<byte>, t: Tree)
    requires IsBlank(space) && IsTree(t) && At(src, p, space + TextOf(t))
    ensures p + |space| < |src| && SkipSpace(src, p) == p + |space|
    ensures At(src, p + |space|, TextOf(t)) && Begins(t, src[p + |space|])
  {
    hide At, IsBlank, IsSpace, TextOf, Begins;
    AtSplit(src, p, space, TextOf(t));
    TreeBegins(t);
    AtHead(src, p + |space|, TextOf(t));
    AtBounds(src, p + |space|, TextOf(t));
    BeginsNoSpace(t, src[p + |space|]);
    BlankSkipped(src, p, space);
  }

  /** Words, numbers and strings. */
  lemma LeafRead(src: seq<byte>, p: nat, space: seq<byte>, t: Tree)
    requires IsBlank(space) && IsTree(t) && !t.TArray? && !t.TObject? && At(src, p, space + TextOf(t))
    requires MayFollow(ByteAt(src, p + |space + TextOf(t)|))
    ensures p <= |src| && ParseValue(src, p) == Parsed(Denoted(t), p + |space + TextOf(t)|)
  {
    hide At, IsBlank, IsSpace, SkipSpace, ParseString, ParseNumber, ParseArray, ParseObject, Written, StringText;
    hide EndsBefore, MayFollow, CString, BytesOf;
    ValueFound(src, p, space, t);
    SliceAt(src, p + |space|, TextOf(t));
    match t
    case TNull =>
    case TBool(_) =>
    case TNumber(l) =>
      FollowsNumber(l, ByteAt(src, p + |space + TextOf(t)|));
      NumberRead(src, p + |space|, l);
    case TString(chars) =>
      assert [] + StringText(chars) == StringText(chars);
      NoSpaceIsBlank();
      StringRead(src, p + |space|, [], chars);
  }

  // ---- Arrays --------------------------------------------------------------------------------

  lemma {:induction false} SkippedOnce(src: seq<byte>, p: nat)
    requires p <= |src|
    ensures SkipSpace(src, SkipSpace(src, p)) == SkipSpace(src, p)
    decreases |src| - p
  {
    hide IsSpace;
    if p < |src| && IsSpace(src[p]) {
      SkippedOnce(src, p + 1);
    }
  }

  lemma ItemsBehindSpace(src: seq<byte>, p: nat, items: seq<Json>)
    requires p <= |src|
    ensures ParseItems(src, SkipSpace(src, p), items) == ParseItems(src, p, items)
  {
    hide SkipSpace, ParseString, ParseNumber, ParseArray, ParseObject;
    SkippedOnce(src, p);
    assert ParseValue(src, SkipSpace(src, p)) == ParseValue(src, p);
  }

  /** Behind white space and a mark that may follow a value. */
  lemma FollowsValue(src: seq<byte>, p: nat, space: seq<byte>, rest: seq<byte>)
    requires IsBlank(space) && rest != [] && MayFollow(rest[0]) && At(src, p, space + rest)
    ensures MayFollow(ByteAt(src, p))
  {
    AtHead(src, p, space + rest);
  }

  lemma OthersBegin(es: seq<Element>)
    ensures OtherElements(es) == [',' as byte] + OtherElements(es)[1..] || OtherElements(es) == [']' as byte]
    ensures OtherElements(es) != [] && MayFollow(OtherElements(es)[0])
  {
    hide ElementsText;
  }

  lemma NothingDenoted(members: seq<Member>)
    ensures DenotedItems([]) == [] && DenotedMembers([], members) == members
  {
  }

  lemma RegroupTwo(a: seq<byte>, b: seq<byte>, c: seq<byte>)
    ensures a + (b + c) == (a + b) + c
  {
  }

  /** One step of the loop: a value, and what comes behind it. */
  lemma ItemsGoOn(src: seq<byte>, p: nat, q: nat, space: seq<byte>, mark: byte, rest: seq<byte>, items: seq<Json>,
                  item: Json)
    requires p <= |src| && q <= |src| && ParseValue(src, p) == Parsed(item, q)
    requires IsBlank(space) && (mark == CLOSE_ARRAY || mark == COMMA) && At(src, q, space + ([mark] + rest))
    ensures q + |space| + 1 <= |src| && At(src, q + |space| + 1, rest)
    ensures ParseItems(src, p, items)
         == if mark == CLOSE_ARRAY then Parsed(JArray(items + [item]), q + |space| + 1)
            else ParseItems(src, q + |space| + 1, items + [item])
  {
    hide ParseValue, At, IsBlank, IsSpace, SkipSpace;
    MarksAreNoSpace();
    MarkRead(src, q, space, mark, rest);
  }

  lemma {:induction false} ElementsRead(src: seq<byte>, p: nat, es: seq<Element>, items: seq<Json>)
    requires es != [] && AreElements(es) && At(src, p, ElementsText(es))
    ensures p <= |src|
    ensures ParseItems(src, p, items) == Parsed(JArray(items + DenotedItems(es)), p + |ElementsText(es)|)
    decreases es, 1
  {
    hide ParseValue, ParseItems, At, IsBlank, IsSpace, SkipSpace, TextOf, Denoted, IsTree, MayFollow;
    var e, others := es[0], OtherElements(es[1..]);
    var text, w := TextOf(e.item), Denoted(e.item);
    var q := p + |e.before + text|;
    OthersBegin(es[1..]);
    RegroupTwo(e.before, text, e.after + others);
    AtSplit(src, p, e.before + text, e.after + others);
    FollowsValue(src, q, e.after, others);
    AtBounds(src, q, e.after + others);
    ValueRead(src, p, e.before, e.item);
    if es[1..] == [] {
      assert others == [']' as byte] + [];
      NothingDenoted([]);
      assert DenotedItems(es) == [w];
      ItemsGoOn(src, p, q, e.after, CLOSE_ARRAY, [], items, w);
    } else {
      ItemsGoOn(src, p, q, e.after, COMMA, ElementsText(es[1..]), items, w);
      ElementsRead(src, q + |e.after| + 1, es[1..], items + [w]);
      assert items + DenotedItems(es) == (items + [w]) + DenotedItems(es[1..]);
    }
  }

  lemma ArrayRead(src: seq<byte>, p: nat, space: seq<byte>, es: seq<Element>)
    requires IsBlank(space) && AreElements(es) && At(src, p, TextOf(TArray(space, es)))
    ensures p <= |src|
    ensures ParseArray(src, p) == Parsed(JArray(DenotedItems(es)), p + |TextOf(TArray(space, es))|)
    decreases es, 2
  {
    hide ParseItems, At, IsBlank, IsSpace, SkipSpace, ElementsText, DenotedItems, AreElements;
    var body := if es == [] then space + [']' as byte] else ElementsText(es);
    assert [] + (['[' as byte] + body) == TextOf(TArray(space, es));
    NoSpaceIsBlank();
    MarksAreNoSpace();
    MarkRead(src, p, [], OPEN_ARRAY, body);
    if es == [] {
      assert body == space + ([']' as byte] + []);
      MarkRead(src, p + 1, space, CLOSE_ARRAY, []);
      NothingDenoted([]);
    } else {
      ElementsRead(src, p + 1, es, []);
      ItemsBehindSpace(src, p + 1, []);
      FirstElementFound(src, p + 1, es);
      assert [] + DenotedItems(es) == DenotedItems(es);
    }
  }

  lemma FirstElementFound(src: seq<byte>, p: nat, es: seq<Element>)
    requires es != [] && AreElements(es) && At(src, p, ElementsText(es))
    ensures p <= |src| && SkipSpace(src, p) < |src| && src[SkipSpace(src, p)] != CLOSE_ARRAY
  {
    hide At, IsBlank, SkipSpace, TextOf, IsTree, Begins;
    var e, others := es[0], OtherElements(es[1..]);
    RegroupTwo(e.before, TextOf(e.item), e.after + others);
    AtSplit(src, p, e.before + TextOf(e.item), e.after + others);
    ValueFound(src, p, e.before, e.item);
    BeginsNoSpace(e.item, src[p + |e.before|]);
  }

  lemma ValueRead(src: seq<byte>, p: nat, space: seq<byte>, t: Tree)
    requires IsBlank(space) && IsTree(t) && At(src, p, space + TextOf(t))
    requires MayFollow(ByteAt(src, p + |space + TextOf(t)|))
    ensures p <= |src| && ParseValue(src, p) == Parsed(Denoted(t), p + |space + TextOf(t)|)
    decreases t, 0
  {
    hide At, IsBlank, IsSpace, SkipSpace, ParseString, ParseNumber, ParseArray, ParseObject, TextOf, MayFollow;
    hide DenotedItems, DenotedMembers, AreElements, ArePairs;
    ValueFound(src, p, space, t);
    match t
    case TArray(inner, es) => ArrayRead(src, p + |space|, inner, es);
    case TObject(inner, ps) => ObjectRead(src, p + |space|, inner, ps);
    case _ => LeafRead(src, p, space, t);
  }

  // ---- Objects -------------------------------------------------------------------------------

  function PairText(p: Pair): seq<byte> {
    p.before + (StringText(p.key) + (p.afterKey + ([':' as byte] + (p.beforeValue + TextOf(p.value)))))
  }

  lemma PairThenOthers(p: Pair, rest: seq<byte>)
    ensures PairText(p) + rest
         == p.before + (StringText(p.key) + (p.afterKey + ([':' as byte] + (p.beforeValue + (TextOf(p.value) + rest)))))
  {
    hide StringText, TextOf;
    var a, b, c, d, e, f := p.before, StringText(p.key), p.afterKey, [':' as byte], p.beforeValue, TextOf(p.value);
    RegroupTwo(e, f, rest);
    RegroupTwo(d, e + f, rest);
    RegroupTwo(c, d + (e + f), rest);
    RegroupTwo(b, c + (d + (e + f)), rest);
    RegroupTwo(a, b + (c + (d + (e + f))), rest);
  }

  predicate IsPair(p: Pair) {
    && IsBlank(p.before) && IsShortString(p.key) && IsBlank(p.afterKey)
    && IsBlank(p.beforeValue) && IsTree(p.value) && IsBlank(p.after)
  }

  function DenotedMember(p: Pair): Member
    requires IsPair(p)
  {
    Member(CString(BytesOf(p.key)), Denoted(p.value))
  }

  /** A key, a colon and a value. */
  lemma PairRead(src: seq<byte>, p: nat, pair: Pair)
    requires IsPair(pair) && At(src, p, PairText(pair)) && MayFollow(ByteAt(src, p + |PairText(pair)|))
    ensures p <= |src| && ParseMember(src, p) == Parsed(DenotedMember(pair), p + |PairText(pair)|)
    decreases pair.value, 1
  {
    hide ParseString, ParseValue, At, IsBlank, IsSpace, StringText, TextOf, CString, BytesOf, IsShortString;
    hide MayFollow, SkipSpace, Denoted;
    var value := pair.beforeValue + TextOf(pair.value);
    var colon := pair.afterKey + ([':' as byte] + value);
    var key := pair.before + StringText(pair.key);
    RegroupTwo(pair.before, StringText(pair.key), colon);
    AtSplit(src, p, key, colon);
    StringRead(src, p, pair.before, pair.key);
    MarksAreNoSpace();
    MarkRead(src, p + |key|, pair.afterKey, COLON, value);
    ValueRead(src, p + |key| + |pair.afterKey| + 1, pair.beforeValue, pair.value);
  }

  lemma OtherPairsBegin(ps: seq<Pair>)
    ensures OtherPairs(ps) != [] && MayFollow(OtherPairs(ps)[0])
  {
    hide PairsText;
  }

  lemma MembersGoOn(src: seq<byte>, p: nat, q: nat, space: seq<byte>, mark: byte, rest: seq<byte>,
                    members: seq<Member>, m: Member)
    requires p <= |src| && q <= |src| && ParseMember(src, p) == Parsed(m, q)
    requires IsBlank(space) && (mark == CLOSE_OBJECT || mark == COMMA) && At(src, q, space + ([mark] + rest))
    ensures q + |space| + 1 <= |src| && At(src, q + |space| + 1, rest)
    ensures var members' := SetMember(members, m.key, m.value);
            ParseMembers(src, p, members) == (
              if mark == CLOSE_OBJECT then Parsed(JObject(members'), q + |space| + 1)
              else ParseMembers(src, q + |space| + 1, members'))
  {
    hide ParseMember, At, IsBlank, IsSpace, SkipSpace, SetMember;
    MarksAreNoSpace();
    MarkRead(src, q, space, mark, rest);
  }

  lemma {:induction false} PairsRead(src: seq<byte>, p: nat, ps: seq<Pair>, members: seq<Member>)
    requires ps != [] && ArePairs(ps) && At(src, p, PairsText(ps))
    ensures p <= |src|
    ensures ParseMembers(src, p, members) == Parsed(JObject(DenotedMembers(ps, members)), p + |PairsText(ps)|)
    decreases ps, 1
  {
    hide ParseMember, ParseMembers, At, IsBlank, IsSpace, SkipSpace, TextOf, Denoted, IsTree, MayFollow, SetMember;
    hide StringText, CString, BytesOf, IsShortString, PairText;
    var pair, others := ps[0], OtherPairs(ps[1..]);
    var q := p + |PairText(pair)|;
    OtherPairsBegin(ps[1..]);
    PairThenOthers(pair, pair.after + others);
    AtSplit(src, p, PairText(pair), pair.after + others);
    FollowsValue(src, q, pair.after, others);
    AtBounds(src, q, pair.after + others);
    PairRead(src, p, pair);
    var m := DenotedMember(pair);
    var members' := SetMember(members, m.key, m.value);
    if ps[1..] == [] {
      assert others == ['}' as byte] + [];
      NothingDenoted(members');
      MembersGoOn(src, p, q, pair.after, CLOSE_OBJECT, [], members, m);
    } else {
      MembersGoOn(src, p, q, pair.after, COMMA, PairsText(ps[1..]), members, m);
      PairsRead(src, q + |pair.after| + 1, ps[1..], members');
    }
  }

  lemma MembersBehindSpace(src: seq<byte>, p: nat, members: seq<Member>)
    requires p <= |src|
    ensures ParseMembers(src, SkipSpace(src, p), members) == ParseMembers(src, p, members)
  {
    hide SkipSpace, ParseValue, StringBody, SetMember;
    SkippedOnce(src, p);
    assert ParseString(src, SkipSpace(src, p)) == ParseString(src, p);
    assert ParseMember(src, SkipSpace(src, p)) == ParseMember(src, p);
  }

  lemma FirstPairFound(src: seq<byte>, p: nat, ps: seq<Pair>)
    requires ps != [] && ArePairs(ps) && At(src, p, PairsText(ps))
    ensures p <= |src| && SkipSpace(src, p) < |src| && src[SkipSpace(src, p)] == QUOTE
  {
    hide At, IsBlank, SkipSpace, TextOf, IsTree, CharsText;
    var rest := PairsText(ps)[|ps[0].before| + 1..];
    assert PairsText(ps) == ps[0].before + (['"' as byte] + rest);
    MarksAreNoSpace();
    MarkRead(src, p, ps[0].before, QUOTE, rest);
  }

  lemma ObjectRead(src: seq<byte>, p: nat, space: seq<byte>, ps: seq<Pair>)
    requires IsBlank(space) && ArePairs(ps) && At(src, p, TextOf(TObject(space, ps)))
    ensures p <= |src|
    ensures ParseObject(src, p) == Parsed(JObject(DenotedMembers(ps, [])), p + |TextOf(TObject(space, ps))|)
    decreases ps, 2
  {
    hide ParseMembers, At, IsBlank, IsSpace, SkipSpace, PairsText, DenotedMembers, ArePairs;
    var body := if ps == [] then space + ['}' as byte] else PairsText(ps);
    assert [] + (['{' as byte] + body) == TextOf(TObject(space, ps));
    NoSpaceIsBlank();
    MarksAreNoSpace();
    MarkRead(src, p, [], OPEN_OBJECT, body);
    if ps == [] {
      assert body == space + (['}' as byte] + []);
      MarkRead(src, p + 1, space, CLOSE_OBJECT, []);
      NothingDenoted([]);
    } else {
      PairsRead(src, p + 1, ps, []);
      MembersBehindSpace(src, p + 1, []);
      FirstPairFound(src, p + 1, ps);
    }
  }

  /** A whole text, with white space around the value. */
  lemma TextRead(before: seq<byte>, t: Tree, after: seq<byte>)
    requires IsBlank(before) && IsTree(t) && IsBlank(after)
    ensures ParseValue(before + TextOf(t) + after, 0) == Parsed(Denoted(t), |before + TextOf(t)|)
  {
    hide At, IsTree, TextOf, Denoted, ParseValue;
    var src := before + TextOf(t) + after;
    AtAll(src);
    AtSplit(src, 0, before + TextOf(t), after);
    AtHead(src, |before + TextOf(t)|, after);
    BlankMayFollow(after);
    ValueRead(src, 0, before, t);
  }

  lemma BlankMayFollow(space: seq<byte>)
    requires IsBlank(space)
    ensures MayFollow(ByteAt(space, 0))
  {
  }

  // ---- What is refused -------------------------------------------------------------------------

  /** No value begins with another byte. */
  lemma OtherBeginningFails(src: seq<byte>, p: nat)
    requires p <= |src| && ByteAt(src, SkipSpace(src, p)) as char !in "\"{[tfn-0123456789"
    ensures ParseValue(src, p) == Error
  {
    hide SkipSpace, ParseString, ParseNumber, ParseArray, ParseObject;
  }

  /** Behind an element there must be a comma or a bracket. */
  lemma ItemsNeedMark(src: seq<byte>, p: nat, items: seq<Json>)
    requires p <= |src| && ParseValue(src, p).Parsed?
    requires ByteAt(src, SkipSpace(src, ParseValue(src, p).pos)) as char !in ",]"
    ensures ParseItems(src, p, items) == Error
  {
    hide SkipSpace, ParseValue;
  }

  lemma MembersNeedMark(src: seq<byte>, p: nat, members: seq<Member>)
    requires p <= |src| && ParseMember(src, p).Parsed?
    requires ByteAt(src, SkipSpace(src, ParseMember(src, p).pos)) as char !in ",}"
    ensures ParseMembers(src, p, members) == Error
  {
    hide SkipSpace, ParseMember;
  }

  /** Behind a key there must be a colon. */
  lemma MemberNeedsColon(src: seq<byte>, p: nat)
    requires p <= |src| && ParseString(src, p).Parsed?
    requires ByteAt(src, SkipSpace(src, ParseString(src, p).pos)) as char != ':'
    ensures ParseMember(src, p) == Error
  {
    hide SkipSpace, ParseValue, ParseString;
  }
}
