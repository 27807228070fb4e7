/**
 Parsing printed text: JSON.parse(JSON.stringify(v)) is the pruned value, exactly when no string
 that is kept reaches the parser's length limit.
 */
module JsonRoundTrip {
  import opened Wrappers
  import opened Bytes
  import opened Numerals
  import opened JsonText
  import opened JsonNumbers

  // ---- Conditions ----------------------------------------------------------------------

  predicate HasKey(members: seq<Member>, key: seq<byte>) {
    exists i :: 0 <= i < |members| && members[i].key == key
  }

  /** What the engine guarantees: C strings, Int32 numbers, and distinct keys in an object. */
  predicate Clean(v: Value)
    decreases v, 0
  {
    match v
    case Int(n) => Int32(n)
    case Text(s) => NoNul(s)
    case Array(items) => CleanItems(items)
    case Object(props) => CleanProps(props)
    case _ => true
  }

  predicate CleanItems(items: seq<Value>)
    decreases items, 1
  {
    items == [] || (Clean(items[0]) && CleanItems(items[1..]))
  }

  predicate CleanProps(props: seq<Property>)
    decreases props, 1
  {
    props == [] ||
    (&& NoNul(props[0].key)
     && Clean(props[0].value)
     && (forall i :: 1 <= i < |props| ==> props[i].key != props[0].key)
     && CleanProps(props[1..]))
  }

  /** Every string and key is below the parser's limit. */
  predicate Short(j: Json)
    decreases j, 0
  {
    match j
    case JText(s) => |s| < 4095
    case JArray(items) => ShortItems(items)
    case JObject(members) => ShortMembers(members)
    case _ => true
  }

  predicate ShortItems(items: seq<Json>)
    decreases items, 1
  {
    items == [] || (Short(items[0]) && ShortItems(items[1..]))
  }

  predicate ShortMembers(members: seq<Member>)
    decreases members, 1
  {
    members == [] || (|members[0].key| < 4095 && Short(members[0].value) && ShortMembers(members[1..]))
  }

  // ---- Strings -------------------------------------------------------------------------

  lemma HexDigitValue(n: nat)
    requires n < 16
    ensures HexValue(HexDigit(n)) == Some(n)
  {
  }

  lemma ControlCode(c: byte)
    requires 0 < c < 32
    ensures UnicodeCode([48, 48, HexDigit(c as int / 16), HexDigit(c as int % 16)]) == c as int
  {
    var h, l := c as int / 16, c as int % 16;
    var s: seq<byte> := [48, 48, HexDigit(h), HexDigit(l)];
    HexDigitValue(h);
    HexDigitValue(l);
    assert s[1..][1..][1..] == [HexDigit(l)];
    assert HexRun(s[1..][1..][1..], h) == h * 16 + l;
    assert HexRun(s[1..][1..], 0) == h * 16 + l;
    assert HexRun(s[1..], 0) == HexRun(s[1..][1..], 0);
    assert HexRun(s, 0) == HexRun(s[1..], 0);
  }

  /** Every byte is read back from its escaped form. */
  lemma UnitReadBack(src: seq<byte>, pos: nat, c: byte)
    requires c != 0 && At(src, pos, EscapeByte(c))
    ensures pos < |src| && src[pos] != QUOTE
    ensures StringUnit(src, pos) == Parsed([c], pos + |EscapeByte(c)|)
  {
    var e := EscapeByte(c);
    AtFirst(src, pos, e);
    assert src[pos] == e[0];
    if |e| == 2 {
      assert src[pos + 1] == e[1];
    } else if |e| == 6 {
      assert src[pos + 1] == e[1];
      assert src[pos + 2..pos + 6] == e[2..] by {
        assert src[pos + 2] == e[2] && src[pos + 3] == e[3] && src[pos + 4] == e[4] && src[pos + 5] == e[5];
      }
      assert e[2..] == [48, 48, HexDigit(c as int / 16), HexDigit(c as int % 16)];
      ControlCode(c);
    }
  }

  lemma {:induction false} BodyReadBack(src: seq<byte>, pos: nat, s: seq<byte>, text: seq<byte>)
    requires NoNul(s) && |text| < 4095 && At(src, pos, EscapeAll(s) + [QUOTE])
    ensures pos + |EscapeAll(s)| + 1 <= |src|
    ensures StringBody(src, pos, text) ==
      if |text + s| < 4095 then Parsed(text + s, pos + |EscapeAll(s)| + 1) else Error
    decreases |s|
  {
    hide StringUnit, EscapeByte;
    if s == [] {
      AtFirst(src, pos, [QUOTE]);
      assert src[pos + 0] == QUOTE;
      assert text + s == text;
    } else {
      var c, rest := s[0], EscapeAll(s[1..]) + [QUOTE];
      assert EscapeAll(s) + [QUOTE] == EscapeByte(c) + rest;
      AtSplit(src, pos, EscapeByte(c), rest);
      UnitReadBack(src, pos, c);
      assert text + s == (text + [c]) + s[1..];
      if |text + [c]| < 4095 {
        BodyReadBack(src, pos + |EscapeByte(c)|, s[1..], text + [c]);
      } else {
        AtBounds(src, pos + |EscapeByte(c)|, rest);
      }
    }
  }

  lemma NoSpaceHere(src: seq<byte>, pos: nat)
    requires pos <= |src| && (pos < |src| ==> !IsSpace(src[pos]))
    ensures SkipSpace(src, pos) == pos
  {
  }

  /** A printed string is read back, unless it is too long. */
  lemma StringReadBack(src: seq<byte>, pos: nat, s: seq<byte>)
    requires NoNul(s) && At(src, pos, Quoted(s))
    ensures pos + |Quoted(s)| <= |src| && src[pos] == QUOTE
    ensures ParseString(src, pos) == if |s| < 4095 then Parsed(s, pos + |Quoted(s)|) else Error
  {
    hide EscapeAll, StringBody, CString;
    AtSplit(src, pos, [QUOTE], EscapeAll(s) + [QUOTE]);
    AtFirst(src, pos, [QUOTE]);
    assert src[pos + 0] == QUOTE;
    NoSpaceHere(src, pos);
    BodyReadBack(src, pos + 1, s, []);
    assert [] + s == s;
    CStringWhole(s);
  }

  // ---- Numbers -------------------------------------------------------------------------

  /** What may follow a value in printed text. */
  predicate Delimited(src: seq<byte>, pos: nat) {
    pos <= |src| && (pos < |src| ==> src[pos] == COMMA || src[pos] == CLOSE_ARRAY || src[pos] == CLOSE_OBJECT)
  }

  /** A number of digits alone. */
  function IntLexeme(n: int): Lexeme {
    Lexeme(n < 0, Digits(Magnitude(n), 10), None, None)
  }

  lemma IntIsLexeme(n: int)
    ensures var l := IntLexeme(n);
            && WellFormed(l) && NoLeadingZero(l) && l.whole != []
            && Written(l) == IntText(n) && Meaning(l) == n as real
  {
    hide Digits, DigitVal;
    var l := IntLexeme(n);
    DigitsReadBack(Magnitude(n), 10);
    NumberTextIs(n, 10);
    assert FractionText(l) + PowerText(l) == [];
    assert Unsigned(l) == l.whole;
    assert PowerOfTen(0) == 1.0;
  }

  lemma IntReadBack(src: seq<byte>, pos: nat, n: int)
    requires Int32(n) && At(src, pos, IntText(n)) && Delimited(src, pos + |IntText(n)|)
    ensures pos < |src| && (src[pos] == MINUS || IsDecimal(src[pos]))
    ensures ParseNumber(src, pos) == Parsed(JNumber(n as real), pos + |IntText(n)|)
  {
    hide Digits, At, Written, Meaning, ParseNumber;
    IntIsLexeme(n);
    Int32DigitsAreFew(Magnitude(n), 10);
    NumberTextIs(n, 10);
    NumberRead(src, pos, IntLexeme(n));
  }

  // ---- Values --------------------------------------------------------------------------

  /** A byte with which the text of a value can begin. */
  predicate StartsValue(c: byte) {
    || c == QUOTE || c == OPEN_OBJECT || c == OPEN_ARRAY
    || c == 116 || c == 102 || c == 110
    || c == MINUS || IsDecimal(c)
  }

  lemma FirstByte(v: Value, depth: nat)
    requires Stringify(v, depth).Some?
    ensures |Stringify(v, depth).value| > 0 && StartsValue(Stringify(v, depth).value[0])
  {
    hide StringifyItems, StringifyProps, Digits;
    if v.Int? {
      DigitsReadBack(if v.n < 0 then -v.n else v.n, 10);
    }
  }

  lemma PrintedIsKept(v: Value, depth: nat)
    ensures Stringify(v, depth).Some? <==> Prune(v, depth).Some?
  {
    hide StringifyItems, StringifyProps, PruneItems, PruneProps;
  }

  /** The text of an array item: undefined prints as null. */
  function ItemText(v: Value, depth: nat): (t: seq<byte>) {
    var text := Stringify(v, depth);
    if text.Some? then text.value else NULL_TEXT
  }

  function ItemValue(v: Value, depth: nat): Json {
    var item := Prune(v, depth);
    if item.Some? then item.value else JNull
  }

  lemma ItemStarts(v: Value, depth: nat)
    ensures |ItemText(v, depth)| > 0 && StartsValue(ItemText(v, depth)[0])
  {
    hide Stringify;
    if Stringify(v, depth).Some? {
      FirstByte(v, depth);
    }
  }

  /** The literal texts are read back. */
  lemma WordReadBack(src: seq<byte>, pos: nat, word: seq<byte>)
    requires word == NULL_TEXT || word == TRUE_TEXT || word == FALSE_TEXT
    requires At(src, pos, word)
    ensures ParseValue(src, pos)
         == Parsed(if word == NULL_TEXT then JNull else JBool(word == TRUE_TEXT), pos + |word|)
  {
    AtFirst(src, pos, word);
    assert src[pos + 0] == word[0];
    NoSpaceHere(src, pos);
  }

  lemma LeafReadBack(src: seq<byte>, pos: nat, v: Value, depth: nat)
    requires !v.Array? && !v.Object? && Clean(v) && Prune(v, depth).Some? && Stringify(v, depth).Some?
    requires At(src, pos, Stringify(v, depth).value) && Delimited(src, pos + |Stringify(v, depth).value|)
    ensures ParseValue(src, pos)
         == Answer(Prune(v, depth).value, pos + |Stringify(v, depth).value|)
  {
    hide ParseArray, ParseObject, ParseNumber, ParseString, IntText, Quoted;
    match v
    case Null => WordReadBack(src, pos, NULL_TEXT);
    case NonFinite => WordReadBack(src, pos, NULL_TEXT);
    case Bool(b) => WordReadBack(src, pos, if b then TRUE_TEXT else FALSE_TEXT);
    case Int(n) =>
      IntReadBack(src, pos, n);
      NoSpaceHere(src, pos);
    case Text(s) =>
      StringReadBack(src, pos, s);
      NoSpaceHere(src, pos);
    case _ =>
  }

  /** After an item comes the end of the array, or a comma and the other items. */
  lemma AfterItem(items: seq<Value>, depth: nat)
    requires items != []
    ensures StringifyItems(items, depth, true) == ItemText(items[0], depth) + StringifyItems(items[1..], depth, false)
    ensures items[1..] == [] ==> StringifyItems(items[1..], depth, false) == [CLOSE_ARRAY]
    ensures items[1..] != [] ==>
      StringifyItems(items[1..], depth, false) == [COMMA] + StringifyItems(items[1..], depth, true)
    ensures PruneItems(items, depth) == [ItemValue(items[0], depth)] + PruneItems(items[1..], depth)
  {
    hide Stringify, Prune;
    var text := ItemText(items[0], depth);
    assert StringifyItems(items, depth, true) == [] + (text + StringifyItems(items[1..], depth, false));
    if items[1..] != [] {
      var text2, rest2 := ItemText(items[1], depth), StringifyItems(items[1..][1..], depth, false);
      assert StringifyItems(items[1..], depth, false) == [COMMA] + (text2 + rest2);
      assert StringifyItems(items[1..], depth, true) == [] + (text2 + rest2);
    }
  }

  /** What parsing must answer where `w` was printed up to `end`. */
  function Answer(w: Json, end: nat): Parsed<Json> {
    if Short(w) then Parsed(w, end) else Error
  }

  /** Reading one item: a separator or the end behind it decides how the array goes on. */
  lemma ItemsStep(src: seq<byte>, pos: nat, end: nat, items: seq<Json>, w: Json)
    requires pos <= |src| && end < |src|
    requires ParseValue(src, pos) == Answer(w, end)
    requires src[end] == COMMA || src[end] == CLOSE_ARRAY
    ensures ParseItems(src, pos, items) ==
      if !Short(w) then Error
      else if src[end] == CLOSE_ARRAY then Parsed(JArray(items + [w]), end + 1)
      else ParseItems(src, end + 1, items + [w])
  {
    hide ParseValue, Short;
    NoSpaceHere(src, end);
  }

  lemma MembersStep(src: seq<byte>, pos: nat, end: nat, members: seq<Member>, m: Member)
    requires pos <= |src| && end < |src|
    requires ParseMember(src, pos) == if Short(JObject([m])) then Parsed(m, end) else Error
    requires src[end] == COMMA || src[end] == CLOSE_OBJECT
    requires !HasKey(members, m.key)
    ensures ParseMembers(src, pos, members) ==
      if !Short(JObject([m])) then Error
      else if src[end] == CLOSE_OBJECT then Parsed(JObject(members + [m]), end + 1)
      else ParseMembers(src, end + 1, members + [m])
  {
    hide ParseMember, Short;
    NoSpaceHere(src, end);
    NewMember(members, m);
  }

  lemma {:induction false} NewMember(members: seq<Member>, m: Member)
    requires !HasKey(members, m.key)
    ensures SetMember(members, m.key, m.value) == members + [m]
  {
    if members != [] {
      assert members[0].key != m.key;
      forall i | 0 <= i < |members[1..]|
        ensures members[1..][i].key != m.key
      {
        assert members[1..][i] == members[i + 1];
      }
      NewMember(members[1..], m);
      assert members == [members[0]] + members[1..];
    }
  }

  lemma ItemReadBack(src: seq<byte>, pos: nat, v: Value, depth: nat)
    requires Clean(v) && At(src, pos, ItemText(v, depth)) && Delimited(src, pos + |ItemText(v, depth)|)
    ensures pos <= |src|
    ensures ParseValue(src, pos) == Answer(ItemValue(v, depth), pos + |ItemText(v, depth)|)
    decreases v, 1
  {
    hide Stringify, Prune, ParseValue, Short;
    PrintedIsKept(v, depth);
    AtBounds(src, pos, ItemText(v, depth));
    if Stringify(v, depth).Some? {
      ValueReadBack(src, pos, v, depth);
    } else {
      WordReadBack(src, pos, NULL_TEXT);
      NullIsShort();
    }
  }

  lemma NullIsShort()
    ensures Short(JNull)
  {
  }

  lemma {:induction false} ItemsReadBack(src: seq<byte>, pos: nat, items: seq<Value>, depth: nat, acc: seq<Json>)
    requires items != [] && CleanItems(items) && At(src, pos, StringifyItems(items, depth, true))
    ensures pos <= |src|
    ensures ParseItems(src, pos, acc) ==
      if ShortItems(PruneItems(items, depth))
      then Parsed(JArray(acc + PruneItems(items, depth)), pos + |StringifyItems(items, depth, true)|)
      else Error
    decreases items, 2
  {
    hide StringifyItems, PruneItems, ParseItems, ParseValue, Short, ItemText, ItemValue, Clean;
    var text, rest := ItemText(items[0], depth), StringifyItems(items[1..], depth, false);
    var w := ItemValue(items[0], depth);
    var end := pos + |text|;
    AfterItem(items, depth);
    AtSplit(src, pos, text, rest);
    AtFirst(src, end, rest);
    assert src[end + 0] == rest[0];
    ItemReadBack(src, pos, items[0], depth);
    ItemsStep(src, pos, end, acc, w);
    assert ShortItems(PruneItems(items, depth)) == (Short(w) && ShortItems(PruneItems(items[1..], depth))) by {
      assert ([w] + PruneItems(items[1..], depth))[1..] == PruneItems(items[1..], depth);
    }
    if items[1..] == [] {
      NoItems(depth);
      assert PruneItems(items, depth) == [w];
      assert |StringifyItems(items, depth, true)| == |text| + 1;
    } else {
      AtSplit(src, end, [COMMA], StringifyItems(items[1..], depth, true));
      ItemsReadBack(src, end + 1, items[1..], depth, acc + [w]);
      assert acc + PruneItems(items, depth) == (acc + [w]) + PruneItems(items[1..], depth);
    }
  }

  lemma NoItems(depth: nat)
    ensures PruneItems([], depth) == [] && PruneProps([], depth) == []
  {
  }

  lemma ArrayReadBack(src: seq<byte>, pos: nat, items: seq<Value>, depth: nat)
    requires CleanItems(items) && At(src, pos, [OPEN_ARRAY] + StringifyItems(items, depth, true))
    ensures pos <= |src|
    ensures ParseValue(src, pos)
         == Answer(JArray(PruneItems(items, depth)), pos + |[OPEN_ARRAY] + StringifyItems(items, depth, true)|)
    decreases items, 3
  {
    hide ParseItems, PruneItems, StringifyItems, Stringify, ParseString, ParseNumber, ParseObject;
    var body := StringifyItems(items, depth, true);
    AtSplit(src, pos, [OPEN_ARRAY], body);
    AtFirst(src, pos, [OPEN_ARRAY]);
    assert src[pos + 0] == OPEN_ARRAY;
    NoSpaceHere(src, pos);
    AtFirst(src, pos + 1, body);
    BodyStarts(items, depth);
    assert src[pos + 1 + 0] == body[0];
    NoSpaceHere(src, pos + 1);
    if items == [] {
      NoItems(depth);
    } else {
      ItemsReadBack(src, pos + 1, items, depth, []);
      assert [] + PruneItems(items, depth) == PruneItems(items, depth);
    }
  }

  lemma BodyStarts(items: seq<Value>, depth: nat)
    ensures var body := StringifyItems(items, depth, true);
      |body| > 0 && (if items == [] then body == [CLOSE_ARRAY] else StartsValue(body[0]))
  {
    hide ItemText, Stringify;
    if items != [] {
      AfterItem(items, depth);
      ItemStarts(items[0], depth);
    }
  }

  lemma ValueReadBack(src: seq<byte>, pos: nat, v: Value, depth: nat)
    requires Clean(v) && Prune(v, depth).Some? && Stringify(v, depth).Some?
    requires At(src, pos, Stringify(v, depth).value) && Delimited(src, pos + |Stringify(v, depth).value|)
    ensures pos <= |src|
    ensures ParseValue(src, pos) == Answer(Prune(v, depth).value, pos + |Stringify(v, depth).value|)
    decreases v, 0
  {
    hide ParseValue, StringifyItems, StringifyProps, PruneItems, PruneProps;
    if v.Array? {
      ArrayReadBack(src, pos, v.items, depth + 1);
    } else if v.Object? {
      ObjectReadBack(src, pos, v.props, depth + 1);
    } else {
      LeafReadBack(src, pos, v, depth);
    }
  }

  // ---- Objects -------------------------------------------------------------------------

  function MemberText(key: seq<byte>, text: seq<byte>): seq<byte> {
    Quoted(key) + ([COLON] + text)
  }

  /** The text of the properties from some point on, by what is left of them after pruning. */
  lemma {:induction false} RemainingProps(props: seq<Property>, depth: nat)
    ensures PruneProps(props, depth) == [] ==>
      StringifyProps(props, depth, true) == StringifyProps(props, depth, false) == [CLOSE_OBJECT]
    ensures PruneProps(props, depth) != [] ==>
      StringifyProps(props, depth, false) == [COMMA] + StringifyProps(props, depth, true)
    decreases |props|
  {
    hide Stringify, Prune, Quoted;
    if props != [] {
      PrintedIsKept(props[0].value, depth);
      if Stringify(props[0].value, depth).None? {
        RemainingProps(props[1..], depth);
      } else {
        var text := Stringify(props[0].value, depth).value;
        var body := Quoted(props[0].key) + ([COLON] + (text + StringifyProps(props[1..], depth, false)));
        assert StringifyProps(props, depth, true) == [] + body == body;
      }
    }
  }

  /** The first property: dropped, or printed in front of the others. */
  lemma FirstProp(props: seq<Property>, depth: nat)
    requires props != []
    ensures match Stringify(props[0].value, depth)
      case None =>
        && StringifyProps(props, depth, true) == StringifyProps(props[1..], depth, true)
        && PruneProps(props, depth) == PruneProps(props[1..], depth)
      case Some(text) =>
        && Prune(props[0].value, depth).Some?
        && StringifyProps(props, depth, true)
           == MemberText(props[0].key, text) + StringifyProps(props[1..], depth, false)
        && PruneProps(props, depth)
           == [Member(props[0].key, Prune(props[0].value, depth).value)] + PruneProps(props[1..], depth)
  {
    hide Stringify, Prune, Quoted;
    PrintedIsKept(props[0].value, depth);
    match Stringify(props[0].value, depth)
    case None =>
    case Some(text) =>
      var q, rest := Quoted(props[0].key), StringifyProps(props[1..], depth, false);
      assert [] + (q + ([COLON] + (text + rest))) == (q + ([COLON] + text)) + rest;
  }

  lemma MemberReadBack(src: seq<byte>, pos: nat, p: Property, depth: nat, text: seq<byte>)
    requires NoNul(p.key) && Clean(p.value) && Stringify(p.value, depth) == Some(text)
    requires At(src, pos, MemberText(p.key, text)) && Delimited(src, pos + |MemberText(p.key, text)|)
    ensures pos <= |src| && Prune(p.value, depth).Some?
    ensures var m := Member(p.key, Prune(p.value, depth).value);
      ParseMember(src, pos) == if Short(JObject([m])) then Parsed(m, pos + |MemberText(p.key, text)|) else Error
    decreases p.value, 1
  {
    hide Stringify, Prune, Quoted, ParseString, ParseValue, Short;
    PrintedIsKept(p.value, depth);
    ShortMember(Member(p.key, Prune(p.value, depth).value));
    AtSplit(src, pos, Quoted(p.key), [COLON] + text);
    var colon := pos + |Quoted(p.key)|;
    AtSplit(src, colon, [COLON], text);
    AtFirst(src, colon, [COLON]);
    assert src[colon + 0] == COLON;
    NoSpaceHere(src, colon);
    StringReadBack(src, pos, p.key);
    ValueReadBack(src, colon + 1, p.value, depth);
  }

  lemma {:induction false} MembersReadBack(src: seq<byte>, pos: nat, props: seq<Property>, depth: nat, acc: seq<Member>)
    requires CleanProps(props) && PruneProps(props, depth) != []
    requires At(src, pos, StringifyProps(props, depth, true))
    requires forall i :: 0 <= i < |props| ==> !HasKey(acc, props[i].key)
    ensures pos <= |src|
    ensures ParseMembers(src, pos, acc) ==
      if ShortMembers(PruneProps(props, depth))
      then Parsed(JObject(acc + PruneProps(props, depth)), pos + |StringifyProps(props, depth, true)|)
      else Error
    decreases props, 2
  {
    hide StringifyProps, PruneProps, ParseMembers, ParseMember, MemberText;
    hide Stringify, Prune, Clean, NoNul, HasKey, Short;
    if props == [] {
      NoItems(depth);
    } else {
      FirstProp(props, depth);
      if Stringify(props[0].value, depth).None? {
        MembersReadBack(src, pos, props[1..], depth, acc);
      } else {
        PrintedMember(src, pos, props, depth, acc);
      }
    }
  }

  lemma HasKeyAppended(members: seq<Member>, m: Member, key: seq<byte>)
    requires !HasKey(members, key) && m.key != key
    ensures !HasKey(members + [m], key)
  {
  }

  lemma ShortMember(m: Member)
    ensures Short(JObject([m])) <==> |m.key| < 4095 && Short(m.value)
  {
    assert Short(JObject([m])) == ShortMembers([m]);
    assert ShortMembers([m][1..]);
  }

  lemma PrintedMember(src: seq<byte>, pos: nat, props: seq<Property>, depth: nat, acc: seq<Member>)
    requires props != [] && CleanProps(props) && Stringify(props[0].value, depth).Some?
    requires At(src, pos, StringifyProps(props, depth, true))
    requires forall i :: 0 <= i < |props| ==> !HasKey(acc, props[i].key)
    ensures pos <= |src|
    ensures ParseMembers(src, pos, acc) ==
      if ShortMembers(PruneProps(props, depth))
      then Parsed(JObject(acc + PruneProps(props, depth)), pos + |StringifyProps(props, depth, true)|)
      else Error
    decreases props, 1
  {
    hide StringifyProps, PruneProps, ParseMembers, ParseMember, MemberText;
    hide Stringify, Prune, Clean, NoNul, HasKey, Short;
    var p, others := props[0], props[1..];
    var text, rest := Stringify(p.value, depth).value, StringifyProps(others, depth, false);
    FirstProp(props, depth);
    RemainingProps(others, depth);
    var m := Member(p.key, Prune(p.value, depth).value);
    var end := pos + |MemberText(p.key, text)|;
    AtSplit(src, pos, MemberText(p.key, text), rest);
    AtFirst(src, end, rest);
    assert src[end + 0] == rest[0];
    MemberReadBack(src, pos, p, depth, text);
    MembersStep(src, pos, end, acc, m);
    ShortMember(m);
    assert ([m] + PruneProps(others, depth))[1..] == PruneProps(others, depth);
    if PruneProps(others, depth) == [] {
      assert PruneProps(props, depth) == [m];
      assert |StringifyProps(props, depth, true)| == |MemberText(p.key, text)| + 1;
    } else {
      AtSplit(src, end, [COMMA], StringifyProps(others, depth, true));
      forall i | 0 <= i < |others|
        ensures !HasKey(acc + [m], others[i].key)
      {
        assert others[i] == props[i + 1];
        HasKeyAppended(acc, m, others[i].key);
      }
      MembersReadBack(src, end + 1, others, depth, acc + [m]);
      assert acc + PruneProps(props, depth) == (acc + [m]) + PruneProps(others, depth);
    }
  }

  lemma ObjectReadBack(src: seq<byte>, pos: nat, props: seq<Property>, depth: nat)
    requires CleanProps(props) && At(src, pos, [OPEN_OBJECT] + StringifyProps(props, depth, true))
    ensures pos <= |src|
    ensures ParseValue(src, pos)
         == Answer(JObject(PruneProps(props, depth)), pos + |[OPEN_OBJECT] + StringifyProps(props, depth, true)|)
    decreases props, 3
  {
    hide ParseMembers, PruneProps, StringifyProps, ParseString, ParseNumber, ParseArray;
    var body := StringifyProps(props, depth, true);
    AtSplit(src, pos, [OPEN_OBJECT], body);
    AtFirst(src, pos, [OPEN_OBJECT]);
    assert src[pos + 0] == OPEN_OBJECT;
    NoSpaceHere(src, pos);
    RemainingProps(props, depth);
    MembersStart(props, depth);
    AtFirst(src, pos + 1, body);
    assert src[pos + 1 + 0] == body[0];
    NoSpaceHere(src, pos + 1);
    if PruneProps(props, depth) != [] {
      MembersReadBack(src, pos + 1, props, depth, []);
      assert [] + PruneProps(props, depth) == PruneProps(props, depth);
    }
  }

  lemma {:induction false} MembersStart(props: seq<Property>, depth: nat)
    ensures PruneProps(props, depth) != [] ==>
      |StringifyProps(props, depth, true)| > 0 && StringifyProps(props, depth, true)[0] == QUOTE
    decreases |props|
  {
    hide Stringify, Prune;
    if props != [] {
      PrintedIsKept(props[0].value, depth);
      if Stringify(props[0].value, depth).None? {
        MembersStart(props[1..], depth);
      }
    }
  }

  // ---- The round trip ------------------------------------------------------------------

  /**
   JSON.parse after JSON.stringify, for every value: the whole text is consumed and the pruned
   value comes back when all strings and keys that were kept are below the limit, and parsing
   fails when one of them is not.
   */
  lemma ParseAfterStringify(v: Value)
    requires Clean(v) && Stringify(v, 0).Some?
    ensures Prune(v, 0).Some?
    ensures var text, w := Stringify(v, 0).value, Prune(v, 0).value;
      ParseValue(text, 0) == if Short(w) then Parsed(w, |text|) else Error
  {
    hide Stringify, Prune, ParseValue, Short;
    PrintedIsKept(v, 0);
    ValueReadBack(Stringify(v, 0).value, 0, v, 0);
  }

  /** The length limit is exactly what stands between a value and its round trip. */
  lemma RoundTripIffShort(v: Value)
    requires Clean(v) && Stringify(v, 0).Some? && Prune(v, 0).Some?
    ensures ParseValue(Stringify(v, 0).value, 0) == Parsed(Prune(v, 0).value, |Stringify(v, 0).value|)
       <==> Short(Prune(v, 0).value)
  {
    hide Stringify, Prune, ParseValue, Short;
    ParseAfterStringify(v);
  }
}
