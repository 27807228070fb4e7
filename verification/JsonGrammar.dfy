/**
 Texts of the JSON grammar (RFC 8259), written down without regard to the code: what is printed is one
 of them, for the value that was printed.  And what the parser makes of escapes and of repeated keys.
 */
module JsonGrammar {
  import opened Wrappers
  import opened Bytes
  import opened Numerals
  import opened JsonText
  import opened JsonNumbers
  import opened JsonRoundTrip
  import Utf8

  predicate IsWord(t: seq<byte>, word: string) {
    |t| == |word| && forall i :: 0 <= i < |t| ==> t[i] as char == word[i]
  }

  /** The character that a backslash and a letter stand for. */
  predicate StandsFor(letter: char, c: byte) {
    match letter
    case 'b' => c == 8
    case 'f' => c == 12
    case 'n' => c as char == '\n'
    case 'r' => c as char == '\r'
    case 't' => c as char == '\t'
    case _ => letter in "\"\\/" && c as char == letter
  }

  /** One character of a string: as it is, behind a backslash, or by its code. */
  predicate IsUnit(c: byte, t: seq<byte>) {
    || (t == [c] && c >= 32 && c as char !in "\"\\")
    || (|t| == 2 && t[0] as char == '\\' && StandsFor(t[1] as char, c))
    || (|t| == 6 && IsWord(t[..2], "\\u") && AllDigits(t[2..], 16) && c < 0x80 && PlaceValue(t[2..], 16) == c as int)
  }

  ghost predicate IsBody(s: seq<byte>, t: seq<byte>)
    decreases |s|
  {
    if s == [] then t == []
    else exists n: nat :: n <= |t| && IsUnit(s[0], t[..n]) && IsBody(s[1..], t[n..])
  }

  ghost predicate IsString(s: seq<byte>, t: seq<byte>) {
    |t| >= 2 && t[0] as char == '"' && t[|t| - 1] as char == '"' && IsBody(s, t[1..|t| - 1])
  }

  ghost predicate IsNumber(x: real, t: seq<byte>) {
    exists l: Lexeme ::
      && Written(l) == t && WellFormed(l) && NoLeadingZero(l) && l.whole != []
      && (l.fraction.Some? ==> l.fraction.value != [])
      && (l.exponent.Some? ==> l.exponent.value.digits != [])
      && Meaning(l) == x
  }

  /** The text `t` is a JSON text for `w`, without white space. */
  ghost predicate Derives(w: Json, t: seq<byte>)
    decreases w, 0
  {
    match w
    case JNull => IsWord(t, "null")
    case JBool(b) => IsWord(t, if b then "true" else "false")
    case JNumber(x) => IsNumber(x, t)
    case JText(s) => IsString(s, t)
    case JArray(items) =>
      |t| >= 2 && t[0] as char == '[' && t[|t| - 1] as char == ']' && DerivesItems(items, t[1..|t| - 1])
    case JObject(members) =>
      |t| >= 2 && t[0] as char == '{' && t[|t| - 1] as char == '}' && DerivesMembers(members, t[1..|t| - 1])
  }

  /** Items with commas between them. */
  ghost predicate DerivesItems(items: seq<Json>, t: seq<byte>)
    decreases items, 1
  {
    if items == [] then t == []
    else if items[1..] == [] then Derives(items[0], t)
    else
      exists n: nat ::
        n < |t| && Derives(items[0], t[..n]) && t[n] as char == ',' && DerivesItems(items[1..], t[n + 1..])
  }

  /** A key, a colon and a value. */
  ghost predicate DerivesMember(m: Member, t: seq<byte>)
    decreases m.value, 1
  {
    exists n: nat :: n < |t| && IsString(m.key, t[..n]) && t[n] as char == ':' && Derives(m.value, t[n + 1..])
  }

  ghost predicate DerivesMembers(members: seq<Member>, t: seq<byte>)
    decreases members, 1
  {
    if members == [] then t == []
    else if members[1..] == [] then DerivesMember(members[0], t)
    else
      exists n: nat ::
        n < |t| && DerivesMember(members[0], t[..n]) && t[n] as char == ',' && DerivesMembers(members[1..], t[n + 1..])
  }

  // ---- Printed strings ---------------------------------------------------------------------------

  lemma ControlDigits(c: byte)
    requires c < 32
    ensures var t := [48, 48, HexDigit(c as int / 16), HexDigit(c as int % 16)];
            AllDigits(t, 16) && PlaceValue(t, 16) == c as int
  {
    var h, l := HexDigit(c as int / 16), HexDigit(c as int % 16);
    var t: seq<byte> := [48, 48, h, l];
    assert t[..3] == [48, 48, h] && t[..3][..2] == [48, 48] && t[..3][..2][..1] == [48];
    assert t[..3][..2][..1][..0] == [];
    assert DigitVal(h) == c as int / 16 && DigitVal(l) == c as int % 16;
    assert PlaceValue(t[..3][..2][..1], 16) == 0;
    assert PlaceValue(t[..3][..2], 16) == 0;
    assert PlaceValue(t[..3], 16) == c as int / 16;
  }

  lemma EscapedIsUnit(c: byte)
    ensures IsUnit(c, EscapeByte(c))
  {
    var t := EscapeByte(c);
    if |t| == 6 {
      ControlDigits(c);
      assert t[2..] == [48, 48, HexDigit(c as int / 16), HexDigit(c as int % 16)];
    }
  }

  lemma {:induction false} EscapedIsBody(s: seq<byte>)
    ensures IsBody(s, EscapeAll(s))
  {
    hide EscapeByte, IsUnit;
    if s != [] {
      var t, n := EscapeAll(s), |EscapeByte(s[0])|;
      EscapedIsUnit(s[0]);
      EscapedIsBody(s[1..]);
      assert t[..n] == EscapeByte(s[0]) && t[n..] == EscapeAll(s[1..]);
    }
  }

  lemma QuotedIsString(s: seq<byte>)
    ensures IsString(s, Quoted(s))
  {
    EscapedIsBody(s);
    var t := Quoted(s);
    assert t[1..|t| - 1] == EscapeAll(s);
  }

  lemma IntIsNumber(n: int)
    ensures IsNumber(n as real, IntText(n))
  {
    IntIsLexeme(n);
    assert IntLexeme(n).fraction.None? && IntLexeme(n).exponent.None?;
  }

  // ---- Printed values ----------------------------------------------------------------------------

  lemma WordsAreSpelled()
    ensures IsWord(NULL_TEXT, "null") && IsWord(TRUE_TEXT, "true") && IsWord(FALSE_TEXT, "false")
  {
  }

  lemma FirstItem(items: seq<Json>, t: seq<byte>, n: nat)
    requires |items| > 1 && n < |t| && Derives(items[0], t[..n])
    requires t[n] as char == ',' && DerivesItems(items[1..], t[n + 1..])
    ensures DerivesItems(items, t)
  {
  }

  lemma FirstMember(members: seq<Member>, t: seq<byte>, n: nat)
    requires |members| > 1 && n < |t| && DerivesMember(members[0], t[..n])
    requires t[n] as char == ',' && DerivesMembers(members[1..], t[n + 1..])
    ensures DerivesMembers(members, t)
  {
  }

  lemma MemberOf(m: Member, text: seq<byte>)
    requires Derives(m.value, text)
    ensures DerivesMember(m, MemberText(m.key, text))
  {
    hide Derives, IsString, Quoted;
    var t, n := MemberText(m.key, text), |Quoted(m.key)|;
    QuotedIsString(m.key);
    assert t[..n] == Quoted(m.key) && t[n + 1..] == text;
  }

  lemma Bracketed(open: byte, s: seq<byte>)
    requires s != []
    ensures var t := [open] + s;
            |t| >= 2 && t[0] == open && t[|t| - 1] == s[|s| - 1] && t[1..|t| - 1] == s[..|s| - 1]
  {
  }

  /** What is printed for a value is a JSON text for what is kept of it. */
  lemma PrintedIsDerived(v: Value, depth: nat)
    requires Stringify(v, depth).Some? && Prune(v, depth).Some?
    ensures Derives(Prune(v, depth).value, Stringify(v, depth).value)
    decreases v, 0
  {
    hide IsNumber, IsString, StringifyItems, StringifyProps, PruneItems, PruneProps, Quoted, IntText;
    WordsAreSpelled();
    match v
    case Int(n) => IntIsNumber(n);
    case Text(s) => QuotedIsString(s);
    case Array(items) =>
      ItemsDerived(items, depth + 1);
      Bracketed(OPEN_ARRAY, StringifyItems(items, depth + 1, true));
    case Object(props) =>
      PropsDerived(props, depth + 1);
      Bracketed(OPEN_OBJECT, StringifyProps(props, depth + 1, true));
    case _ =>
  }

  lemma ItemDerived(v: Value, depth: nat)
    ensures Derives(ItemValue(v, depth), ItemText(v, depth))
    decreases v, 1
  {
    hide Stringify, Prune;
    WordsAreSpelled();
    PrintedIsKept(v, depth);
    if Stringify(v, depth).Some? {
      PrintedIsDerived(v, depth);
    }
  }

  lemma NothingPrinted(depth: nat)
    ensures StringifyItems([], depth, true) == [']' as byte]
    ensures PruneItems([], depth) == [] && DerivesItems([], [])
  {
  }

  lemma OneItem(w: Json, t: seq<byte>)
    requires Derives(w, t)
    ensures DerivesItems([w], t)
  {
  }

  lemma OneMember(m: Member, t: seq<byte>)
    requires DerivesMember(m, t)
    ensures DerivesMembers([m], t)
  {
  }

  /** A first part, a mark, the other parts and a closing bracket. */
  lemma BeforeLast(first: seq<byte>, mark: byte, others: seq<byte>, t: seq<byte>)
    requires t == first + ([mark] + others) && others != []
    ensures var u, n := t[..|t| - 1], |first|;
            && t[|t| - 1] == others[|others| - 1]
            && n < |u| && u[..n] == first && u[n] == mark && u[n + 1..] == others[..|others| - 1]
  {
  }

  /** The items of an array and its closing bracket. */
  lemma {:induction false} ItemsDerived(items: seq<Value>, depth: nat)
    ensures var t := StringifyItems(items, depth, true);
            t != [] && t[|t| - 1] as char == ']' && DerivesItems(PruneItems(items, depth), t[..|t| - 1])
    decreases items, 2
  {
    hide Derives, DerivesItems, ItemValue, ItemText, StringifyItems, PruneItems;
    var t, w := StringifyItems(items, depth, true), PruneItems(items, depth);
    NothingPrinted(depth);
    if items != [] {
      var first, u := ItemText(items[0], depth), StringifyItems(items[1..], depth, true);
      AfterItem(items, depth);
      ItemDerived(items[0], depth);
      if items[1..] == [] {
        assert w == [ItemValue(items[0], depth)];
        assert t[..|t| - 1] == first;
        OneItem(w[0], first);
      } else {
        ItemsDerived(items[1..], depth);
        AfterItem(items[1..], depth);
        BeforeLast(first, COMMA, u, t);
        assert w[1..] == PruneItems(items[1..], depth);
        FirstItem(w, t[..|t| - 1], |first|);
      }
    }
  }

  /** The members that are left of an object, and its closing bracket. */
  lemma {:induction false} PropsDerived(props: seq<Property>, depth: nat)
    ensures var t := StringifyProps(props, depth, true);
            t != [] && t[|t| - 1] as char == '}' && DerivesMembers(PruneProps(props, depth), t[..|t| - 1])
    decreases props, 2
  {
    hide Stringify, Prune, Derives, DerivesMember, DerivesMembers, MemberText, StringifyProps, PruneProps;
    RemainingProps(props, depth);
    if props == [] {
      NothingKept(depth);
    } else {
      FirstProp(props, depth);
      PropsDerived(props[1..], depth);
      if Stringify(props[0].value, depth).Some? {
        PrintedIsDerived(props[0].value, depth);
        FirstIsKept(props, depth);
      }
    }
  }

  lemma NothingKept(depth: nat)
    ensures PruneProps([], depth) == [] && DerivesMembers([], [])
  {
  }

  lemma FirstIsKept(props: seq<Property>, depth: nat)
    requires props != [] && Stringify(props[0].value, depth).Some? && Prune(props[0].value, depth).Some?
    requires Derives(Prune(props[0].value, depth).value, Stringify(props[0].value, depth).value)
    requires var u := StringifyProps(props[1..], depth, true);
             u != [] && u[|u| - 1] as char == '}' && DerivesMembers(PruneProps(props[1..], depth), u[..|u| - 1])
    ensures var t := StringifyProps(props, depth, true);
            t != [] && t[|t| - 1] as char == '}' && DerivesMembers(PruneProps(props, depth), t[..|t| - 1])
  {
    hide Stringify, Prune, Derives, DerivesMember, DerivesMembers, MemberText, StringifyProps, PruneProps;
    var m := Member(props[0].key, Prune(props[0].value, depth).value);
    var first := MemberText(m.key, Stringify(props[0].value, depth).value);
    var t, w := StringifyProps(props, depth, true), PruneProps(props, depth);
    FirstProp(props, depth);
    RemainingProps(props[1..], depth);
    MemberOf(m, Stringify(props[0].value, depth).value);
    if PruneProps(props[1..], depth) == [] {
      assert w == [m];
      assert t[..|t| - 1] == first;
      OneMember(m, first);
    } else {
      BeforeLast(first, COMMA, StringifyProps(props[1..], depth, true), t);
      assert w[1..] == PruneProps(props[1..], depth);
      FirstMember(w, t[..|t| - 1], |first|);
    }
  }

  /** Values are printed down to the depth of ten. */
  lemma DepthIsTen(v: Value, depth: nat)
    requires !v.Undefined? && !v.Function? && !v.Symbol?
    ensures Stringify(v, depth).Some? <==> depth <= 10
    ensures Prune(v, depth).Some? <==> depth <= 10
  {
  }

  /** What printing keeps of a value that is no array and no object, down to the depth of ten. */
  lemma LeavesKept(n: int, b: bool, s: seq<byte>, depth: nat)
    requires depth <= 10
    ensures Prune(Undefined, depth) == Prune(Function, depth) == Prune(Symbol, depth) == None
    ensures Prune(Null, depth) == Prune(NonFinite, depth) == Some(JNull)
    ensures Prune(Bool(b), depth) == Some(JBool(b)) && Prune(Text(s), depth) == Some(JText(s))
    ensures Prune(Int(n), depth) == Some(JNumber(n as real))
  {
  }

  /** An array keeps its length, null in place of what is not kept. */
  lemma {:induction false} ItemsKept(items: seq<Value>, depth: nat)
    ensures |PruneItems(items, depth)| == |items|
    ensures forall i :: 0 <= i < |items| ==> PruneItems(items, depth)[i] == match Prune(items[i], depth)
                                                                             case None => JNull
                                                                             case Some(w) => w
    decreases |items|
  {
    hide Prune;
    if items != [] {
      ItemsKept(items[1..], depth);
    }
  }

  /** An object keeps exactly the properties whose values are kept. */
  lemma {:induction false} PropsKept(props: seq<Property>, depth: nat, m: Member)
    ensures m in PruneProps(props, depth)
       <==> exists i :: 0 <= i < |props| && props[i].key == m.key && Prune(props[i].value, depth) == Some(m.value)
    decreases |props|
  {
    hide Prune;
    if props != [] {
      PropsKept(props[1..], depth, m);
      assert forall i :: 1 <= i < |props| ==> props[i] == props[1..][i - 1];
    }
  }

  // ---- What the parser makes of white space, escapes and keys ------------------------------------

  lemma SpaceIs(c: byte)
    ensures IsSpace(c) <==> c as char in " \t\n\r"
  {
  }

  lemma EscapeLetters(letter: byte)
    ensures letter as char in "\"\\/bfnrt" ==> StandsFor(letter as char, UnescapeByte(letter))
    ensures letter as char !in "bfnrt" ==> UnescapeByte(letter) == letter
  {
  }

  /** Up to 2^16 the code of an escape is stored in UTF-8. */
  lemma CodeIsUtf8(code: nat)
    requires code < 0x1_0000
    ensures Utf8.IsForm(code, CodeBytes(code)) && CodeBytes(code) == Utf8.Encode(code as Utf8.int32)
  {
    Utf8.EncodedForm(code as Utf8.int32);
  }

  lemma HexDigitIs(c: byte)
    ensures IsDigit(c, 16) <==> HexValue(c).Some?
    ensures IsDigit(c, 16) ==> HexValue(c) == Some(DigitVal(c))
    ensures IsDigit(c, 16) ==> !IsCSpace(c) && c != PLUS && c != MINUS && c != 120 && c != 88
  {
  }

  lemma {:induction false} HexRunAppend(s: seq<byte>, c: byte, acc: nat)
    requires AllDigits(s, 16) && IsDigit(c, 16)
    ensures HexRun(s + [c], acc) == HexRun(s, acc) * 16 + DigitVal(c)
    decreases |s|
  {
    hide HexValue, DigitVal;
    HexDigitIs(c);
    if s == [] {
      assert (s + [c])[1..] == [];
    } else {
      HexDigitIs(s[0]);
      assert (s + [c])[1..] == s[1..] + [c];
      HexRunAppend(s[1..], c, acc * 16 + HexValue(s[0]).value);
    }
  }

  lemma {:induction false} HexRunIs(s: seq<byte>)
    requires AllDigits(s, 16)
    ensures HexRun(s, 0) == PlaceValue(s, 16) < Power(16, |s|)
  {
    hide DigitVal, HexValue;
    if s != [] {
      var n := |s| - 1;
      assert s == s[..n] + [s[n]];
      HexRunAppend(s[..n], s[n], 0);
      HexRunIs(s[..n]);
    }
  }

  /** Four hexadecimal digits are read as their place value. */
  lemma FourHexDigits(s: seq<byte>)
    requires |s| == 4 && AllDigits(s, 16)
    ensures UnicodeCode(s) == PlaceValue(s, 16) < 0x1_0000
  {
    hide DigitVal, HexRun, PlaceValue, HexValue, IsCSpace;
    assert Power(16, 4) == 0x1_0000;
    HexRunIs(s);
    assert IsDigit(s[0], 16) && IsDigit(s[1], 16);
    HexDigitIs(s[0]);
    HexDigitIs(s[1]);
  }

  lemma HexNext(c: byte, s: seq<byte>, acc: nat)
    ensures HexRun([c] + s, acc) == if HexValue(c).None? then acc else HexRun(s, acc * 16 + HexValue(c).value)
  {
    assert ([c] + s)[1..] == s;
  }

  /** What `strtoul` takes besides four digits: a sign, a prefix, leading space, fewer digits. */
  lemma LooseCodes()
    ensures UnicodeCode(['-' as byte, '0' as byte, '0' as byte, '1' as byte]) == 0xFFFF_FFFF
    ensures UnicodeCode(['0' as byte, 'x' as byte, '4' as byte, '1' as byte]) == 0x41
    ensures UnicodeCode([' ' as byte, '+' as byte, '4' as byte, '1' as byte]) == 0x41
    ensures UnicodeCode(['4' as byte, 'g' as byte, '4' as byte, '1' as byte]) == 4
    ensures CodeBytes(0xFFFF_FFFF) == [0xFF, 0xBF, 0xBF]
  {
    hide HexRun;
    var one: seq<byte> := ['1' as byte];
    HexNext('1' as byte, [], 0);
    HexNext('1' as byte, [], 4);
    NoHex(1);
    NoHex(0x41);
    HexNext('0' as byte, one, 0);
    HexNext('0' as byte, ['0' as byte] + one, 0);
    HexNext('4' as byte, one, 0);
    HexNext('4' as byte, ['g' as byte, '4' as byte, '1' as byte], 0);
    HexNext('g' as byte, ['4' as byte, '1' as byte], 4);
    assert one + [] == one == [] + one;
    assert ['-' as byte, '0' as byte, '0' as byte, '1' as byte][1..] == ['0' as byte] + (['0' as byte] + one);
    assert ['0' as byte, 'x' as byte, '4' as byte, '1' as byte][2..] == ['4' as byte] + one;
    var spaced: seq<byte> := [' ' as byte, '+' as byte, '4' as byte, '1' as byte];
    assert spaced[1..][1..] == ['4' as byte] + one;
    assert ['4' as byte, 'g' as byte, '4' as byte, '1' as byte]
        == ['4' as byte] + ['g' as byte, '4' as byte, '1' as byte];
    assert ['g' as byte, '4' as byte, '1' as byte] == ['g' as byte] + ['4' as byte, '1' as byte];
  }

  lemma NoHex(acc: nat)
    ensures HexRun([], acc) == acc
  {
  }

  /** The value of a key, if there is one. */
  function Lookup(members: seq<Member>, key: seq<byte>): Option<Json> {
    if members == [] then None
    else if members[0].key == key then Some(members[0].value)
    else Lookup(members[1..], key)
  }

  /** The last value of a key wins, and the other keys keep theirs. */
  lemma {:induction false} LastValueWins(members: seq<Member>, key: seq<byte>, value: Json, other: seq<byte>)
    ensures Lookup(SetMember(members, key, value), key) == Some(value)
    ensures other != key ==> Lookup(SetMember(members, key, value), other) == Lookup(members, other)
    ensures |SetMember(members, key, value)| == |members| + if Lookup(members, key).None? then 1 else 0
    decreases |members|
  {
    if members != [] && members[0].key != key {
      LastValueWins(members[1..], key, value, other);
    }
  }
}
