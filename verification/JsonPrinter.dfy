/**
 The printer of JSON.stringify: a growing, NUL-terminated buffer and the mutually recursive
 functions that append to it.
 */
module JsonPrinter {
  import opened Wrappers
  import opened Bytes
  import opened Numerals
  import opened JsonText
  import opened JsonRoundTrip

  const INITIAL_CAPACITY := 4096

  /** `JSONBuf`: `pos` bytes of text and a terminating NUL inside `cap` bytes. */
  class JsonBuf {
    var buf: array<byte>
    var pos: nat
    var cap: nat

    ghost predicate Valid()
      reads this, buf
    {
      buf.Length == cap && pos < cap && buf[pos] == 0
    }

    ghost function Contents(): seq<byte>
      requires Valid()
      reads this, buf
    {
      buf[..pos]
    }

    constructor ()
      ensures Valid() && fresh(buf) && Contents() == []
    {
      cap := INITIAL_CAPACITY;
      pos := 0;
      buf := new byte[INITIAL_CAPACITY](_ => 0);
    }

    /** `json_buf_grow`: room for `need` more bytes and the NUL, doubling the capacity. */
    method Grow(need: nat)
      requires Valid()
      modifies this
      ensures Valid() && Contents() == old(Contents()) && pos == old(pos)
      ensures pos + need < cap
      ensures buf == old(buf) || fresh(buf)
    {
      if pos + need < cap {
        return;
      }
      var newCap := cap * 2;
      while newCap < pos + need + 1
        invariant newCap > cap
        decreases pos + need + 1 - newCap
      {
        newCap := newCap * 2;
      }
      var newBuf := new byte[newCap](_ => 0);
      for i := 0 to cap
        invariant buf == old(buf) && cap == old(cap) && pos == old(pos) && Valid()
        invariant newBuf[..i] == buf[..i]
      {
        newBuf[i] := buf[i];
      }
      assert newBuf[pos] == newBuf[..cap][pos];
      assert newBuf[..pos] == newBuf[..cap][..pos] && buf[..pos] == buf[..cap][..pos];
      buf := newBuf;
      cap := newCap;
    }

    method Append(s: seq<byte>)
      requires Valid()
      modifies this, buf
      ensures Valid() && Contents() == old(Contents()) + s
      ensures buf == old(buf) || fresh(buf)
    {
      Grow(|s|);
      ghost var before := Contents();
      var start := pos;
      for i := 0 to |s|
        invariant buf.Length == cap && start + |s| < cap
        invariant buf == old(buf) || fresh(buf)
        invariant buf[..start + i] == before + s[..i]
      {
        buf[start + i] := s[i];
      }
      pos := start + |s|;
      buf[pos] := 0;
    }

    method AppendByte(c: byte)
      requires Valid()
      modifies this, buf
      ensures Valid() && Contents() == old(Contents()) + [c]
      ensures buf == old(buf) || fresh(buf)
    {
      Grow(1);
      buf[pos] := c;
      pos := pos + 1;
      buf[pos] := 0;
    }

    /** `JS_NewString` of the buffer: the text up to the first NUL, which is all of it. */
    method ToText() returns (text: seq<byte>)
      requires Valid() && NoNul(Contents())
      ensures text == Contents()
    {
      var n := 0;
      assert forall k :: 0 <= k < pos ==> buf[k] == Contents()[k];
      while buf[n] != 0
        invariant n <= pos
        decreases pos - n
      {
        n := n + 1;
      }
      text := buf[..n];
    }
  }

  /** The switch of `json_escape_string`. */
  method EscapeOne(b: JsonBuf, c: byte)
    requires b.Valid()
    modifies b, b.buf
    ensures b.Valid() && b.Contents() == old(b.Contents()) + EscapeByte(c)
    ensures b.buf == old(b.buf) || fresh(b.buf)
  {
    if c == QUOTE {
      b.Append([BACKSLASH, QUOTE]);
    } else if c == BACKSLASH {
      b.Append([BACKSLASH, BACKSLASH]);
    } else if c == 8 {
      b.Append([BACKSLASH, 98]);
    } else if c == 12 {
      b.Append([BACKSLASH, 102]);
    } else if c == 10 {
      b.Append([BACKSLASH, 110]);
    } else if c == 13 {
      b.Append([BACKSLASH, 114]);
    } else if c == 9 {
      b.Append([BACKSLASH, 116]);
    } else if c < 32 {
      b.Append([BACKSLASH, 117, 48, 48, HexDigit(c as int / 16), HexDigit(c as int % 16)]);
    } else {
      b.AppendByte(c);
    }
  }

  lemma {:induction false} EscapeNext(s: seq<byte>, i: nat)
    requires i < |s|
    ensures EscapeAll(s[..i + 1]) == EscapeAll(s[..i]) + EscapeByte(s[i])
    decreases i
  {
    hide EscapeByte;
    if i == 0 {
      assert s[..1][1..] == [];
    } else {
      EscapeNext(s[1..], i - 1);
      assert s[..i + 1][1..] == s[1..][..i] && s[..i][1..] == s[1..][..i - 1];
    }
  }

  /** `json_escape_string`. */
  method EscapeString(b: JsonBuf, s: seq<byte>)
    requires b.Valid()
    modifies b, b.buf
    ensures b.Valid() && b.Contents() == old(b.Contents()) + Quoted(s)
    ensures b.buf == old(b.buf) || fresh(b.buf)
  {
    hide EscapeByte, EscapeAll;
    b.AppendByte(QUOTE);
    ghost var before := b.Contents();
    NothingEscaped(s[..0]);
    for i := 0 to |s|
      invariant b.Valid() && (b.buf == old(b.buf) || fresh(b.buf))
      invariant b.Contents() == before + EscapeAll(s[..i])
    {
      EscapeOne(b, s[i]);
      EscapeNext(s, i);
    }
    b.AppendByte(QUOTE);
    assert s[..|s|] == s;
  }

  lemma NothingEscaped(s: seq<byte>)
    requires s == []
    ensures EscapeAll(s) == []
  {
  }

  // ---- Values --------------------------------------------------------------------------

  lemma NoNulConcat(s: seq<byte>, t: seq<byte>)
    requires NoNul(s) && NoNul(t)
    ensures NoNul(s + t)
  {
  }

  lemma {:induction false} EscapedHasNoNul(s: seq<byte>)
    requires NoNul(s)
    ensures NoNul(EscapeAll(s))
  {
    if s != [] {
      EscapedHasNoNul(s[1..]);
      NoNulConcat(EscapeByte(s[0]), EscapeAll(s[1..]));
    }
  }

  /** Printed text contains no NUL, so it survives every trip through a C string. */
  lemma PrintedHasNoNul(v: Value, depth: nat)
    requires Clean(v) && Stringify(v, depth).Some?
    ensures NoNul(Stringify(v, depth).value)
    decreases v, 0
  {
    hide StringifyItems, StringifyProps, EscapeAll, Digits;
    match v
    case Int(n) => DigitsReadBack(if n < 0 then -n else n, 10);
    case Text(s) => EscapedHasNoNul(s);
    case Array(items) => ItemsHaveNoNul(items, depth + 1, true);
    case Object(props) => PropsHaveNoNul(props, depth + 1, true);
    case _ =>
  }

  lemma {:induction false} ItemsHaveNoNul(items: seq<Value>, depth: nat, first: bool)
    requires CleanItems(items)
    ensures NoNul(StringifyItems(items, depth, first))
    decreases items, 1
  {
    hide Stringify, Clean;
    if items != [] {
      if Stringify(items[0], depth).Some? {
        PrintedHasNoNul(items[0], depth);
      }
      ItemsHaveNoNul(items[1..], depth, false);
    }
  }

  lemma {:induction false} PropsHaveNoNul(props: seq<Property>, depth: nat, first: bool)
    requires CleanProps(props)
    ensures NoNul(StringifyProps(props, depth, first))
    decreases props, 1
  {
    hide Stringify, Clean, EscapeAll;
    if props != [] {
      PropsHaveNoNul(props[1..], depth, first);
      PropsHaveNoNul(props[1..], depth, false);
      if Stringify(props[0].value, depth).Some? {
        PrintedHasNoNul(props[0].value, depth);
        EscapedHasNoNul(props[0].key);
      }
    }
  }

  /** `js_json_stringify_internal`. */
  method Print(v: Value, depth: nat) returns (r: Option<seq<byte>>)
    requires Clean(v)
    ensures r == Stringify(v, depth)
    decreases v, 0
  {
    hide Clean;
    if depth > MAX_DEPTH {
      return None;
    }
    match v
    case Undefined => return None;
    case Function => return None;
    case Symbol => return None;
    case Null => return Some(NULL_TEXT);
    case Bool(b) => return Some(if b then TRUE_TEXT else FALSE_TEXT);
    case Int(n) => return Some(IntText(n));
    case NonFinite => return Some(NULL_TEXT);
    case Text(s) =>
      r := PrintText(v, s, depth);
    case Array(items) =>
      r := PrintArray(v, items, depth);
    case Object(props) =>
      r := PrintObject(v, props, depth);
  }

  method PrintText(v: Value, s: seq<byte>, depth: nat) returns (r: Option<seq<byte>>)
    requires v == Value.Text(s) && Clean(v) && depth <= MAX_DEPTH
    ensures r == Stringify(v, depth)
  {
    hide EscapeAll;
    var b := new JsonBuf();
    EscapeString(b, s);
    assert b.Contents() == Quoted(s);
    PrintedHasNoNul(v, depth);
    var text := b.ToText();
    r := Some(text);
  }

  lemma ItemChunk(items: seq<Value>, i: nat, depth: nat, first: bool)
    requires i < |items| && CleanItems(items[i..])
    ensures StringifyItems(items[i..], depth, first)
         == Separator(first) + ItemText(items[i], depth) + StringifyItems(items[i + 1..], depth, false)
    ensures Clean(items[i]) && CleanItems(items[i + 1..])
  {
    hide Stringify, Clean;
    assert items[i..][0] == items[i] && items[i..][1..] == items[i + 1..];
    var text, rest := ItemText(items[i], depth), StringifyItems(items[i + 1..], depth, false);
    assert Separator(first) + (text + rest) == Separator(first) + text + rest;
  }

  /** A comma where one is due, then the text of an item, undefined being printed as null. */
  method AppendItem(b: JsonBuf, first: bool, text: Option<seq<byte>>)
    requires b.Valid()
    modifies b, b.buf
    ensures b.Valid() && (b.buf == old(b.buf) || fresh(b.buf))
    ensures b.Contents() == old(b.Contents()) + (Separator(first) + if text.Some? then text.value else NULL_TEXT)
  {
    if !first {
      b.AppendByte(COMMA);
    }
    if text.None? {
      b.Append(NULL_TEXT);
    } else {
      b.Append(text.value);
    }
  }

  method PrintArray(v: Value, items: seq<Value>, depth: nat) returns (r: Option<seq<byte>>)
    requires v == Array(items) && Clean(v) && depth <= MAX_DEPTH
    ensures r == Stringify(v, depth)
    decreases items, 3
  {
    PrintedHasNoNul(v, depth);
    hide StringifyItems, NoNul;
    var b := new JsonBuf();
    b.AppendByte(OPEN_ARRAY);
    assert b.Contents() == [OPEN_ARRAY];
    PrintItems(b, items, depth + 1);
    assert Some(b.Contents()) == Stringify(v, depth);
    var text := b.ToText();
    r := Some(text);
  }

  /** The loop over the items, and the closing bracket. */
  method PrintItems(b: JsonBuf, items: seq<Value>, depth: nat)
    requires b.Valid() && CleanItems(items)
    modifies b, b.buf
    ensures b.Valid() && (b.buf == old(b.buf) || fresh(b.buf))
    ensures b.Contents() == old(b.Contents()) + StringifyItems(items, depth, true)
    decreases items, 2
  {
    hide Stringify, Clean, StringifyItems, NoNul;
    ghost var total := b.Contents() + StringifyItems(items, depth, true);
    var first := true;
    assert items[0..] == items && items[|items|..] == [];
    for i := 0 to |items|
      invariant b.Valid() && (b.buf == old(b.buf) || fresh(b.buf))
      invariant CleanItems(items[i..])
      invariant b.Contents() + StringifyItems(items[i..], depth, first) == total
    {
      ItemChunk(items, i, depth, first);
      var text := Print(items[i], depth);
      ghost var done, chunk := b.Contents(), Separator(first) + ItemText(items[i], depth);
      AppendItem(b, first, text);
      Regroup(done, chunk, StringifyItems(items[i + 1..], depth, false), total);
      first := false;
    }
    NoItems(depth, first);
    b.AppendByte(CLOSE_ARRAY);
  }

  lemma NoItems(depth: nat, first: bool)
    ensures StringifyItems([], depth, first) == [CLOSE_ARRAY]
    ensures StringifyProps([], depth, first) == [CLOSE_OBJECT]
  {
  }

  lemma PropChunk(props: seq<Property>, i: nat, depth: nat, first: bool)
    requires i < |props| && CleanProps(props[i..])
    ensures StringifyProps(props[i..], depth, first) ==
      match Stringify(props[i].value, depth)
      case None => StringifyProps(props[i + 1..], depth, first)
      case Some(text) =>
        Separator(first) + MemberText(props[i].key, text) + StringifyProps(props[i + 1..], depth, false)
    ensures Clean(props[i].value) && CleanProps(props[i + 1..])
  {
    hide Stringify, Clean, Quoted, NoNul;
    assert props[i..][0] == props[i] && props[i..][1..] == props[i + 1..];
    match Stringify(props[i].value, depth)
    case None =>
    case Some(text) =>
      var q, rest := Quoted(props[i].key), StringifyProps(props[i + 1..], depth, false);
      assert Separator(first) + (q + ([COLON] + (text + rest))) == Separator(first) + (q + ([COLON] + text)) + rest;
  }

  method AppendMember(b: JsonBuf, first: bool, key: seq<byte>, text: seq<byte>)
    requires b.Valid()
    modifies b, b.buf
    ensures b.Valid() && (b.buf == old(b.buf) || fresh(b.buf))
    ensures b.Contents() == old(b.Contents()) + (Separator(first) + MemberText(key, text))
  {
    hide Quoted;
    if !first {
      b.AppendByte(COMMA);
    }
    EscapeString(b, key);
    b.AppendByte(COLON);
    b.Append(text);
  }

  method PrintObject(v: Value, props: seq<Property>, depth: nat) returns (r: Option<seq<byte>>)
    requires v == Object(props) && Clean(v) && depth <= MAX_DEPTH
    ensures r == Stringify(v, depth)
    decreases props, 3
  {
    PrintedHasNoNul(v, depth);
    hide StringifyProps, NoNul;
    var b := new JsonBuf();
    b.AppendByte(OPEN_OBJECT);
    assert b.Contents() == [OPEN_OBJECT];
    PrintProps(b, props, depth + 1);
    assert Some(b.Contents()) == Stringify(v, depth);
    var text := b.ToText();
    r := Some(text);
  }

  /** The loop over the properties, and the closing brace. */
  method PrintProps(b: JsonBuf, props: seq<Property>, depth: nat)
    requires b.Valid() && CleanProps(props)
    modifies b, b.buf
    ensures b.Valid() && (b.buf == old(b.buf) || fresh(b.buf))
    ensures b.Contents() == old(b.Contents()) + StringifyProps(props, depth, true)
    decreases props, 2
  {
    hide Stringify, Clean, StringifyProps, MemberText, NoNul;
    ghost var total := b.Contents() + StringifyProps(props, depth, true);
    var first := true;
    assert props[0..] == props && props[|props|..] == [];
    for i := 0 to |props|
      invariant b.Valid() && (b.buf == old(b.buf) || fresh(b.buf))
      invariant CleanProps(props[i..])
      invariant b.Contents() + StringifyProps(props[i..], depth, first) == total
    {
      PropChunk(props, i, depth, first);
      var text := Print(props[i].value, depth);
      if text.Some? {
        ghost var done, chunk := b.Contents(), Separator(first) + MemberText(props[i].key, text.value);
        AppendMember(b, first, props[i].key, text.value);
        Regroup(done, chunk, StringifyProps(props[i + 1..], depth, false), total);
        first := false;
      }
    }
    NoItems(depth, first);
    b.AppendByte(CLOSE_OBJECT);
  }
}
