/**
 The recursive-descent parser of JSON.parse: a cursor into a text, moved by mutually recursive
 methods.  Every method does what the functions of `JsonText` say, on every text.
 */
module JsonParser {
  import opened Bytes
  import opened JsonText
  import opened JsonRoundTrip
  import JsonPrinter

  /**
   What parsing gives: a value, a thrown error, or a byte that would be stored behind the string
   buffer, in front of which the model stops.
   */
  datatype Outcome<+T> = Got(value: T) | Throws | Overruns {
    predicate IsFailure() {
      !Got?
    }

    function PropagateFailure<U>(): Outcome<U>
      requires IsFailure()
    {
      if Throws? then Throws else Overruns
    }

    function Extract(): T
      requires !IsFailure()
    {
      value
    }
  }

  /** What a method that parses must leave behind. */
  ghost predicate Reports<T>(r: Outcome<T>, pos: nat, want: Parsed<T>) {
    match want
    case Error => r == Throws
    case Overrun => r == Overruns
    case Parsed(value, next) => r == Got(value) && pos == next
  }

  class Parser {
    const src: seq<byte>
    var pos: nat

    constructor (text: seq<byte>)
      ensures src == text && pos == 0
    {
      src := text;
      pos := 0;
    }

    ghost predicate Valid()
      reads this
    {
      pos <= |src|
    }

    method SkipWhitespace()
      requires Valid()
      modifies this
      ensures Valid() && pos == SkipSpace(src, old(pos))
    {
      while pos < |src| && IsSpace(src[pos])
        invariant Valid() && SkipSpace(src, pos) == SkipSpace(src, old(pos))
        decreases |src| - pos
      {
        pos := pos + 1;
      }
    }

    /** `json_peek`. */
    method Peek() returns (c: byte)
      requires Valid()
      modifies this
      ensures Valid() && pos == SkipSpace(src, old(pos)) && c == ByteAt(src, pos)
    {
      SkipWhitespace();
      c := if pos < |src| then src[pos] else 0;
    }

    /** `json_next`, compared with the byte that must come. */
    method Next(want: byte) returns (ok: bool)
      requires Valid()
      modifies this
      ensures Valid() && ok == Expect(src, old(pos), want).Parsed?
      ensures ok ==> pos == Expect(src, old(pos), want).pos
    {
      SkipWhitespace();
      ok := pos < |src| && src[pos] == want;
      if pos < |src| {
        pos := pos + 1;
      }
    }

    /** `json_next` where the byte is looked at afterwards. */
    method NextByte() returns (c: byte)
      requires Valid()
      modifies this
      ensures c == ByteAt(src, SkipSpace(src, old(pos)))
      ensures pos == if SkipSpace(src, old(pos)) < |src| then SkipSpace(src, old(pos)) + 1 else |src|
    {
      c := Peek();
      if pos < |src| {
        pos := pos + 1;
      }
    }

    /** The escape switch of `json_parse_string`, and the plain byte. */
    method ReadUnit() returns (r: Outcome<seq<byte>>)
      requires pos < |src|
      modifies this
      ensures Valid() && Reports(r, pos, StringUnit(src, old(pos)))
    {
      var c := src[pos];
      pos := pos + 1;
      if c != BACKSLASH {
        return Got([c]);
      }
      if pos >= |src| {
        return Throws;
      }
      var esc := src[pos];
      pos := pos + 1;
      if esc != 117 {
        return Got([UnescapeByte(esc)]);
      }
      if pos + 4 > |src| {
        return Throws;
      }
      var hex := src[pos..pos + 4];
      pos := pos + 4;
      return Got(CodeBytes(UnicodeCode(hex)));
    }

    /** `json_parse_string`, with its buffer of 4096 bytes. */
    method ReadString() returns (r: Outcome<seq<byte>>)
      requires Valid()
      modifies this
      ensures Valid() && Reports(r, pos, ParseString(src, old(pos)))
    {
      hide StringUnit, CString;
      var ok := Next(QUOTE);
      if !ok {
        return Throws;
      }
      var buf := new byte[STRING_BUFFER];
      var n: nat := 0;
      ghost var start := pos;
      while pos < |src| && src[pos] != QUOTE
        invariant Valid() && n < STRING_LIMIT && buf.Length == STRING_BUFFER
        invariant StringBody(src, pos, buf[..n]) == StringBody(src, start, [])
        decreases |src| - pos
      {
        var unit :- ReadUnit();
        if n + |unit| > STRING_BUFFER {
          return Overruns;
        }
        Store(buf, n, unit);
        n := n + |unit|;
        if n >= STRING_LIMIT {
          return Throws;
        }
      }
      if pos < |src| {
        pos := pos + 1;
      }
      buf[n] := 0;
      CStringTerminated(buf[..n], buf[..]);
      return Got(CString(buf[..]));
    }

    method Store(buf: array<byte>, n: nat, bytes: seq<byte>)
      requires n + |bytes| <= buf.Length
      modifies buf
      ensures buf[..n + |bytes|] == old(buf[..n]) + bytes
    {
      for i := 0 to |bytes|
        invariant buf[..n + i] == old(buf[..n]) + bytes[..i]
      {
        buf[n + i] := bytes[i];
      }
    }

    method SkipNumberDigits()
      requires Valid()
      modifies this
      ensures Valid() && pos == SkipDigits(src, old(pos))
    {
      while pos < |src| && IsDecimal(src[pos])
        invariant Valid() && SkipDigits(src, pos) == SkipDigits(src, old(pos))
        decreases |src| - pos
      {
        pos := pos + 1;
      }
    }

    method SkipWhole()
      requires Valid()
      modifies this
      ensures Valid() && pos == WholeEnd(src, old(pos))
    {
      if pos < |src| && src[pos] == MINUS {
        pos := pos + 1;
      }
      if pos < |src| && src[pos] == 48 {
        pos := pos + 1;
      } else {
        SkipNumberDigits();
      }
    }

    method SkipFraction()
      requires Valid()
      modifies this
      ensures Valid() && pos == FractionEnd(src, old(pos))
    {
      if pos < |src| && src[pos] == DOT {
        pos := pos + 1;
        SkipNumberDigits();
      }
    }

    method SkipExponent()
      requires Valid()
      modifies this
      ensures Valid() && pos == ExponentEnd(src, old(pos))
    {
      if pos < |src| && (src[pos] == 101 || src[pos] == 69) {
        pos := pos + 1;
        if pos < |src| && (src[pos] == PLUS || src[pos] == MINUS) {
          pos := pos + 1;
        }
        SkipNumberDigits();
      }
    }

    /** `json_parse_number`. */
    method ReadNumber() returns (r: Outcome<Json>)
      requires pos < |src| && (src[pos] == MINUS || IsDecimal(src[pos]))
      modifies this
      ensures Valid() && Reports(r, pos, ParseNumber(src, old(pos)))
    {
      hide WholeEnd, FractionEnd, ExponentEnd, NumberValue;
      var start := pos;
      SkipWhole();
      SkipFraction();
      SkipExponent();
      assert pos == NumberEnd(src, start);
      var len := pos - start;
      if len >= 128 {
        len := 127;
      }
      return Got(JNumber(NumberValue(src[start..start + len])));
    }

    method ReadWord(word: seq<byte>, value: Json) returns (r: Outcome<Json>)
      requires Valid()
      modifies this
      ensures Valid()
      ensures Reports(r, pos, if Literal(src, old(pos), word) then Parsed(value, old(pos) + |word|) else Error)
    {
      if pos + |word| <= |src| && src[pos..pos + |word|] == word {
        pos := pos + |word|;
        return Got(value);
      }
      return Throws;
    }

    /** `json_parse_array`. */
    method ReadArray() returns (r: Outcome<Json>)
      requires Valid()
      modifies this
      ensures Valid() && Reports(r, pos, ParseArray(src, old(pos)))
      decreases |src| - pos, 0
    {
      hide ParseItems;
      var ok := Next(OPEN_ARRAY);
      if !ok {
        return Throws;
      }
      var c := Peek();
      if c == CLOSE_ARRAY {
        pos := pos + 1;
        return Got(JArray([]));
      }
      r := ReadItems();
    }

    /** The loop of `json_parse_array`. */
    method ReadItems() returns (r: Outcome<Json>)
      requires Valid()
      modifies this
      ensures Valid() && Reports(r, pos, ParseItems(src, old(pos), []))
      decreases |src| - pos, 2
    {
      hide ParseArray, ParseValue, SkipSpace;
      var items: seq<Json> := [];
      ghost var start := pos;
      while true
        invariant Valid() && start <= pos
        invariant ParseItems(src, pos, items) == ParseItems(src, start, [])
        decreases |src| - pos
      {
        var item :- ReadValue();
        items := items + [item];
        var c := NextByte();
        if c == CLOSE_ARRAY {
          break;
        }
        if c != COMMA {
          return Throws;
        }
      }
      return Got(JArray(items));
    }

    /** The part of `json_parse_object` that reads one key and its value. */
    method ReadMember() returns (r: Outcome<Member>)
      requires Valid()
      modifies this
      ensures Valid() && Reports(r, pos, ParseMember(src, old(pos)))
      decreases |src| - pos, 2
    {
      hide ParseString, ParseValue, Expect;
      var key :- ReadString();
      var ok := Next(COLON);
      if !ok {
        return Throws;
      }
      var value :- ReadValue();
      return Got(Member(key, value));
    }

    /** `json_parse_object`. */
    method ReadObject() returns (r: Outcome<Json>)
      requires Valid()
      modifies this
      ensures Valid() && Reports(r, pos, ParseObject(src, old(pos)))
      decreases |src| - pos, 0
    {
      hide ParseMembers;
      var ok := Next(OPEN_OBJECT);
      if !ok {
        return Throws;
      }
      var c := Peek();
      if c == CLOSE_OBJECT {
        pos := pos + 1;
        return Got(JObject([]));
      }
      r := ReadMembers();
    }

    /** The loop of `json_parse_object`. */
    method ReadMembers() returns (r: Outcome<Json>)
      requires Valid()
      modifies this
      ensures Valid() && Reports(r, pos, ParseMembers(src, old(pos), []))
      decreases |src| - pos, 3
    {
      hide ParseObject, ParseMember, SkipSpace, SetMember;
      var members: seq<Member> := [];
      ghost var start := pos;
      while true
        invariant Valid() && start <= pos
        invariant ParseMembers(src, pos, members) == ParseMembers(src, start, [])
        decreases |src| - pos
      {
        var m :- ReadMember();
        members := SetMember(members, m.key, m.value);
        var c := NextByte();
        if c == CLOSE_OBJECT {
          break;
        }
        if c != COMMA {
          return Throws;
        }
      }
      return Got(JObject(members));
    }

    /** `json_parse_value`. */
    method ReadValue() returns (r: Outcome<Json>)
      requires Valid()
      modifies this
      ensures Valid() && Reports(r, pos, ParseValue(src, old(pos)))
      decreases |src| - pos, 1
    {
      hide ParseArray, ParseObject, ParseString, ParseNumber;
      var c := Peek();
      if c == QUOTE {
        var s :- ReadString();
        r := Got(JText(s));
      } else if c == OPEN_OBJECT {
        r := ReadObject();
      } else if c == OPEN_ARRAY {
        r := ReadArray();
      } else if c == 116 {
        r := ReadWord(TRUE_TEXT, JBool(true));
      } else if c == 102 {
        r := ReadWord(FALSE_TEXT, JBool(false));
      } else if c == 110 {
        r := ReadWord(NULL_TEXT, JNull);
      } else if c == MINUS || IsDecimal(c) {
        r := ReadNumber();
      } else {
        r := Throws;
      }
    }
  }

  /**
   JSON.stringify and then JSON.parse.  Undefined at the top prints nothing; otherwise the result
   is the pruned value when every string and key that was kept is below the limit, and a thrown
   error when not; no byte is stored behind the string buffer.
   */
  method StringifyThenParse(v: Value) returns (r: Outcome<Json>)
    requires Clean(v) && Prune(v, 0).Some?
    ensures r == if Short(Prune(v, 0).value) then Got(Prune(v, 0).value) else Throws
  {
    hide Stringify, Prune, ParseValue, Short, Clean;
    PrintedIsKept(v, 0);
    var text := JsonPrinter.Print(v, 0);
    ParseAfterStringify(v);
    var p := new Parser(text.value);
    r := p.ReadValue();
  }
}
