/**
 What JSON.stringify prints and what JSON.parse reads, as functions on values and texts.
 Texts are C strings: bytes other than NUL.
 */
module JsonText {
  import opened Wrappers
  import opened Bytes
  import opened Numerals

  /** A value handed to the printer.  Numbers are Int32 values, or not finite. */
  datatype Value =
    | Undefined | Function | Symbol
    | Null
    | Bool(b: bool)
    | Int(n: int)
    | NonFinite
    | Text(s: seq<byte>)
    | Array(items: seq<Value>)
    | Object(props: seq<Property>)

  datatype Property = Property(key: seq<byte>, value: Value)

  /** A value read by the parser.  A number is the exact one, before it is rounded to a double. */
  datatype Json =
    | JNull
    | JBool(b: bool)
    | JNumber(value: real)
    | JText(s: seq<byte>)
    | JArray(items: seq<Json>)
    | JObject(members: seq<Member>)

  datatype Member = Member(key: seq<byte>, value: Json)

  const QUOTE: byte := 34
  const COMMA: byte := 44
  const COLON: byte := 58
  const OPEN_ARRAY: byte := 91
  const BACKSLASH: byte := 92
  const CLOSE_ARRAY: byte := 93
  const OPEN_OBJECT: byte := 123
  const CLOSE_OBJECT: byte := 125
  const NULL_TEXT: seq<byte> := [110, 117, 108, 108]
  const TRUE_TEXT: seq<byte> := [116, 114, 117, 101]
  const FALSE_TEXT: seq<byte> := [102, 97, 108, 115, 101]

  const MAX_DEPTH := 10
  const STRING_LIMIT := 4095
  const STRING_BUFFER := 4096

  // ---- Printing ------------------------------------------------------------------------

  function HexDigit(n: nat): byte
    requires n < 16
  {
    if n < 10 then (48 + n) as byte else (87 + n) as byte
  }

  /** One byte of a string, as it stands between the quotes. */
  function EscapeByte(c: byte): seq<byte> {
    if c == QUOTE then [BACKSLASH, QUOTE]
    else if c == BACKSLASH then [BACKSLASH, BACKSLASH]
    else if c == 8 then [BACKSLASH, 98]
    else if c == 12 then [BACKSLASH, 102]
    else if c == 10 then [BACKSLASH, 110]
    else if c == 13 then [BACKSLASH, 114]
    else if c == 9 then [BACKSLASH, 116]
    else if c < 32 then [BACKSLASH, 117, 48, 48, HexDigit(c as int / 16), HexDigit(c as int % 16)]
    else [c]
  }

  function EscapeAll(s: seq<byte>): seq<byte> {
    if s == [] then [] else EscapeByte(s[0]) + EscapeAll(s[1..])
  }

  function Quoted(s: seq<byte>): seq<byte> {
    [QUOTE] + (EscapeAll(s) + [QUOTE])
  }

  /** `%.17g` of an Int32 value. */
  function IntText(n: int): seq<byte> {
    NumberText(n, 10)
  }

  /** `js_json_stringify_internal`; `None` is the JS value undefined. */
  function Stringify(v: Value, depth: nat): Option<seq<byte>>
    decreases v, 0
  {
    if depth > MAX_DEPTH then None
    else
      match v
      case Undefined => None
      case Function => None
      case Symbol => None
      case Null => Some(NULL_TEXT)
      case Bool(b) => Some(if b then TRUE_TEXT else FALSE_TEXT)
      case Int(n) => Some(IntText(n))
      case NonFinite => Some(NULL_TEXT)
      case Text(s) => Some(Quoted(s))
      case Array(items) => Some([OPEN_ARRAY] + StringifyItems(items, depth + 1, true))
      case Object(props) => Some([OPEN_OBJECT] + StringifyProps(props, depth + 1, true))
  }

  function Separator(first: bool): seq<byte> {
    if first then [] else [COMMA]
  }

  /** The items of an array from some point on, and the closing bracket. */
  function StringifyItems(items: seq<Value>, depth: nat, first: bool): seq<byte>
    decreases items, 1
  {
    if items == [] then [CLOSE_ARRAY]
    else
      var text := Stringify(items[0], depth);
      Separator(first) + ((if text.Some? then text.value else NULL_TEXT) + StringifyItems(items[1..], depth, false))
  }

  function StringifyProps(props: seq<Property>, depth: nat, first: bool): seq<byte>
    decreases props, 1
  {
    if props == [] then [CLOSE_OBJECT]
    else
      match Stringify(props[0].value, depth)
      case None => StringifyProps(props[1..], depth, first)
      case Some(text) =>
        Separator(first) + (Quoted(props[0].key) + ([COLON] + (text + StringifyProps(props[1..], depth, false))))
  }

  // ---- The value a text stands for --------------------------------------------------------

  /**
   The value that printing keeps: below the depth limit nothing, functions and undefined only as
   null in arrays, numbers that are not finite as null.
   */
  function Prune(v: Value, depth: nat): Option<Json>
    decreases v, 0
  {
    if depth > MAX_DEPTH then None
    else
      match v
      case Undefined => None
      case Function => None
      case Symbol => None
      case Null => Some(JNull)
      case Bool(b) => Some(JBool(b))
      case Int(n) => Some(JNumber(n as real))
      case NonFinite => Some(JNull)
      case Text(s) => Some(JText(s))
      case Array(items) => Some(JArray(PruneItems(items, depth + 1)))
      case Object(props) => Some(JObject(PruneProps(props, depth + 1)))
  }

  function PruneItems(items: seq<Value>, depth: nat): seq<Json>
    decreases items, 1
  {
    if items == [] then []
    else
      var item := Prune(items[0], depth);
      [if item.Some? then item.value else JNull] + PruneItems(items[1..], depth)
  }

  function PruneProps(props: seq<Property>, depth: nat): seq<Member>
    decreases props, 1
  {
    if props == [] then []
    else
      match Prune(props[0].value, depth)
      case None => PruneProps(props[1..], depth)
      case Some(value) => [Member(props[0].key, value)] + PruneProps(props[1..], depth)
  }

  // ---- Parsing -------------------------------------------------------------------------

  /**
   A thrown error, or a byte that would be stored behind the string buffer, or a value and the
   position behind it.
   */
  datatype Parsed<T> = Error | Overrun | Parsed(value: T, pos: nat)

  predicate IsSpace(c: byte) {
    c == 32 || c == 9 || c == 10 || c == 13
  }

  predicate IsDecimal(c: byte) {
    48 <= c <= 57
  }

  /** `json_skip_ws`: the next position that is not white space. */
  function SkipSpace(src: seq<byte>, pos: nat): (r: nat)
    requires pos <= |src|
    ensures pos <= r <= |src|
    decreases |src| - pos
  {
    if pos < |src| && IsSpace(src[pos]) then SkipSpace(src, pos + 1) else pos
  }

  /** `json_next` when it finds `c`: the position behind it. */
  function Expect(src: seq<byte>, pos: nat, c: byte): (r: Parsed<()>)
    requires pos <= |src|
    ensures !r.Overrun?
    ensures r.Parsed? ==> pos < r.pos <= |src|
  {
    var at := SkipSpace(src, pos);
    if at < |src| && src[at] == c then Parsed((), at + 1) else Error
  }

  function HexValue(c: byte): Option<nat> {
    if 48 <= c <= 57 then Some(c as int - 48)
    else if 97 <= c <= 102 then Some(c as int - 87)
    else if 65 <= c <= 70 then Some(c as int - 55)
    else None
  }

  /** The leading hexadecimal digits of a text, as `strtoul` adds them up. */
  function HexRun(s: seq<byte>, acc: nat): nat
    decreases |s|
  {
    if s == [] || HexValue(s[0]).None? then acc else HexRun(s[1..], acc * 16 + HexValue(s[0]).value)
  }

  /** `(unsigned int)strtoul(s, NULL, 16)` on the four bytes of an escape. */
  function UnicodeCode(s: seq<byte>): nat
    decreases |s|
  {
    if s == [] then 0
    else if IsCSpace(s[0]) then UnicodeCode(s[1..])
    else
      var negative := s[0] == MINUS;
      var digits := if s[0] == MINUS || s[0] == PLUS then s[1..] else s;
      var prefixed := |digits| >= 2 && digits[0] == 48 && (digits[1] == 120 || digits[1] == 88);
      var value := HexRun(if prefixed then digits[2..] else digits, 0) % 0x1_0000_0000;
      if negative then (0x1_0000_0000 - value) % 0x1_0000_0000 else value
  }

  /**
   The bytes stored for a code.  A code of 2^16 or more comes from a negative escape of at most
   three digits; the low eight bits of its leading byte are then all ones.
   */
  function CodeBytes(code: nat): (s: seq<byte>)
    ensures |s| <= 3
  {
    if code < 0x80 then [code as byte]
    else if code < 0x800 then [(0xC0 + code / 64) as byte, (0x80 + code % 64) as byte]
    else
      var lead := if code < 0x1_0000 then 0xE0 + code / 4096 else 0xFF;
      [lead as byte, (0x80 + code / 64 % 64) as byte, (0x80 + code % 64) as byte]
  }

  /** The byte an escape letter other than `u` stands for; unknown letters stand for themselves. */
  function UnescapeByte(c: byte): byte {
    if c == 98 then 8
    else if c == 102 then 12
    else if c == 110 then 10
    else if c == 114 then 13
    else if c == 116 then 9
    else c
  }

  /** One unit of a string body: the bytes it adds and the position behind it. */
  function StringUnit(src: seq<byte>, pos: nat): (r: Parsed<seq<byte>>)
    requires pos < |src|
    ensures !r.Overrun?
    ensures r.Parsed? ==> pos < r.pos <= |src|
  {
    if src[pos] != BACKSLASH then Parsed([src[pos]], pos + 1)
    else if pos + 1 >= |src| then Error
    else if src[pos + 1] != 117 then Parsed([UnescapeByte(src[pos + 1])], pos + 2)
    else if pos + 6 > |src| then Error
    else Parsed(CodeBytes(UnicodeCode(src[pos + 2..pos + 6])), pos + 6)
  }

  /**
   The string body from `pos` on, after `text`; the end of the input ends it like a quote.  The
   limit is only looked at after a unit has been stored.
   */
  function StringBody(src: seq<byte>, pos: nat, text: seq<byte>): (r: Parsed<seq<byte>>)
    requires pos <= |src|
    ensures r.Parsed? ==> pos <= r.pos <= |src|
    decreases |src| - pos
  {
    if pos == |src| then Parsed(text, pos)
    else if src[pos] == QUOTE then Parsed(text, pos + 1)
    else
      match StringUnit(src, pos)
      case Error => Error
      case Overrun => Overrun
      case Parsed(bytes, next) =>
        if |text + bytes| > STRING_BUFFER then Overrun
        else if |text + bytes| >= STRING_LIMIT then Error
        else StringBody(src, next, text + bytes)
  }

  function ParseString(src: seq<byte>, pos: nat): (r: Parsed<seq<byte>>)
    requires pos <= |src|
    ensures r.Parsed? ==> pos < r.pos <= |src|
  {
    match Expect(src, pos, QUOTE)
    case Error => Error
    case Overrun => Overrun
    case Parsed(_, next) =>
      match StringBody(src, next, [])
      case Error => Error
      case Overrun => Overrun
      case Parsed(text, end) => Parsed(CString(text), end)
  }

  function SkipDigits(src: seq<byte>, pos: nat): (r: nat)
    requires pos <= |src|
    ensures pos <= r <= |src|
    decreases |src| - pos
  {
    if pos < |src| && IsDecimal(src[pos]) then SkipDigits(src, pos + 1) else pos
  }

  /** Behind the sign and the whole part of a number: one zero, or any digits. */
  function WholeEnd(src: seq<byte>, pos: nat): (r: nat)
    requires pos <= |src|
    ensures pos <= r <= |src|
    ensures pos < |src| && (src[pos] == MINUS || IsDecimal(src[pos])) ==> pos < r
  {
    var sign := if pos < |src| && src[pos] == MINUS then pos + 1 else pos;
    if sign < |src| && src[sign] == 48 then sign + 1 else SkipDigits(src, sign)
  }

  function FractionEnd(src: seq<byte>, pos: nat): (r: nat)
    requires pos <= |src|
    ensures pos <= r <= |src|
  {
    if pos < |src| && src[pos] == DOT then SkipDigits(src, pos + 1) else pos
  }

  function ExponentEnd(src: seq<byte>, pos: nat): (r: nat)
    requires pos <= |src|
    ensures pos <= r <= |src|
  {
    if pos < |src| && (src[pos] == 101 || src[pos] == 69) then
      SkipDigits(src, if pos + 1 < |src| && (src[pos + 1] == PLUS || src[pos + 1] == MINUS) then pos + 2 else pos + 1)
    else
      pos
  }

  /** The position behind the text of a number. */
  function NumberEnd(src: seq<byte>, pos: nat): (r: nat)
    requires pos <= |src|
    ensures pos <= r <= |src|
    ensures pos < |src| && (src[pos] == MINUS || IsDecimal(src[pos])) ==> pos < r
  {
    ExponentEnd(src, FractionEnd(src, WholeEnd(src, pos)))
  }

  /** The exponent that begins at `p`; without digits it is no exponent. */
  function ExponentValue(body: seq<byte>, p: nat): int
    requires p <= |body|
  {
    if p < |body| && (body[p] == 101 || body[p] == 69) then
      var signed := p + 1 < |body| && (body[p + 1] == PLUS || body[p + 1] == MINUS);
      var start := if signed then p + 2 else p + 1;
      var end := DigitsEnd(body, start, 10);
      var n: int := PlaceValue(body[start..end], 10);
      if signed && body[p + 1] == MINUS then -n else n
    else
      0
  }

  function TimesPower(n: nat, e: int): real {
    n as real * PowerOfTen(e)
  }

  /** A decimal number without sign, as `strtod` reads it; without digits it is zero. */
  function DecimalValue(body: seq<byte>): real {
    var whole := DigitsEnd(body, 0, 10);
    var end := if whole < |body| && body[whole] == DOT then DigitsEnd(body, whole + 1, 10) else whole;
    var fraction := if end > whole then body[whole + 1..end] else [];
    var digits := body[0..whole] + fraction;
    assert AllDigits(digits, 10);
    if digits == [] then 0.0
    else TimesPower(PlaceValue(digits, 10), ExponentValue(body, end) - |fraction|)
  }

  /** The number a text stands for. */
  function NumberValue(lexeme: seq<byte>): real {
    if |lexeme| > 0 && lexeme[0] == MINUS then -DecimalValue(lexeme[1..]) else DecimalValue(lexeme)
  }

  /** At most 127 bytes of the text go to `strtod`. */
  function ParseNumber(src: seq<byte>, pos: nat): (r: Parsed<Json>)
    requires pos < |src| && (src[pos] == MINUS || IsDecimal(src[pos]))
    ensures r.Parsed? && pos < r.pos <= |src|
  {
    var end := NumberEnd(src, pos);
    Parsed(JNumber(NumberValue(src[pos..if end - pos >= 128 then pos + 127 else end])), end)
  }

  /** `JS_SetPropertyStr`: an existing key keeps its place. */
  function SetMember(members: seq<Member>, key: seq<byte>, value: Json): seq<Member> {
    if members == [] then [Member(key, value)]
    else if members[0].key == key then [Member(key, value)] + members[1..]
    else [members[0]] + SetMember(members[1..], key, value)
  }

  predicate Literal(src: seq<byte>, pos: nat, text: seq<byte>) {
    pos + |text| <= |src| && src[pos..pos + |text|] == text
  }

  function ParseValue(src: seq<byte>, pos: nat): (r: Parsed<Json>)
    requires pos <= |src|
    ensures r.Parsed? ==> pos < r.pos <= |src|
    decreases |src| - pos, 1
  {
    var at := SkipSpace(src, pos);
    var c := ByteAt(src, at);
    if c == QUOTE then
      match ParseString(src, at)
      case Error => Error
      case Overrun => Overrun
      case Parsed(s, next) => Parsed(JText(s), next)
    else if c == OPEN_OBJECT then ParseObject(src, at)
    else if c == OPEN_ARRAY then ParseArray(src, at)
    else if c == 116 then
      if Literal(src, at, TRUE_TEXT) then Parsed(JBool(true), at + 4) else Error
    else if c == 102 then
      if Literal(src, at, FALSE_TEXT) then Parsed(JBool(false), at + 5) else Error
    else if c == 110 then
      if Literal(src, at, NULL_TEXT) then Parsed(JNull, at + 4) else Error
    else if c == MINUS || IsDecimal(c) then ParseNumber(src, at)
    else Error
  }

  function ParseArray(src: seq<byte>, pos: nat): (r: Parsed<Json>)
    requires pos <= |src|
    ensures r.Parsed? ==> pos < r.pos <= |src|
    decreases |src| - pos, 0
  {
    match Expect(src, pos, OPEN_ARRAY)
    case Error => Error
    case Overrun => Overrun
    case Parsed(_, next) =>
      var at := SkipSpace(src, next);
      if ByteAt(src, at) == CLOSE_ARRAY then Parsed(JArray([]), at + 1) else ParseItems(src, at, [])
  }

  /** The loop of `json_parse_array`: a value, then a comma or the end. */
  function ParseItems(src: seq<byte>, pos: nat, items: seq<Json>): (r: Parsed<Json>)
    requires pos <= |src|
    ensures r.Parsed? ==> pos < r.pos <= |src|
    decreases |src| - pos, 2
  {
    match ParseValue(src, pos)
    case Error => Error
    case Overrun => Overrun
    case Parsed(item, next) =>
      var at := SkipSpace(src, next);
      var c := ByteAt(src, at);
      if c == CLOSE_ARRAY then Parsed(JArray(items + [item]), at + 1)
      else if c == COMMA then ParseItems(src, at + 1, items + [item])
      else Error
  }

  function ParseObject(src: seq<byte>, pos: nat): (r: Parsed<Json>)
    requires pos <= |src|
    ensures r.Parsed? ==> pos < r.pos <= |src|
    decreases |src| - pos, 0
  {
    match Expect(src, pos, OPEN_OBJECT)
    case Error => Error
    case Overrun => Overrun
    case Parsed(_, next) =>
      var at := SkipSpace(src, next);
      if ByteAt(src, at) == CLOSE_OBJECT then Parsed(JObject([]), at + 1) else ParseMembers(src, at, [])
  }

  /** One `key : value` of an object. */
  function ParseMember(src: seq<byte>, pos: nat): (r: Parsed<Member>)
    requires pos <= |src|
    ensures r.Parsed? ==> pos < r.pos <= |src|
    decreases |src| - pos, 2
  {
    match ParseString(src, pos)
    case Error => Error
    case Overrun => Overrun
    case Parsed(key, afterKey) =>
      match Expect(src, afterKey, COLON)
      case Error => Error
      case Overrun => Overrun
      case Parsed(_, afterColon) =>
        match ParseValue(src, afterColon)
        case Error => Error
        case Overrun => Overrun
        case Parsed(value, next) => Parsed(Member(key, value), next)
  }

  /** The loop of `json_parse_object`. */
  function ParseMembers(src: seq<byte>, pos: nat, members: seq<Member>): (r: Parsed<Json>)
    requires pos <= |src|
    ensures r.Parsed? ==> pos < r.pos <= |src|
    decreases |src| - pos, 3
  {
    match ParseMember(src, pos)
    case Error => Error
    case Overrun => Overrun
    case Parsed(m, next) =>
      var at := SkipSpace(src, next);
      var c := ByteAt(src, at);
      var members' := SetMember(members, m.key, m.value);
      if c == CLOSE_OBJECT then Parsed(JObject(members'), at + 1)
      else if c == COMMA then ParseMembers(src, at + 1, members')
      else Error
  }
}
