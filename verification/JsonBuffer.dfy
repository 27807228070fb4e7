/** Which texts make the parser store a byte behind its string buffer of 4096 bytes. */
module JsonBuffer {
  import opened Wrappers
  import opened Bytes
  import opened JsonText
  import opened JsonRoundTrip

  /** Where the parser stands when it has stored exactly 4094 bytes, if that happens. */
  function WhenAlmostFull(src: seq<byte>, pos: nat, text: seq<byte>): (q: Option<nat>)
    requires pos <= |src|
    ensures q.Some? ==> pos <= q.value <= |src|
    decreases |src| - pos
  {
    if |text| == 4094 then Some(pos)
    else if pos == |src| || src[pos] == QUOTE then None
    else
      match StringUnit(src, pos)
      case Error => None
      case Overrun => None
      case Parsed(bytes, next) =>
        if |text + bytes| >= 4095 then None else WhenAlmostFull(src, next, text + bytes)
  }

  /** An escape of a code that is stored in three bytes. */
  predicate LongEscape(src: seq<byte>, pos: nat) {
    pos + 6 <= |src| && src[pos] == BACKSLASH && src[pos + 1] == 117 && UnicodeCode(src[pos + 2..pos + 6]) >= 0x800
  }

  lemma UnitLength(src: seq<byte>, pos: nat)
    requires pos < |src| && StringUnit(src, pos).Parsed?
    ensures 1 <= |StringUnit(src, pos).value| <= 3
    ensures |StringUnit(src, pos).value| == 3 <==> LongEscape(src, pos)
  {
    hide UnicodeCode;
  }

  lemma LongEscapeIsUnit(src: seq<byte>, pos: nat)
    requires LongEscape(src, pos)
    ensures StringUnit(src, pos).Parsed? && src[pos] != QUOTE
  {
    hide UnicodeCode;
  }

  /**
   A byte is stored behind the buffer exactly when the 4094 bytes stored so far are followed by an
   escape that takes three.
   */
  lemma {:induction false} StringOverrunsIff(src: seq<byte>, pos: nat, text: seq<byte>)
    requires pos <= |src| && |text| < 4095
    ensures StringBody(src, pos, text) == Overrun <==>
      var q := WhenAlmostFull(src, pos, text); q.Some? && LongEscape(src, q.value)
    decreases |src| - pos
  {
    hide StringUnit, LongEscape;
    if |text| == 4094 && LongEscape(src, pos) {
      LongEscapeIsUnit(src, pos);
      LongEscapeFits(src, pos);
    }
    if pos < |src| && src[pos] != QUOTE && StringUnit(src, pos).Parsed? {
      UnitLength(src, pos);
      var unit := StringUnit(src, pos);
      if |text + unit.value| < 4095 {
        StringOverrunsIff(src, unit.pos, text + unit.value);
      }
    }
  }

  lemma LongEscapeFits(src: seq<byte>, pos: nat)
    requires LongEscape(src, pos)
    ensures pos < |src|
  {
  }

  // ---- Whole texts ---------------------------------------------------------------------------

  ghost predicate NoLongEscape(src: seq<byte>) {
    forall q :: 0 <= q < |src| ==> !LongEscape(src, q)
  }

  lemma StringStaysInside(src: seq<byte>, pos: nat)
    requires pos <= |src| && NoLongEscape(src)
    ensures ParseString(src, pos) != Overrun
  {
    hide StringBody, LongEscape;
    match Expect(src, pos, QUOTE)
    case Error =>
    case Overrun =>
    case Parsed(_, next) =>
      StringOverrunsIff(src, next, []);
      LongEscapesFit(src);
  }

  lemma LongEscapesFit(src: seq<byte>)
    ensures forall q: nat :: LongEscape(src, q) ==> q < |src|
  {
  }

  /** A text without an escape that takes three bytes never overruns the buffer. */
  lemma {:induction false} NoLongEscapeStaysInside(src: seq<byte>, pos: nat)
    requires pos <= |src| && NoLongEscape(src)
    ensures ParseValue(src, pos) != Overrun
    decreases |src| - pos, 1
  {
    hide ParseString, ParseNumber, NoLongEscape, ParseArray, ParseObject;
    var at := SkipSpace(src, pos);
    StringStaysInside(src, at);
    ArrayStaysInside(src, at);
    ObjectStaysInside(src, at);
  }

  lemma {:induction false} ArrayStaysInside(src: seq<byte>, pos: nat)
    requires pos <= |src| && NoLongEscape(src)
    ensures ParseArray(src, pos) != Overrun
    decreases |src| - pos, 0
  {
    hide ParseItems, NoLongEscape;
    var open := Expect(src, pos, OPEN_ARRAY);
    if open.Parsed? {
      ItemsStayInside(src, SkipSpace(src, open.pos), []);
    }
  }

  lemma {:induction false} ItemsStayInside(src: seq<byte>, pos: nat, items: seq<Json>)
    requires pos <= |src| && NoLongEscape(src)
    ensures ParseItems(src, pos, items) != Overrun
    decreases |src| - pos, 2
  {
    hide ParseValue, NoLongEscape;
    NoLongEscapeStaysInside(src, pos);
    var item := ParseValue(src, pos);
    if item.Parsed? {
      var at := SkipSpace(src, item.pos);
      if ByteAt(src, at) == COMMA {
        ItemsStayInside(src, at + 1, items + [item.value]);
      }
    }
  }

  lemma {:induction false} ObjectStaysInside(src: seq<byte>, pos: nat)
    requires pos <= |src| && NoLongEscape(src)
    ensures ParseObject(src, pos) != Overrun
    decreases |src| - pos, 0
  {
    hide ParseMembers, NoLongEscape;
    var open := Expect(src, pos, OPEN_OBJECT);
    if open.Parsed? {
      MembersStayInside(src, SkipSpace(src, open.pos), []);
    }
  }

  lemma {:induction false} MemberStaysInside(src: seq<byte>, pos: nat)
    requires pos <= |src| && NoLongEscape(src)
    ensures ParseMember(src, pos) != Overrun
    decreases |src| - pos, 2
  {
    hide ParseString, ParseValue, NoLongEscape;
    StringStaysInside(src, pos);
    var key := ParseString(src, pos);
    if key.Parsed? {
      var colon := Expect(src, key.pos, COLON);
      if colon.Parsed? {
        NoLongEscapeStaysInside(src, colon.pos);
      }
    }
  }

  lemma {:induction false} MembersStayInside(src: seq<byte>, pos: nat, members: seq<Member>)
    requires pos <= |src| && NoLongEscape(src)
    ensures ParseMembers(src, pos, members) != Overrun
    decreases |src| - pos, 3
  {
    hide ParseMember, NoLongEscape;
    MemberStaysInside(src, pos);
    var m := ParseMember(src, pos);
    if m.Parsed? {
      var at := SkipSpace(src, m.pos);
      if ByteAt(src, at) == COMMA {
        MembersStayInside(src, at + 1, SetMember(members, m.value.key, m.value.value));
      }
    }
  }

  /** Printed text never does, however long its strings are. */
  lemma PrintedStaysInside(v: Value)
    requires Clean(v) && Stringify(v, 0).Some?
    ensures ParseValue(Stringify(v, 0).value, 0) != Overrun
  {
    hide Stringify, ParseValue, Short, Prune;
    ParseAfterStringify(v);
  }
}
