/** String.prototype.split and Array.prototype.join, on C strings. */
module StringSplit {
  import opened Wrappers
  import opened Bytes

  type Text = seq<byte>

  // ---- Searching ---------------------------------------------------------------------------

  predicate Occurs(s: Text, sep: Text, at: nat) {
    at + |sep| <= |s| && s[at..at + |sep|] == sep
  }

  /** `strstr`: where a text first occurs. */
  function Find(s: Text, sep: Text): (r: Option<nat>)
    ensures r.Some? ==> Occurs(s, sep, r.value) && forall i: nat :: i < r.value ==> !Occurs(s, sep, i)
    ensures r.None? ==> forall i: nat :: !Occurs(s, sep, i)
  {
    FindFrom(s, sep, 0)
  }

  function FindFrom(s: Text, sep: Text, from: nat): (r: Option<nat>)
    ensures r.Some? ==> r.value >= from && Occurs(s, sep, r.value)
    ensures r.Some? ==> forall i: nat :: from <= i < r.value ==> !Occurs(s, sep, i)
    ensures r.None? ==> forall i: nat :: from <= i ==> !Occurs(s, sep, i)
    decreases |s| - from
  {
    if from > |s| then None
    else if Occurs(s, sep, from) then Some(from)
    else FindFrom(s, sep, from + 1)
  }

  lemma FindIs(s: Text, sep: Text, k: nat)
    requires Occurs(s, sep, k) && forall i: nat :: i < k ==> !Occurs(s, sep, i)
    ensures Find(s, sep) == Some(k)
  {
    var r := Find(s, sep);
    assert r.Some?;
    assert !(r.value < k) && !(k < r.value);
  }

  lemma FindNone(s: Text, sep: Text)
    requires forall i: nat :: !Occurs(s, sep, i)
    ensures Find(s, sep) == None
  {
  }

  // ---- Meaning -------------------------------------------------------------------------------

  /** The parts between the separators, the leftmost separators taken first. */
  function Split(s: Text, sep: Text): (parts: seq<Text>)
    requires sep != []
    ensures parts != []
    decreases |s|
  {
    match Find(s, sep)
    case None => [s]
    case Some(k) => [s[..k]] + Split(s[k + |sep|..], sep)
  }

  function Join(parts: seq<Text>, sep: Text): Text {
    if parts == [] then []
    else if |parts| == 1 then parts[0]
    else parts[0] + (sep + Join(parts[1..], sep))
  }

  /** Joining the parts gives the string back. */
  lemma {:induction false} JoinOfSplit(s: Text, sep: Text)
    requires sep != []
    ensures Join(Split(s, sep), sep) == s
    decreases |s|
  {
    match Find(s, sep)
    case None =>
    case Some(k) =>
      var rest := s[k + |sep|..];
      JoinOfSplit(rest, sep);
      assert Split(s, sep)[1..] == Split(rest, sep);
      assert s == s[..k] + (sep + rest);
  }

  /** A part in front of a separator: the separator behind it is the first one from its start on. */
  predicate EndsAtSeparator(part: Text, sep: Text) {
    Find(part + sep, sep) == Some(|part|)
  }

  /** What the parts of a split look like. */
  predicate Separated(parts: seq<Text>, sep: Text) {
    parts != []
    && (forall i :: 0 <= i < |parts| - 1 ==> EndsAtSeparator(parts[i], sep))
    && Find(parts[|parts| - 1], sep) == None
  }

  /** Looking no further than the first occurrence. */
  lemma FindInPrefix(s: Text, t: Text, sep: Text)
    requires sep != [] && Find(s, sep) == Some(|s| - |sep|)
    ensures Find(s + t, sep) == Find(s, sep)
  {
    var k := |s| - |sep|;
    assert (s + t)[k..k + |sep|] == s[k..k + |sep|];
    forall i: nat | i < k
      ensures !Occurs(s + t, sep, i)
    {
      assert (s + t)[i..i + |sep|] == s[i..i + |sep|];
      assert !Occurs(s, sep, i);
    }
    FindIs(s + t, sep, k);
  }

  lemma FindCut(s: Text, sep: Text, k: nat)
    requires sep != [] && Find(s, sep) == Some(k)
    ensures EndsAtSeparator(s[..k], sep)
  {
    var t := s[..k] + sep;
    assert t == s[..k + |sep|];
    assert Occurs(t, sep, k);
    forall i: nat | i < k
      ensures !Occurs(t, sep, i)
    {
      assert !Occurs(s, sep, i);
      if i + |sep| <= |t| {
        assert t[i..i + |sep|] == s[i..i + |sep|];
      }
    }
    FindIs(t, sep, k);
  }

  lemma {:induction false} SplitIsSeparated(s: Text, sep: Text)
    requires sep != []
    ensures Separated(Split(s, sep), sep)
    decreases |s|
  {
    hide Find, EndsAtSeparator;
    match Find(s, sep)
    case None =>
    case Some(k) =>
      FindCut(s, sep, k);
      var rest := Split(s[k + |sep|..], sep);
      SplitIsSeparated(s[k + |sep|..], sep);
      var parts := Split(s, sep);
      assert parts == [s[..k]] + rest;
      forall i | 0 <= i < |parts| - 1
        ensures EndsAtSeparator(parts[i], sep)
      {
        if i > 0 {
          assert parts[i] == rest[i - 1];
        }
      }
      assert parts[|parts| - 1] == rest[|rest| - 1];
  }

  /** A part in front of a separator does not contain the separator. */
  lemma SeparatedPart(part: Text, sep: Text)
    requires sep != [] && EndsAtSeparator(part, sep)
    ensures Find(part, sep) == None
  {
    match Find(part, sep)
    case None =>
    case Some(k) =>
      assert (part + sep)[k..k + |sep|] == part[k..k + |sep|];
      assert Occurs(part + sep, sep, k);
      assert false;
  }

  lemma {:induction false} SplitOfJoin(parts: seq<Text>, sep: Text)
    requires sep != [] && Separated(parts, sep)
    ensures Split(Join(parts, sep), sep) == parts
    decreases |parts|
  {
    hide Find;
    var s := Join(parts, sep);
    if |parts| == 1 {
      assert s == parts[0];
    } else {
      var tail := parts[1..];
      assert forall i :: 0 <= i < |tail| ==> tail[i] == parts[i + 1];
      SplitOfJoin(tail, sep);
      var head, rest := parts[0], Join(tail, sep);
      assert EndsAtSeparator(head, sep);
      FindInPrefix(head + sep, rest, sep);
      assert s == (head + sep) + rest;
      assert s[..|head|] == head && s[|head| + |sep|..] == rest;
    }
  }

  /** Splitting what was joined gives the parts back exactly when they look like parts of a split. */
  lemma SplitOfJoinIff(parts: seq<Text>, sep: Text)
    requires sep != []
    ensures Split(Join(parts, sep), sep) == parts <==> Separated(parts, sep)
  {
    hide Split, Join, Separated;
    SplitIsSeparated(Join(parts, sep), sep);
    if Separated(parts, sep) {
      SplitOfJoin(parts, sep);
    }
  }

  lemma NoPartContainsSeparator(s: Text, sep: Text, i: nat)
    requires sep != [] && i < |Split(s, sep)|
    ensures Find(Split(s, sep)[i], sep) == None
  {
    hide Split, Find;
    SplitIsSeparated(s, sep);
    if i < |Split(s, sep)| - 1 {
      SeparatedPart(Split(s, sep)[i], sep);
    }
  }

  // ---- split -----------------------------------------------------------------------------------

  const NO_LIMIT := 0x7FFF_FFFF

  function Limit(limit: Option<int>): nat {
    if limit.None? then NO_LIMIT else if limit.value < 0 then 0 else limit.value
  }

  function Take<T>(s: seq<T>, n: nat): seq<T> {
    if |s| <= n then s else s[..n]
  }

  function Characters(s: Text): seq<Text> {
    seq(|s|, i requires 0 <= i < |s| => [s[i]])
  }

  lemma {:induction false} JoinOfCharacters(s: Text)
    ensures |Characters(s)| == |s| && Join(Characters(s), []) == s
    decreases |s|
  {
    if |s| > 1 {
      assert Characters(s)[1..] == Characters(s[1..]);
      JoinOfCharacters(s[1..]);
    }
  }

  /** `js_string_proto_split`; without a separator the limit is not looked at. */
  method SplitText(s: Text, separator: Option<Text>, limit: Option<int>) returns (parts: seq<Text>)
    ensures separator.Some? && limit.Some? && limit.value >= 0 ==> |parts| <= limit.value
    ensures separator.Some? && limit.Some? && limit.value < 0 ==> parts == []
    ensures separator.None? ==> parts == [s]
    ensures separator == Some([]) ==> parts == Take(Characters(s), Limit(limit))
    ensures separator.Some? && separator.value != [] ==> parts == Take(Split(s, separator.value), Limit(limit))
  {
    if separator.None? {
      return [s];
    }
    var most := Limit(limit);
    if separator.value == [] {
      parts := [];
      var i := 0;
      while i < |s| && |parts| < most
        invariant i <= |s| && |parts| == i <= most && parts == Characters(s)[..i]
      {
        parts := parts + [[s[i]]];
        i := i + 1;
      }
    } else {
      parts := SplitAt(s, separator.value, most);
    }
  }

  /** The loop over the occurrences of the separator. */
  method SplitAt(s: Text, sep: Text, most: nat) returns (parts: seq<Text>)
    requires sep != []
    ensures parts == Take(Split(s, sep), most)
  {
    hide Split, Find;
    parts := [];
    var pos := 0;
    assert s[0..] == s;
    var next := Find(s, sep);
    while next.Some? && |parts| < most
      invariant pos <= |s| && |parts| <= most && next == Find(s[pos..], sep)
      invariant parts + Split(s[pos..], sep) == Split(s, sep)
      decreases |s| - pos
    {
      ghost var rest := s[pos..];
      var end := pos + next.value;
      SplitStep(rest, sep);
      assert rest[..next.value] == s[pos..end] && rest[next.value + |sep|..] == s[end + |sep|..];
      NextPart(parts, s[pos..end], Split(s[end + |sep|..], sep), Split(s, sep));
      parts := parts + [s[pos..end]];
      pos := end + |sep|;
      next := Find(s[pos..], sep);
    }
    SplitStep(s[pos..], sep);
    if |parts| < most {
      parts := parts + [s[pos..]];
    }
  }

  lemma SplitStep(s: Text, sep: Text)
    requires sep != []
    ensures Find(s, sep).None? ==> Split(s, sep) == [s]
    ensures Find(s, sep).Some? ==>
      var k := Find(s, sep).value;
      Split(s, sep) == [s[..k]] + Split(s[k + |sep|..], sep)
  {
  }

  lemma NextPart(done: seq<Text>, part: Text, rest: seq<Text>, total: seq<Text>)
    requires done + ([part] + rest) == total
    ensures done + [part] + rest == total
  {
  }

  // ---- join ------------------------------------------------------------------------------------

  function TotalLength(parts: seq<Text>): nat {
    if parts == [] then 0 else TotalLength(parts[..|parts| - 1]) + |parts[|parts| - 1]|
  }

  lemma {:induction false} JoinAppended(parts: seq<Text>, part: Text, sep: Text)
    requires parts != []
    ensures Join(parts + [part], sep) == Join(parts, sep) + sep + part
  {
    var all := parts + [part];
    if |parts| == 1 {
      assert all[1..] == [part];
    } else {
      JoinAppended(parts[1..], part, sep);
      assert all[1..] == parts[1..] + [part];
    }
  }

  lemma {:induction false} JoinLength(parts: seq<Text>, sep: Text)
    requires parts != []
    ensures |Join(parts, sep)| == TotalLength(parts) + (|parts| - 1) * |sep|
  {
    var n := |parts| - 1;
    var front := parts[..n];
    assert parts == front + [parts[n]];
    if n > 0 {
      JoinLength(front, sep);
      JoinAppended(front, parts[n], sep);
      assert n * |sep| == (n - 1) * |sep| + |sep|;
    } else {
      assert TotalLength(front) == 0;
    }
  }

  lemma {:induction false} JoinPrefix(parts: seq<Text>, i: nat, sep: Text)
    requires i < |parts|
    ensures Join(parts[..i + 1], sep) == Join(parts[..i], sep) + (if i > 0 then sep else []) + parts[i]
    ensures |Join(parts[..i + 1], sep)| <= |Join(parts, sep)|
    decreases |parts| - i
  {
    assert parts[..i + 1] == parts[..i] + [parts[i]];
    if i > 0 {
      JoinAppended(parts[..i], parts[i], sep);
    }
    if i + 1 < |parts| {
      JoinPrefix(parts, i + 1, sep);
    } else {
      assert parts[..i + 1] == parts;
    }
  }

  /** `strcat`: finds the end of the text in the buffer and copies there. */
  method Strcat(buf: array<byte>, t: Text, ghost n: nat)
    requires n + |t| < buf.Length && buf[n] == 0 && NoNul(buf[..n])
    modifies buf
    ensures buf[..n + |t|] == old(buf[..n]) + t && buf[n + |t|] == 0
  {
    var end := 0;
    assert forall k :: 0 <= k < n ==> buf[k] == buf[..n][k];
    while buf[end] != 0
      invariant end <= n
      decreases n - end
    {
      end := end + 1;
    }
    for i := 0 to |t|
      invariant buf[..end + i] == old(buf[..n]) + t[..i]
    {
      buf[end + i] := t[i];
    }
    buf[end + |t|] := 0;
  }

  predicate AllNoNul(parts: seq<Text>) {
    forall i :: 0 <= i < |parts| ==> NoNul(parts[i])
  }

  /** The text of an array element; undefined and null count as the empty string. */
  function ElementTexts(elements: seq<Option<Text>>): (parts: seq<Text>)
    ensures |parts| == |elements|
  {
    seq(|elements|, i requires 0 <= i < |elements| => if elements[i].Some? then elements[i].value else [])
  }

  /** `js_array_proto_join`: the text fills the buffer that was measured for it. */
  method ArrayJoin(elements: seq<Option<Text>>, separator: Option<Text>) returns (buf: array<byte>)
    requires AllNoNul(ElementTexts(elements)) && (separator.Some? ==> NoNul(separator.value))
    ensures buf.Length > 0 && buf[buf.Length - 1] == 0
    ensures buf[..buf.Length - 1] == Join(ElementTexts(elements), if separator.Some? then separator.value else [44])
  {
    hide Join, TotalLength, ElementTexts;
    var sep := if separator.Some? then separator.value else [44];
    var parts, total := Measure(elements);
    total := total + if |parts| > 0 then (|parts| - 1) * |sep| else 0;
    if |parts| > 0 {
      JoinLength(parts, sep);
    } else {
      NothingJoined(parts, sep);
      NothingMeasured(parts);
    }
    buf := new byte[total + 1];
    JoinInto(buf, parts, sep);
  }

  lemma NothingMeasured(parts: seq<Text>)
    requires parts == []
    ensures TotalLength(parts) == 0
  {
  }

  /** The loop that collects the texts and adds up their lengths. */
  method Measure(elements: seq<Option<Text>>) returns (parts: seq<Text>, total: nat)
    ensures parts == ElementTexts(elements) && total == TotalLength(parts)
  {
    parts := [];
    total := 0;
    for i := 0 to |elements|
      invariant parts == ElementTexts(elements)[..i] && total == TotalLength(parts)
    {
      var part := if elements[i].Some? then elements[i].value else [];
      assert (parts + [part])[..i] == parts;
      parts := parts + [part];
      total := total + |part|;
    }
  }

  method JoinInto(buf: array<byte>, parts: seq<Text>, sep: Text)
    requires buf.Length == |Join(parts, sep)| + 1 && NoNul(sep) && AllNoNul(parts)
    modifies buf
    ensures buf[..buf.Length - 1] == Join(parts, sep) && buf[buf.Length - 1] == 0
  {
    hide Join;
    buf[0] := 0;
    ghost var n: nat := 0;
    NothingJoined(parts[..0], sep);
    for i := 0 to |parts|
      invariant n < buf.Length && buf[..n] == Join(parts[..i], sep) && buf[n] == 0 && NoNul(buf[..n])
    {
      JoinPrefix(parts, i, sep);
      if i > 0 {
        Strcat(buf, sep, n);
        n := n + |sep|;
      }
      Strcat(buf, parts[i], n);
      n := n + |parts[i]|;
    }
    assert parts[..|parts|] == parts;
  }

  lemma NothingJoined(parts: seq<Text>, sep: Text)
    requires parts == []
    ensures Join(parts, sep) == []
  {
  }
}
