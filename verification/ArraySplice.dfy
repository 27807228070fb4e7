/** Array.prototype.splice, slice and toSpliced. */
module ArraySplice {
  import opened JsArrays

  /** The arguments of splice, by how many are given. */
  datatype Args<T> =
    | NoArgs
    | From(start: int)
    | Replace(start: int, count: int, items: seq<Slot<T>>)

  function Items<T>(args: Args<T>): seq<Slot<T>> {
    if args.Replace? then args.items else []
  }

  function Start<T>(args: Args<T>, length: nat): (r: nat)
    ensures r <= length
  {
    if args.NoArgs? then 0 else Relative(args.start, length)
  }

  /** How many slots are deleted; without any argument the code deletes all of them. */
  function DeleteCount<T>(args: Args<T>, length: nat): (r: nat)
    ensures Start(args, length) + r <= length
  {
    var rest := length - Start(args, length);
    if !args.Replace? then rest
    else if args.count <= 0 then 0
    else if args.count < rest then args.count
    else rest
  }

  function Deleted<T>(s: seq<Slot<T>>, args: Args<T>): seq<Slot<T>> {
    s[Start(args, |s|)..][..DeleteCount(args, |s|)]
  }

  function Before<T>(s: seq<Slot<T>>, args: Args<T>): seq<Slot<T>> {
    s[..Start(args, |s|)]
  }

  function Behind<T>(s: seq<Slot<T>>, args: Args<T>): seq<Slot<T>> {
    s[Start(args, |s|) + DeleteCount(args, |s|)..]
  }

  function Spliced<T>(s: seq<Slot<T>>, args: Args<T>): seq<Slot<T>> {
    Before(s, args) + Items(args) + Behind(s, args)
  }

  /** One argument deletes to the end; a negative one counts from there. */
  lemma StartAloneDeletesToEnd<T>(s: seq<Slot<T>>, k: int)
    ensures 0 <= k <= |s| ==> Spliced(s, From(k)) == s[..k] && Deleted(s, From(k)) == s[k..]
    ensures 1 <= k <= |s| ==> Spliced(s, From(-k)) == s[..|s| - k] && Deleted(s, From(-k)) == s[|s| - k..]
    ensures k > |s| ==> Spliced(s, From(k)) == s && Spliced(s, From(-k)) == []
  {
    assert Behind(s, From(k)) == [] && Behind(s, From(-k)) == [];
  }

  /** With a count that many slots are deleted, as far as there are, and none when it is negative. */
  lemma CountIsClamped<T>(s: seq<Slot<T>>, start: nat, count: int, items: seq<Slot<T>>)
    requires start <= |s|
    ensures var args := Replace(start, count, items);
            && (count <= 0 ==> Spliced(s, args) == s[..start] + items + s[start..])
            && (0 <= count <= |s| - start ==> Spliced(s, args) == s[..start] + items + s[start + count..])
            && (count > |s| - start ==> Spliced(s, args) == s[..start] + items)
  {
  }

  /** `Array.prototype.splice` clamps its arguments in this order. */
  method Clamp<T>(args: Args<T>, length: nat) returns (start: nat, count: nat)
    ensures start == Start(args, length) && count == DeleteCount(args, length)
  {
    var from: int := 0;
    if !args.NoArgs? {
      from := args.start;
      if from < 0 {
        from := length + from;
      }
      if from < 0 {
        from := 0;
      }
      if from > length {
        from := length;
      }
    }
    start := from;
    var n: int := 0;
    if args.Replace? {
      n := args.count;
      if n < 0 {
        n := 0;
      }
      if start + n > length {
        n := length - start;
      }
    } else {
      n := length - start;
    }
    count := n;
  }

  /** The loop that collects the removed slots; the undefined ones are left as holes. */
  method Collect<T>(a: JsArray<T>, start: nat, count: nat) returns (removed: JsArray<T>)
    requires a.Valid() && start + count <= a.length
    ensures fresh(removed) && removed.Valid() && removed.Contents() == a.Contents()[start..start + count]
  {
    ghost var want := a.Contents()[start..start + count];
    removed := new JsArray();
    for i := 0 to count
      invariant fresh(removed) && removed.Valid() && removed.length == |removed.elements| <= i
      invariant Padded(removed.elements, i) == want[..i]
    {
      ghost var done := Padded(removed.elements, i);
      var v := a.Get(start + i);
      assert v == want[i];
      assert Padded(removed.elements, i + 1) == done + [Undefined];
      if v != Undefined {
        removed.Set(i, v);
      }
    }
    removed.SetLength(count);
  }

  method ShiftLeft<T>(a: JsArray<T>, start: nat, gap: nat, end: nat)
    requires a.Valid() && gap > 0 && start <= end && end + gap == a.length
    modifies a
    ensures a.Valid() && a.length == old(a.length) && |a.elements| == old(|a.elements|)
    ensures a.elements[..start] == old(a.elements[..start])
    ensures a.elements[start..end] == old(a.elements[start + gap..a.length])
  {
    ghost var was := a.elements;
    for i := start to end
      invariant a.Valid() && a.length == old(a.length) && |a.elements| == |was|
      invariant forall j :: 0 <= j < start || i <= j < |was| ==> a.elements[j] == was[j]
      invariant forall j :: start <= j < i ==> a.elements[j] == was[j + gap]
    {
      a.Set(i, a.Get(i + gap));
    }
  }

  method ShiftRight<T>(a: JsArray<T>, start: nat, gap: nat)
    requires a.Valid() && gap > 0 && start <= a.length
    modifies a
    ensures a.Valid() && a.length == if start < old(a.length) then old(a.length) + gap else old(a.length)
    ensures a.elements[..start] == old(a.elements[..start])
    ensures start < old(a.length) ==> a.elements[start + gap..a.length] == old(a.elements[start..a.length])
  {
    ghost var was := a.elements;
    var n := a.length;
    for i := n + gap downto start + gap
      invariant a.Valid() && |was| <= |a.elements|
      invariant a.length == if i == n + gap then n else n + gap
      invariant forall j :: 0 <= j < n && j < i ==> a.elements[j] == was[j]
      invariant forall j :: i <= j < n + gap ==> a.elements[j] == was[j - gap]
    {
      a.Set(i, a.Get(i - gap));
    }
  }

  method Insert<T>(a: JsArray<T>, start: nat, items: seq<Slot<T>>)
    requires a.Valid() && start <= a.length
    modifies a
    ensures a.Valid() && a.length == if start + |items| <= old(a.length) then old(a.length) else start + |items|
    ensures a.elements[..start] == old(a.elements[..start])
    ensures a.elements[start..start + |items|] == items
    ensures start + |items| <= old(a.length) ==>
      a.elements[start + |items|..a.length] == old(a.elements[start + |items|..a.length])
  {
    ghost var was := a.elements;
    ghost var n := a.length;
    for i := 0 to |items|
      invariant a.Valid() && a.length == if start + i <= n then n else start + i
      invariant |was| <= |a.elements|
      invariant forall j :: 0 <= j < start ==> a.elements[j] == was[j]
      invariant forall j :: start + i <= j < n ==> a.elements[j] == was[j]
      invariant forall j :: start <= j < start + i ==> a.elements[j] == items[j - start]
    {
      a.Set(start + i, items[i]);
    }
  }

  lemma SamePart<T>(s: seq<T>, t: seq<T>, low: nat, mid: nat, high: nat)
    requires low <= mid <= high <= |s| && high <= |t| && s[low..high] == t[low..high]
    ensures s[low..mid] == t[low..mid]
  {
    assert s[low..mid] == s[low..high][..mid - low] && t[low..mid] == t[low..high][..mid - low];
  }

  /** Moves the slots behind the deleted ones to where they belong behind the items. */
  method Shift<T>(a: JsArray<T>, start: nat, count: nat, insert: nat)
    requires a.Valid() && start + count <= a.length
    modifies a
    ensures a.Valid() && start <= a.length
    ensures a.elements[..start] == old(a.elements[..start])
    ensures start + count < old(a.length) ==> old(a.length) - count + insert <= a.length
    ensures start + count < old(a.length) ==>
      a.elements[start + insert..old(a.length) - count + insert] == old(a.elements[start + count..a.length])
  {
    ghost var was := a.elements;
    var newLength := a.length - count + insert;
    if insert < count {
      ShiftLeft(a, start, count - insert, newLength);
    } else if insert > count {
      ShiftRight(a, start + count, insert - count);
      assert a.elements[..start] == a.elements[..start + count][..start];
    }
  }

  /** The shifts and stores that splice and toSpliced share. */
  method ReplaceInPlace<T>(a: JsArray<T>, start: nat, count: nat, items: seq<Slot<T>>)
    requires a.Valid() && start + count <= a.length
    modifies a
    ensures a.Valid()
    ensures a.Contents() == old(a.Contents())[..start] + items + old(a.Contents())[start + count..]
  {
    ghost var was := a.Contents();
    ghost var suffix := was[start + count..];
    var insert := |items|;
    var newLength := a.length - count + insert;
    Shift(a, start, count, insert);
    ghost var shifted, high := a.elements, a.length;
    Insert(a, start, items);
    if suffix != [] {
      SamePart(shifted, a.elements, start + insert, newLength, high);
    }
    ghost var done := a.elements;
    assert done[..start] == shifted[..start] == was[..start];
    assert done[start + insert..newLength] == suffix;
    a.SetLength(newLength);
    assert a.Contents() == done[..newLength];
    ThreeParts(done, a.Contents(), start, start + insert);
  }

  lemma ThreeParts<T>(buffer: seq<T>, s: seq<T>, i: nat, j: nat)
    requires i <= j <= |s| <= |buffer| && s == buffer[..|s|]
    ensures s == buffer[..i] + buffer[i..j] + buffer[j..|s|]
  {
  }

  /** `js_array_proto_splice`: what it leaves and what it returns. */
  method Splice<T>(a: JsArray<T>, args: Args<T>) returns (removed: JsArray<T>)
    requires a.Valid()
    modifies a
    ensures a.Valid() && a.Contents() == Spliced(old(a.Contents()), args)
    ensures fresh(removed) && removed.Valid() && removed.Contents() == Deleted(old(a.Contents()), args)
  {
    var start, count := Clamp(args, a.length);
    removed := Collect(a, start, count);
    ReplaceInPlace(a, start, count, Items(args));
  }

  /** `js_array_proto_slice` as toSpliced calls it: a copy without the undefined slots. */
  method Slice<T>(a: JsArray<T>) returns (r: JsArray<T>)
    requires a.Valid()
    ensures fresh(r) && r.Valid() && r.Contents() == Compact(a.Contents())
  {
    hide Compact;
    r := new JsArray();
    ghost var s := a.Contents();
    CompactNothing(s[..0]);
    for i := 0 to a.length
      invariant fresh(r) && r.Valid() && r.elements == r.Contents() == Compact(s[..i])
    {
      CompactNext(s, i);
      var v := a.Get(i);
      if v != Undefined {
        r.Set(r.length, v);
      }
    }
    assert s[..a.length] == s;
    r.SetLength(r.length);
  }

  lemma CompactNothing<T>(s: seq<Slot<T>>)
    requires s == []
    ensures Compact(s) == []
  {
  }

  lemma CompactNext<T>(s: seq<Slot<T>>, i: nat)
    requires i < |s|
    ensures Compact(s[..i + 1]) == Compact(s[..i]) + if s[i].Undefined? then [] else [s[i]]
  {
    assert s[..i + 1][..i] == s[..i];
  }

  /** `js_array_proto_to_spliced`. */
  method ToSpliced<T>(a: JsArray<T>, args: Args<T>) returns (r: JsArray<T>)
    requires a.Valid()
    ensures fresh(r) && r.Valid() && r.Contents() == Spliced(Compact(a.Contents()), args)
  {
    hide Compact, Relative, Items;
    r := Slice(a);
    var start, count := Clamp(args, r.length);
    ReplaceInPlace(r, start, count, Items(args));
  }

  /** Nothing is lost: the deleted slots put back between the kept ones make the old array. */
  lemma NothingLost<T>(s: seq<Slot<T>>, args: Args<T>)
    ensures Before(s, args) + Deleted(s, args) + Behind(s, args) == s
    ensures |Spliced(s, args)| + |Deleted(s, args)| == |s| + |Items(args)|
  {
  }

  /** A second splice that takes the items out and the deleted slots in undoes the first. */
  lemma SpliceUndone<T>(s: seq<Slot<T>>, args: Args<T>)
    ensures Spliced(Spliced(s, args), Replace(Start(args, |s|), |Items(args)|, Deleted(s, args))) == s
    ensures Deleted(Spliced(s, args), Replace(Start(args, |s|), |Items(args)|, Deleted(s, args))) == Items(args)
  {
    NothingLost(s, args);
    var back := Replace(Start(args, |s|), |Items(args)|, Deleted(s, args));
    var t := Spliced(s, args);
    Middle(Before(s, args), Items(args), Behind(s, args));
    assert Start(back, |t|) == |Before(s, args)| && DeleteCount(back, |t|) == |Items(args)|;
  }

  lemma Middle<T>(a: seq<T>, b: seq<T>, c: seq<T>)
    ensures (a + b + c)[..|a|] == a && (a + b + c)[|a|..][..|b|] == b && (a + b + c)[|a| + |b|..] == c
  {
  }

  /**
   When toSpliced and splice agree.  Leaving out undefined slots does no harm when there are none,
   or when all of them are deleted from the end on and the start is found at the same place.
   */
  ghost predicate CopyIsHarmless<T>(s: seq<Slot<T>>, args: Args<T>) {
    NoUndefined(s)
    || (Behind(s, args) == [] && NoUndefined(Before(s, args)) && Start(args, |Compact(s)|) == Start(args, |s|))
  }

  lemma {:induction false} CompactPrefix<T>(s: seq<Slot<T>>, n: nat)
    requires n <= |s| && NoUndefined(s[..n])
    ensures |Compact(s)| >= n && Compact(s)[..n] == s[..n]
    decreases |s|
  {
    if n == |s| {
      assert s[..n] == s;
    } else {
      assert s[..|s| - 1][..n] == s[..n];
      CompactPrefix(s[..|s| - 1], n);
    }
  }

  lemma SameLengthMeans<T>(s: seq<Slot<T>>, args: Args<T>)
    requires !NoUndefined(s) && |Spliced(Compact(s), args)| == |Spliced(s, args)|
    ensures Behind(s, args) == [] && Start(args, |Compact(s)|) == Start(args, |s|)
  {
    NothingLost(s, args);
    NothingLost(Compact(s), args);
  }

  /** toSpliced gives what splice would leave, exactly then. */
  lemma ToSplicedAgrees<T>(s: seq<Slot<T>>, args: Args<T>)
    ensures Spliced(Compact(s), args) == Spliced(s, args) <==> CopyIsHarmless(s, args)
  {
    var c, p := Compact(s), Start(args, |s|);
    if !NoUndefined(s) {
      if Spliced(c, args) == Spliced(s, args) {
        SameLengthMeans(s, args);
        assert Before(s, args) == Spliced(s, args)[..p] == Before(c, args);
      }
      if CopyIsHarmless(s, args) {
        CompactPrefix(s, p);
        assert Behind(c, args) == [];
      }
    }
  }

  /**
   Splice without arguments deletes everything.  ECMAScript deletes nothing, so the two agree on
   the empty array alone.
   */
  lemma NoArgumentsDeleteAll<T>(s: seq<Slot<T>>)
    ensures Deleted(s, NoArgs) == s
    ensures Spliced(s, NoArgs) == s <==> s == []
  {
  }
}
