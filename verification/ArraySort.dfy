/** Array.prototype.sort: a bubble sort by a comparison that may throw. */
module ArraySort {
  import opened Bytes
  import opened JsArrays

  /** What calling the comparison gives: an exception, or a number cut to an int. */
  datatype Outcome = Threw | Order(cmp: int)

  type Comparison<!T> = (T, T) -> Outcome

  ghost predicate Leq<T(!new)>(f: Comparison<T>, x: T, y: T) {
    f(x, y).Order? && f(x, y).cmp <= 0
  }

  ghost predicate Same<T(!new)>(f: Comparison<T>, x: T, y: T) {
    Leq(f, x, y) && Leq(f, y, x)
  }

  /** On these elements the comparison never throws, and orders them by some key. */
  ghost predicate TotalPreorder<T(!new)>(f: Comparison<T>, s: seq<T>) {
    (forall x, y :: x in s && y in s ==> f(x, y).Order?)
    && (forall x, y :: x in s && y in s ==> (f(x, y).cmp > 0 <==> f(y, x).cmp < 0))
    && (forall x, y, z :: x in s && y in s && z in s && Leq(f, x, y) && Leq(f, y, z) ==> Leq(f, x, z))
  }

  ghost predicate Sorted<T(!new)>(f: Comparison<T>, s: seq<T>) {
    forall i, j :: 0 <= i < j < |s| ==> Leq(f, s[i], s[j])
  }

  /** The elements that compare equal to `key`, in their order. */
  ghost function Class<T(!new)>(f: Comparison<T>, s: seq<T>, key: T): seq<T> {
    if s == [] then [] else OneClass(f, s[0], key) + Class(f, s[1..], key)
  }

  ghost function OneClass<T(!new)>(f: Comparison<T>, x: T, key: T): seq<T> {
    if Same(f, x, key) then [x] else []
  }

  /** Elements that compare equal are in the same order in both. */
  ghost predicate SameClasses<T(!new)>(f: Comparison<T>, s: seq<T>, t: seq<T>) {
    forall key :: key in s ==> Class(f, s, key) == Class(f, t, key)
  }

  /** The same elements, those that compare equal still in the same order. */
  ghost predicate Rearranged<T(!new)>(f: Comparison<T>, s: seq<T>, t: seq<T>) {
    multiset(s) == multiset(t) && (TotalPreorder(f, s) ==> SameClasses(f, s, t))
  }

  lemma SameMembers<T(!new)>(f: Comparison<T>, s: seq<T>, t: seq<T>)
    requires multiset(s) == multiset(t)
    ensures forall x :: x in s <==> x in t
    ensures TotalPreorder(f, s) <==> TotalPreorder(f, t)
  {
    assert forall x :: (x in s <==> x in multiset(s)) && (x in t <==> x in multiset(t));
  }

  lemma {:induction false} ClassConcat<T(!new)>(f: Comparison<T>, s: seq<T>, t: seq<T>, key: T)
    ensures Class(f, s + t, key) == Class(f, s, key) + Class(f, t, key)
  {
    hide OneClass;
    if s == [] {
      assert s + t == t;
    } else {
      ClassConcat(f, s[1..], t, key);
      assert (s + t)[1..] == s[1..] + t;
      var one, rest, last := OneClass(f, s[0], key), Class(f, s[1..], key), Class(f, t, key);
      Regroup(one, rest, last, one + (rest + last));
    }
  }

  function Swapped<T>(s: seq<T>, j: nat): seq<T>
    requires j + 1 < |s|
  {
    s[..j] + [s[j + 1], s[j]] + s[j + 2..]
  }

  lemma PairClass<T(!new)>(f: Comparison<T>, s: seq<T>, x: T, y: T, key: T)
    requires TotalPreorder(f, s) && x in s && y in s && key in s && !Leq(f, x, y)
    ensures Class(f, [x, y], key) == Class(f, [y, x], key)
  {
    assert [x, y][1..] == [y] && [y, x][1..] == [x];
    assert Same(f, x, key) && Same(f, y, key) ==> Leq(f, x, y);
  }

  /** Exchanging two neighbours that are out of order keeps every class. */
  lemma SwapRearranges<T(!new)>(f: Comparison<T>, s: seq<T>, j: nat)
    requires j + 1 < |s| && !Leq(f, s[j], s[j + 1])
    ensures Rearranged(f, s, Swapped(s, j))
  {
    var a, b, c, d := s[..j], [s[j], s[j + 1]], [s[j + 1], s[j]], s[j + 2..];
    assert s == a + b + d && Swapped(s, j) == a + c + d;
    assert multiset(b) == multiset(c);
    if TotalPreorder(f, s) {
      forall key | key in s
        ensures Class(f, s, key) == Class(f, Swapped(s, j), key)
      {
        hide Same, TotalPreorder;
        PairClass(f, s, s[j], s[j + 1], key);
        ClassConcat(f, a + b, d, key);
        ClassConcat(f, a + c, d, key);
        ClassConcat(f, a, b, key);
        ClassConcat(f, a, c, key);
      }
    }
  }

  lemma RearrangedTwice<T(!new)>(f: Comparison<T>, s: seq<T>, t: seq<T>, u: seq<T>)
    requires Rearranged(f, s, t) && Rearranged(f, t, u)
    ensures Rearranged(f, s, u)
  {
    hide TotalPreorder;
    SameMembers(f, s, t);
  }

  /** From `n` on everything is in its place: sorted, and nothing before it is greater. */
  ghost predicate Settled<T(!new)>(f: Comparison<T>, s: seq<T>, n: nat) {
    (forall i, j :: n <= i < j < |s| ==> Leq(f, s[i], s[j]))
    && (forall i, j :: 0 <= i < n <= j < |s| ==> Leq(f, s[i], s[j]))
  }

  /** The greatest of the first `n + 1` elements stands at `n`. */
  ghost predicate Bubbled<T(!new)>(f: Comparison<T>, s: seq<T>, n: nat) {
    n < |s| && forall i :: 0 <= i < n ==> Leq(f, s[i], s[n])
  }

  lemma StepKept<T(!new)>(f: Comparison<T>, s: seq<T>, j: nat, n: nat)
    requires TotalPreorder(f, s) && j + 1 < n <= |s| && Settled(f, s, n) && Bubbled(f, s, j)
    ensures Leq(f, s[j], s[j + 1]) ==> Bubbled(f, s, j + 1)
    ensures !Leq(f, s[j], s[j + 1]) ==> Bubbled(f, Swapped(s, j), j + 1) && Settled(f, Swapped(s, j), n)
  {
    var t := Swapped(s, j);
    assert forall i :: 0 <= i < |s| && i != j && i != j + 1 ==> t[i] == s[i];
    assert !Leq(f, s[j], s[j + 1]) ==> Leq(f, s[j + 1], s[j]);
  }

  lemma PassEnds<T(!new)>(f: Comparison<T>, s: seq<T>, n: nat)
    ensures |s| > 0 ==> Bubbled(f, s, 0)
    ensures n > 0 && Settled(f, s, n) && Bubbled(f, s, n - 1) ==> Settled(f, s, n - 1)
    ensures Settled(f, s, |s|)
    ensures n <= 1 && Settled(f, s, n) ==> Sorted(f, s)
    ensures Rearranged(f, s, s)
  {
  }

  lemma NeverThrows<T(!new)>(f: Comparison<T>, s: seq<T>, j: nat)
    requires TotalPreorder(f, s) && j + 1 < |s|
    ensures f(s[j], s[j + 1]).Order?
  {
  }

  /** One run of the inner loop, which leaves the greatest of the first `n` elements at the end. */
  method Pass<T(!new)>(e: array<T>, f: Comparison<T>, n: nat) returns (threw: bool)
    requires 0 < n <= e.Length
    modifies e
    ensures Rearranged(f, old(e[..]), e[..])
    ensures TotalPreorder(f, old(e[..])) ==> !threw
    ensures TotalPreorder(f, old(e[..])) && Settled(f, old(e[..]), n) ==> Settled(f, e[..], n - 1)
  {
    hide Rearranged, Settled, Bubbled, TotalPreorder;
    PassEnds(f, e[..], n);
    ghost var was := e[..];
    ghost var ordered := TotalPreorder(f, was) && Settled(f, was, n);
    for j := 0 to n - 1
      invariant Rearranged(f, was, e[..])
      invariant TotalPreorder(f, e[..]) <==> TotalPreorder(f, was)
      invariant ordered ==> Settled(f, e[..], n) && Bubbled(f, e[..], j)
    {
      ghost var s := e[..];
      if TotalPreorder(f, was) {
        NeverThrows(f, s, j);
      }
      match f(e[j], e[j + 1])
      case Threw =>
        return true;
      case Order(cmp) =>
        if ordered {
          StepKept(f, s, j, n);
        }
        if cmp > 0 {
          e[j], e[j + 1] := e[j + 1], e[j];
          assert e[..] == Swapped(s, j);
          SwapRearranges(f, s, j);
          RearrangedTwice(f, was, s, e[..]);
          RearrangedMembers(f, was, e[..]);
        }
    }
    PassEnds(f, e[..], n);
    threw := false;
  }

  lemma RearrangedMembers<T(!new)>(f: Comparison<T>, s: seq<T>, t: seq<T>)
    requires Rearranged(f, s, t)
    ensures TotalPreorder(f, t) <==> TotalPreorder(f, s)
  {
    hide TotalPreorder, SameClasses;
    SameMembers(f, s, t);
  }

  /** Both loops of `js_array_proto_sort`, on the copy of the elements. */
  method BubbleSort<T(!new)>(e: array<T>, f: Comparison<T>) returns (threw: bool)
    modifies e
    ensures Rearranged(f, old(e[..]), e[..])
    ensures TotalPreorder(f, old(e[..])) ==> !threw && Sorted(f, e[..])
  {
    hide Rearranged, Settled, Sorted, TotalPreorder;
    PassEnds(f, e[..], 1);
    ghost var was := e[..];
    var i := 0;
    while i < e.Length - 1
      invariant 0 <= i && (i < e.Length || e.Length == 0 == i)
      invariant Rearranged(f, was, e[..])
      invariant TotalPreorder(f, e[..]) <==> TotalPreorder(f, was)
      invariant TotalPreorder(f, was) ==> Settled(f, e[..], e.Length - i)
    {
      ghost var s := e[..];
      threw := Pass(e, f, e.Length - i);
      RearrangedTwice(f, was, s, e[..]);
      RearrangedMembers(f, was, e[..]);
      if threw {
        return true;
      }
      i := i + 1;
    }
    PassEnds(f, e[..], e.Length - i);
    threw := false;
  }

  /**
   What a sort leaves: the array itself after an exception, a permutation always, and a stable
   sorting when the comparison orders the elements of the array.
   */
  ghost predicate SortedFrom<T(!new)>(f: Comparison<T>, before: seq<T>, after: seq<T>, threw: bool) {
    (threw ==> after == before)
    && multiset(after) == multiset(before)
    && (TotalPreorder(f, before) ==> !threw && Sorted(f, after) && SameClasses(f, before, after))
  }

  /** The elements collected into a temporary array. */
  method CopyOut<T(0)>(a: JsArray<T>) returns (e: array<Slot<T>>)
    requires a.Valid()
    ensures fresh(e) && e[..] == a.Contents()
  {
    e := new Slot<T>[a.length](_ => Undefined);
    for i := 0 to a.length
      invariant e[..i] == a.Contents()[..i]
    {
      e[i] := a.Get(i);
    }
  }

  method WriteBack<T>(a: JsArray<T>, e: array<Slot<T>>)
    requires a.Valid() && a.length == e.Length
    modifies a
    ensures a.Valid() && a.Contents() == e[..]
  {
    for i := 0 to e.Length
      invariant a.Valid() && a.length == e.Length
      invariant a.elements[..i] == e[..i]
    {
      a.Set(i, e[i]);
    }
  }

  /** `js_array_proto_sort`. */
  method Sort<T(!new, 0)>(a: JsArray<T>, f: Comparison<Slot<T>>) returns (threw: bool)
    requires a.Valid()
    modifies a
    ensures a.Valid() && SortedFrom(f, old(a.Contents()), a.Contents(), threw)
  {
    hide TotalPreorder, Sorted, SameClasses;
    var e := CopyOut(a);
    threw := BubbleSort(e, f);
    if !threw {
      WriteBack(a, e);
    }
  }

  // ---- What being sorted and stable determines ----------------------------------------------

  lemma {:induction false} ClassMembers<T(!new)>(f: Comparison<T>, s: seq<T>, key: T, x: T)
    ensures x in Class(f, s, key) <==> x in s && Same(f, x, key)
  {
    hide Same;
    if s != [] {
      ClassMembers(f, s[1..], key, x);
      assert s == [s[0]] + s[1..];
    }
  }

  lemma TailClasses<T(!new)>(f: Comparison<T>, s: seq<T>, t: seq<T>)
    requires s != [] && t != [] && s[0] == t[0] && SameClasses(f, s, t)
    ensures SameClasses(f, s[1..], t[1..])
  {
    forall key | key in s[1..]
      ensures Class(f, s[1..], key) == Class(f, t[1..], key)
    {
      var c := Class(f, s, key);
      assert key in s && c == Class(f, t, key);
      if Same(f, s[0], key) {
        assert c[1..] == Class(f, s[1..], key) && c[1..] == Class(f, t[1..], key);
      } else {
        assert c == Class(f, s[1..], key) && c == Class(f, t[1..], key);
      }
    }
  }

  /** The least element of one sorting is found in the other, so the two begin alike. */
  lemma SameFirst<T(!new)>(f: Comparison<T>, s: seq<T>, t: seq<T>)
    requires TotalPreorder(f, s) && Sorted(f, t) && SameClasses(f, s, t) && s != []
    ensures t != [] && s[0] in t && Leq(f, t[0], s[0])
  {
    var x := s[0];
    assert Leq(f, x, x);
    ClassMembers(f, s, x, x);
    assert Class(f, s, x) == Class(f, t, x);
    ClassMembers(f, t, x, x);
    assert x in t;
    var i :| 0 <= i < |t| && t[i] == x;
    assert i == 0 ==> t[0] == x;
  }

  lemma PartOrdered<T(!new)>(f: Comparison<T>, s: seq<T>)
    requires s != [] && TotalPreorder(f, s)
    ensures TotalPreorder(f, s[1..])
  {
    assert forall x :: x in s[1..] ==> x in s;
  }

  /**
   There is only one stable sorting of the elements, so the result of the bubble sort is that of
   any other stable sort.
   */
  lemma {:induction false} StableSortingUnique<T(!new)>(f: Comparison<T>, s: seq<T>, t: seq<T>)
    requires TotalPreorder(f, s) && Sorted(f, s) && Sorted(f, t)
    requires multiset(s) == multiset(t) && SameClasses(f, s, t)
    ensures s == t
    decreases |s|
  {
    if s == [] {
      assert |multiset(t)| == |t|;
    } else {
      SameHead(f, s, t);
      RestSame(s, t);
      TailClasses(f, s, t);
      PartOrdered(f, s);
      StableSortingUnique(f, s[1..], t[1..]);
    }
  }

  lemma SameHead<T(!new)>(f: Comparison<T>, s: seq<T>, t: seq<T>)
    requires TotalPreorder(f, s) && Sorted(f, s) && Sorted(f, t) && s != []
    requires multiset(s) == multiset(t) && SameClasses(f, s, t)
    ensures t != [] && s[0] == t[0]
  {
    SameMembers(f, s, t);
    SameFirst(f, s, t);
    var key := s[0];
    assert t[0] in s && Leq(f, key, key) && Leq(f, key, t[0]);
    assert Same(f, s[0], key) && Same(f, t[0], key);
    assert Class(f, s, key)[0] == s[0] && Class(f, t, key)[0] == t[0];
  }

  lemma RestSame<T>(s: seq<T>, t: seq<T>)
    requires s != [] && t != [] && s[0] == t[0] && multiset(s) == multiset(t)
    ensures multiset(s[1..]) == multiset(t[1..])
  {
    assert s == [s[0]] + s[1..] && t == [t[0]] + t[1..];
    assert multiset(s[1..]) == multiset(s) - multiset{s[0]};
    assert multiset(t[1..]) == multiset(t) - multiset{t[0]};
  }

  // ---- The comparison when none is given -----------------------------------------------------

  function FirstByte(s: seq<byte>): byte {
    if s == [] then 0 else s[0]
  }

  /** `strcmp`: the difference of the first bytes that differ, the text ending at a NUL. */
  function Strcmp(s: seq<byte>, t: seq<byte>): int {
    var x, y := FirstByte(s), FirstByte(t);
    if x != y then x as int - y as int
    else if x == 0 then 0
    else Strcmp(s[1..], t[1..])
  }

  /** `s` comes before `t` as in a dictionary: it is a proper prefix, or smaller where they first differ. */
  ghost predicate Precedes(s: seq<byte>, t: seq<byte>) {
    exists n: nat ::
      && n <= |s| && n < |t| && s[..n] == t[..n]
      && (n == |s| || s[n] < t[n])
  }

  lemma PrecedesAt(s: seq<byte>, t: seq<byte>, n: nat)
    requires n <= |s| && n < |t| && s[..n] == t[..n] && (n == |s| || s[n] < t[n])
    ensures Precedes(s, t)
  {
  }

  lemma PrecedesInside(s: seq<byte>, t: seq<byte>)
    requires s != [] && t != [] && s[0] == t[0] && Precedes(s, t)
    ensures Precedes(s[1..], t[1..])
  {
    var n: nat :| n <= |s| && n < |t| && s[..n] == t[..n] && (n == |s| || s[n] < t[n]);
    assert n > 0;
    assert s[1..][..n - 1] == s[..n][1..] && t[1..][..n - 1] == t[..n][1..];
    PrecedesAt(s[1..], t[1..], n - 1);
  }

  lemma PrecedesOutside(c: byte, s: seq<byte>, t: seq<byte>)
    requires Precedes(s, t)
    ensures Precedes([c] + s, [c] + t)
  {
    var n: nat :| n <= |s| && n < |t| && s[..n] == t[..n] && (n == |s| || s[n] < t[n]);
    assert ([c] + s)[..n + 1] == [c] + s[..n] && ([c] + t)[..n + 1] == [c] + t[..n];
    PrecedesAt([c] + s, [c] + t, n + 1);
  }

  lemma FirstDecides(s: seq<byte>, t: seq<byte>)
    requires t != [] && (s == [] || s[0] < t[0])
    ensures Precedes(s, t) && !Precedes(t, s) && s != t
  {
    PrecedesAt(s, t, 0);
    if Precedes(t, s) {
      var n: nat :| n <= |t| && n < |s| && t[..n] == s[..n] && (n == |t| || t[n] < s[n]);
      assert false;
    }
  }

  lemma NothingPrecedesItself()
    ensures !Precedes([], [])
  {
  }

  /** The result is negative exactly when the first text precedes the second, each up to its NUL. */
  lemma {:induction false} StrcmpIsDictionaryOrder(s: seq<byte>, t: seq<byte>)
    ensures Strcmp(s, t) < 0 <==> Precedes(CString(s), CString(t))
    ensures Strcmp(s, t) == 0 <==> CString(s) == CString(t)
    decreases |s|
  {
    hide Precedes;
    var x, y := FirstByte(s), FirstByte(t);
    if x == y != 0 {
      var u, v := CString(s[1..]), CString(t[1..]);
      assert CString(s) == [x] + u && CString(t) == [x] + v;
      assert CString(s)[1..] == u && CString(t)[1..] == v;
      StrcmpIsDictionaryOrder(s[1..], t[1..]);
      if Precedes(u, v) {
        PrecedesOutside(x, u, v);
      } else if Precedes(CString(s), CString(t)) {
        PrecedesInside(CString(s), CString(t));
      }
    } else if x < y {
      FirstDecides(CString(s), CString(t));
    } else if y < x {
      FirstDecides(CString(t), CString(s));
    } else {
      NothingPrecedesItself();
    }
  }

  function ByText<T>(text: T -> seq<byte>): Comparison<T> {
    (x, y) => Order(Strcmp(text(x), text(y)))
  }

  lemma {:induction false} StrcmpReversed(s: seq<byte>, t: seq<byte>)
    ensures Strcmp(s, t) == -Strcmp(t, s)
  {
    if FirstByte(s) == FirstByte(t) != 0 {
      StrcmpReversed(s[1..], t[1..]);
    }
  }

  lemma {:induction false} StrcmpTransitive(s: seq<byte>, t: seq<byte>, u: seq<byte>)
    requires Strcmp(s, t) <= 0 && Strcmp(t, u) <= 0
    ensures Strcmp(s, u) <= 0
  {
    if FirstByte(s) == FirstByte(t) == FirstByte(u) != 0 {
      StrcmpTransitive(s[1..], t[1..], u[1..]);
    }
  }

  /** Without a comparison the sort is by text, which orders any values. */
  lemma ByTextIsTotal<T(!new)>(text: T -> seq<byte>, s: seq<T>)
    ensures TotalPreorder(ByText(text), s)
  {
    var f := ByText(text);
    forall x, y
      ensures f(x, y).cmp > 0 <==> f(y, x).cmp < 0
    {
      StrcmpReversed(text(x), text(y));
    }
    forall x, y, z | Leq(f, x, y) && Leq(f, y, z)
      ensures Leq(f, x, z)
    {
      StrcmpTransitive(text(x), text(y), text(z));
    }
  }
}
