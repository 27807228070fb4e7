/**
 Sorting numbers by their difference.  The result of the comparison is cast to an int, so
 differences below one count as none.
 */
module NumericSort {
  import opened Arithmetic
  import opened Numerals
  import opened JsArrays
  import opened ArraySort

  type Number = Slot<real>

  /** `(int)d`; where the integer part is no int the cast is undefined, and gives `outside`. */
  function Cut(d: real, outside: int): int {
    if Int32(Trunc(d)) then Trunc(d) else outside
  }

  /** What `(x, y) => x - y` compares as; a difference with undefined is not a number. */
  function ByDifference(outside: int): Comparison<Number> {
    (x: Number, y: Number) => Order(if x.Item? && y.Item? then Cut(x.value - y.value, outside) else outside)
  }

  /** Numbers whose differences an int can hold. */
  predicate Close(s: seq<Number>) {
    NoUndefined(s) && forall i, j :: 0 <= i < |s| && 0 <= j < |s| ==> Int32(Trunc(s[i].value - s[j].value))
  }

  /** No two numbers differ by less than one, unless they are equal. */
  predicate Apart(s: seq<Number>)
    requires NoUndefined(s)
  {
    forall i, j :: 0 <= i < |s| && 0 <= j < |s| && s[i].value < s[j].value ==> s[j].value - s[i].value >= 1.0
  }

  /** The comparison has the sign of the difference. */
  ghost predicate HasSign(f: Comparison<Number>, s: seq<Number>)
    requires NoUndefined(s)
  {
    forall i, j :: 0 <= i < |s| && 0 <= j < |s| ==> SignIs(f, s[i], s[j])
  }

  predicate SignIs(f: Comparison<Number>, x: Number, y: Number)
    requires x.Item? && y.Item?
  {
    f(x, y).Order?
    && (f(x, y).cmp > 0 <==> x.value > y.value)
    && (f(x, y).cmp < 0 <==> x.value < y.value)
  }

  lemma SignOfCut(x: real, y: real, outside: int)
    requires Int32(Trunc(x - y))
    ensures SignIs(ByDifference(outside), Item(x), Item(y)) <==> x == y || x - y >= 1.0 || y - x >= 1.0
  {
    TruncIs(x - y);
  }

  /** The cut difference orders numbers as the difference does exactly when they are one apart. */
  lemma HasSignIffApart(s: seq<Number>, outside: int)
    requires Close(s)
    ensures HasSign(ByDifference(outside), s) <==> Apart(s)
  {
    hide SignIs, Trunc;
    var f := ByDifference(outside);
    forall i, j | 0 <= i < |s| && 0 <= j < |s|
      ensures SignIs(f, s[i], s[j]) <==>
        s[i].value == s[j].value || s[i].value - s[j].value >= 1.0 || s[j].value - s[i].value >= 1.0
    {
      SignOfCut(s[i].value, s[j].value, outside);
    }
    if HasSign(f, s) {
      forall i, j | 0 <= i < |s| && 0 <= j < |s| && s[i].value < s[j].value
        ensures s[j].value - s[i].value >= 1.0
      {
        assert SignIs(f, s[i], s[j]);
      }
    }
  }

  /** Then it is a total preorder on them. */
  lemma SignIsPreorder(f: Comparison<Number>, s: seq<Number>)
    requires NoUndefined(s) && HasSign(f, s)
    ensures TotalPreorder(f, s)
  {
    forall x, y | x in s && y in s
      ensures SignIs(f, x, y)
    {
      var i :| 0 <= i < |s| && s[i] == x;
      var j :| 0 <= j < |s| && s[j] == y;
      assert SignIs(f, s[i], s[j]);
    }
  }

  predicate Ascending(s: seq<Number>)
    requires NoUndefined(s)
  {
    forall i, j :: 0 <= i < j < |s| ==> s[i].value <= s[j].value
  }

  /** What a sort by difference leaves of numbers that are one apart is ascending. */
  lemma SortedAscending(before: seq<Number>, after: seq<Number>, threw: bool, outside: int)
    requires Close(before) && Apart(before) && SortedFrom(ByDifference(outside), before, after, threw)
    ensures !threw && NoUndefined(after) && Ascending(after)
  {
    var f := ByDifference(outside);
    hide TotalPreorder, SameClasses;
    HasSignIffApart(before, outside);
    SignIsPreorder(f, before);
    SameMembers(f, before, after);
    forall i | 0 <= i < |after|
      ensures after[i].Item?
    {
      assert after[i] in before;
    }
    forall i, j | 0 <= i < j < |after|
      ensures after[i].value <= after[j].value
    {
      assert Leq(f, after[i], after[j]);
      assert after[i] in before && after[j] in before;
      var k :| 0 <= k < |before| && before[k] == after[i];
      var l :| 0 <= l < |before| && before[l] == after[j];
      assert SignIs(f, before[k], before[l]);
    }
  }

  /** Any two of the numbers differ by less than one. */
  predicate Crowded(s: seq<Number>) {
    NoUndefined(s) && forall i, j :: 0 <= i < |s| && 0 <= j < |s| ==> -1.0 < s[i].value - s[j].value < 1.0
  }

  ghost predicate AllEqual<T(!new)>(f: Comparison<T>, s: seq<T>) {
    forall x, y :: x in s && y in s ==> f(x, y) == Order(0)
  }

  lemma EqualsStay<T(!new)>(f: Comparison<T>, before: seq<T>, after: seq<T>, threw: bool)
    requires AllEqual(f, before) && SortedFrom(f, before, after, threw)
    ensures after == before
  {
    assert TotalPreorder(f, before) && Sorted(f, before);
    StableSortingUnique(f, before, after);
  }

  lemma SmallIsCutAway(d: real, outside: int)
    requires -1.0 < d < 1.0
    ensures Cut(d, outside) == 0
  {
    TruncIs(d);
  }

  /** Numbers less than one apart all compare as equal, so a sort leaves them in whatever order. */
  lemma CrowdedStay(outside: int, before: seq<Number>, after: seq<Number>, threw: bool)
    requires Crowded(before) && SortedFrom(ByDifference(outside), before, after, threw)
    ensures after == before
  {
    hide Cut, SortedFrom;
    var f := ByDifference(outside);
    forall x, y | x in before && y in before
      ensures f(x, y) == Order(0)
    {
      var i :| 0 <= i < |before| && before[i] == x;
      var j :| 0 <= j < |before| && before[j] == y;
      SmallIsCutAway(before[i].value - before[j].value, outside);
    }
    EqualsStay(f, before, after, threw);
  }

  /** 0.9 stays in front of 0.1. */
  lemma FractionsStay(outside: int, after: seq<Number>, threw: bool)
    requires SortedFrom(ByDifference(outside), [Item(0.9), Item(0.1)], after, threw)
    ensures after == [Item(0.9), Item(0.1)] && !Ascending(after)
  {
    hide SortedFrom;
    CrowdedStay(outside, [Item(0.9), Item(0.1)], after, threw);
    assert after[0].value > after[1].value;
  }

  /** With three numbers the order is lost: a is no greater than b, b than c, but a than c. */
  lemma FractionsAreNoPreorder(outside: int)
    ensures !TotalPreorder(ByDifference(outside), [Item(0.0), Item(0.9), Item(1.8)])
  {
    var f: Comparison<Number>, s: seq<Number> := ByDifference(outside), [Item(0.0), Item(0.9), Item(1.8)];
    assert s[0] in s && s[1] in s && s[2] in s;
    assert Leq(f, s[2], s[1]) && Leq(f, s[1], s[0]) && !Leq(f, s[2], s[0]);
  }

  /** A difference that no int holds, where the cast gives the least int, as it often does. */
  lemma FarNumbersAreNoPreorder()
    ensures !TotalPreorder(ByDifference(-0x8000_0000), [Item(2147483647.0), Item(-1.0)])
  {
    var f: Comparison<Number>, s: seq<Number> := ByDifference(-0x8000_0000), [Item(2147483647.0), Item(-1.0)];
    assert s[0] in s && s[1] in s;
    assert f(s[0], s[1]).cmp < 0 && f(s[1], s[0]).cmp < 0;
  }
}
