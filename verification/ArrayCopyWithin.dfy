/** Array.prototype.copyWithin: copying a stretch of an array over another one in place. */
module ArrayCopyWithin {
  import opened Wrappers
  import opened JsArrays

  /** The stretch of a saved copy, laid over the array at another place. */
  function Overlaid<T>(s: seq<T>, to: nat, from: nat, count: nat): (r: seq<T>)
    requires to + count <= |s| && from + count <= |s|
    ensures |r| == |s|
  {
    s[..to] + s[from..from + count] + s[to + count..]
  }

  function OrZero(position: Option<int>): int {
    if position.Some? then position.value else 0
  }

  /** How many slots are copied: what lies between start and end, as far as there is room. */
  function CopyCount(target: Option<int>, start: Option<int>, end: Option<int>, length: nat): (n: nat)
    ensures n > 0 ==> Relative(OrZero(target), length) + n <= length
    ensures n > 0 ==> Relative(OrZero(start), length) + n <= length
  {
    var to, from := Relative(OrZero(target), length), Relative(OrZero(start), length);
    var final := if end.Some? then Relative(end.value, length) else length;
    var count := if final - from <= length - to then final - from else length - to;
    if count < 0 then 0 else count
  }

  /** The result that section 23.1.3.4 of ECMA-262 (13th edition) asks for. */
  function CopiedWithin<T>(s: seq<T>, target: Option<int>, start: Option<int>, end: Option<int>): (r: seq<T>)
    ensures |r| == |s|
  {
    var count := CopyCount(target, start, end, |s|);
    if count == 0 then s else Overlaid(s, Relative(OrZero(target), |s|), Relative(OrZero(start), |s|), count)
  }

  /** The positions as the code computes them; with nothing to copy they may lie outside the array. */
  method Positions(argTarget: Option<int>, argStart: Option<int>, argEnd: Option<int>, length: nat)
    returns (target: nat, start: nat, count: nat)
    ensures count == CopyCount(argTarget, argStart, argEnd, length)
    ensures count > 0 ==> target == Relative(OrZero(argTarget), length) && start == Relative(OrZero(argStart), length)
  {
    target := FromEnd(argTarget, length);
    start := FromEnd(argStart, length);
    var end: int := length;
    if argEnd.Some? {
      end := argEnd.value;
      if end < 0 {
        end := length + end;
      }
      if end > length {
        end := length;
      }
    }
    var n: int := end - start;
    if n > length - target {
      n := length - target;
    }
    if n < 0 {
      n := 0;
    }
    count := n;
  }

  /** A target or a start; one behind the end of the array stays there. */
  method FromEnd(position: Option<int>, length: nat) returns (r: nat)
    ensures r == if OrZero(position) > length then OrZero(position) else Relative(OrZero(position), length)
  {
    var p: int := 0;
    if position.Some? {
      p := position.value;
      if p < 0 {
        p := length + p;
      }
      if p < 0 {
        p := 0;
      }
    }
    r := p;
  }

  /** The loop that runs from the last slot to the first. */
  method CopyBackwards<T>(a: JsArray<T>, target: nat, start: nat, count: nat)
    requires a.Valid() && target + count <= a.length && start + count <= a.length && target > start
    modifies a
    ensures a.Valid() && a.Contents() == Overlaid(old(a.Contents()), target, start, count)
  {
    hide Overlaid;
    ghost var was := a.elements;
    OverlaidNothing(was, target + count, start + count);
    for i := count downto 0
      invariant a.Valid() && a.length == old(a.length)
      invariant a.elements == Overlaid(was, target + i, start + i, count - i)
    {
      OverlaidBefore(was, target + i, start + i, count - i - 1);
      a.Set(target + i, a.Get(start + i));
    }
    OverlaidPart(was, a.length, target, start, count);
  }

  /** The loop that runs from the first slot to the last. */
  method CopyForwards<T>(a: JsArray<T>, target: nat, start: nat, count: nat)
    requires a.Valid() && target + count <= a.length && start + count <= a.length && target <= start
    modifies a
    ensures a.Valid() && a.Contents() == Overlaid(old(a.Contents()), target, start, count)
  {
    hide Overlaid;
    ghost var was := a.elements;
    OverlaidNothing(was, target, start);
    for i := 0 to count
      invariant a.Valid() && a.length == old(a.length)
      invariant a.elements == Overlaid(was, target, start, i)
    {
      OverlaidBehind(was, target, start, i);
      a.Set(target + i, a.Get(start + i));
    }
    OverlaidPart(was, a.length, target, start, count);
  }

  lemma OverlaidNothing<T>(s: seq<T>, to: nat, from: nat)
    requires to <= |s| && from <= |s|
    ensures Overlaid(s, to, from, 0) == s
  {
  }

  /** One slot more behind the stretch; the source has not been overwritten there. */
  lemma OverlaidBehind<T>(s: seq<T>, to: nat, from: nat, n: nat)
    requires to <= from && from + n < |s|
    ensures Overlaid(s, to, from, n)[from + n] == s[from + n]
    ensures Overlaid(s, to, from, n + 1) == Overlaid(s, to, from, n)[to + n := s[from + n]]
  {
  }

  /** One slot more in front of the stretch; the source has not been overwritten there. */
  lemma OverlaidBefore<T>(s: seq<T>, to: nat, from: nat, n: nat)
    requires from < to && to + 1 + n <= |s|
    ensures Overlaid(s, to + 1, from + 1, n)[from] == s[from]
    ensures Overlaid(s, to, from, n + 1) == Overlaid(s, to + 1, from + 1, n)[to := s[from]]
  {
  }

  lemma OverlaidPart<T>(s: seq<T>, length: nat, to: nat, from: nat, n: nat)
    requires length <= |s| && to + n <= length && from + n <= length
    ensures Overlaid(s, to, from, n)[..length] == Overlaid(s[..length], to, from, n)
  {
  }

  /** `js_array_proto_copy_within`: whatever overlaps, as if the source had been saved first. */
  method CopyWithin<T>(a: JsArray<T>, argTarget: Option<int>, argStart: Option<int>, argEnd: Option<int>)
    requires a.Valid()
    modifies a
    ensures a.Valid() && a.Contents() == CopiedWithin(old(a.Contents()), argTarget, argStart, argEnd)
  {
    var target, start, count := Positions(argTarget, argStart, argEnd, a.length);
    if count > 0 {
      if target > start {
        CopyBackwards(a, target, start, count);
      } else {
        CopyForwards(a, target, start, count);
      }
    }
  }
}
