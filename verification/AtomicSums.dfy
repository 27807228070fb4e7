/**
 Conservation: what add and sub leave in an element, over any sequential order and over any run.
 */
module AtomicSums {
  import opened Wrappers
  import opened AtomicElements
  import opened AtomicMachine
  import opened AtomicRuns

  // ---- Conservation -------------------------------------------------------------------

  /** The call adds to or subtracts from exactly this element, or does not touch it. */
  predicate OnlyAdds(c: Call, bi: nat, esize: nat) {
    || (c.bi == bi && c.esize == esize && (c.op == Add || c.op == Sub))
    || c.bi + c.esize <= bi
    || bi + esize <= c.bi
  }

  function Minus(x: bv32, y: bv32): bv32 {
    x - y
  }

  /** What a call adds to an element, modulo 2^32. */
  function Signed(c: Call, bi: nat, esize: nat): bv32 {
    if c.bi != bi || c.esize != esize then 0
    else if c.op == Add then c.v
    else Minus(0, c.v)
  }

  /** The signed sum of the operands of calls that took effect. */
  function Total(events: seq<Event>, bi: nat, esize: nat): bv32 {
    if events == [] then 0
    else Plus(Total(events[..|events| - 1], bi, esize), Signed(events[|events| - 1].call, bi, esize))
  }

  lemma PlusDef(a: bv32, b: bv32)
    ensures Plus(a, b) == a + b
    ensures Minus(a, b) == a - b
  {
  }

  lemma PlusRegroup(a: bv32, b: bv32, c: bv32)
    ensures Plus(a, b + c) == Plus(a + b, c)
    ensures Plus(a, b - c) == Minus(a + b, c)
  {
  }

  lemma PlusAssociates(a: bv32, b: bv32, c: bv32)
    ensures Plus(a, Plus(b, c)) == Plus(Plus(a, b), c)
    ensures Plus(a, Minus(b, c)) == Minus(Plus(a, b), c)
  {
    hide *;
    PlusDef(a, b);
    PlusDef(b, c);
    PlusRegroup(a, b, c);
  }

  lemma NegatedIsMinus(a: bv32, b: bv32)
    ensures a + (0 - b) == a - b
  {
  }

  lemma MinusIsPlus(a: bv32, b: bv32)
    ensures Minus(a, b) == Plus(a, Minus(0, b))
  {
    hide *;
    PlusDef(a, b);
    PlusDef(0, b);
    PlusDef(a, 0 - b);
    NegatedIsMinus(a, b);
  }

  lemma ByteSums(x: bv32, y: bv32)
    ensures BitAnd(x, 0xFF) == x & 0xFF
    ensures BitAnd((x & 0xFF) + (y & 0xFF), 0xFF) == BitAnd(x + y, 0xFF)
    ensures BitAnd((x & 0xFF) - (y & 0xFF), 0xFF) == BitAnd(x - y, 0xFF)
  {
  }

  lemma HalfSums(x: bv32, y: bv32)
    ensures BitAnd(x, 0xFFFF) == x & 0xFFFF
    ensures BitAnd((x & 0xFFFF) + (y & 0xFFFF), 0xFFFF) == BitAnd(x + y, 0xFFFF)
    ensures BitAnd((x & 0xFFFF) - (y & 0xFFFF), 0xFFFF) == BitAnd(x - y, 0xFFFF)
  {
  }

  lemma ByteModulo(x: bv32, y: bv32)
    ensures BitAnd(Plus(BitAnd(x, 0xFF), BitAnd(y, 0xFF)), 0xFF) == BitAnd(Plus(x, y), 0xFF)
    ensures BitAnd(Minus(BitAnd(x, 0xFF), BitAnd(y, 0xFF)), 0xFF) == BitAnd(Minus(x, y), 0xFF)
  {
    hide *;
    ByteSums(x, y);
    ByteSums(y, x);
    PlusDef(x, y);
    PlusDef(x & 0xFF, y & 0xFF);
  }

  lemma HalfModulo(x: bv32, y: bv32)
    ensures BitAnd(Plus(BitAnd(x, 0xFFFF), BitAnd(y, 0xFFFF)), 0xFFFF) == BitAnd(Plus(x, y), 0xFFFF)
    ensures BitAnd(Minus(BitAnd(x, 0xFFFF), BitAnd(y, 0xFFFF)), 0xFFFF) == BitAnd(Minus(x, y), 0xFFFF)
  {
    hide *;
    HalfSums(x, y);
    HalfSums(y, x);
    PlusDef(x, y);
    PlusDef(x & 0xFFFF, y & 0xFFFF);
  }

  /** Element arithmetic is arithmetic modulo 2^8, 2^16 or 2^32. */
  lemma TruncateIsModular(x: bv32, y: bv32, esize: nat)
    requires ElementSize(esize)
    ensures Truncate(Plus(Truncate(x, esize), Truncate(y, esize)), esize) == Truncate(Plus(x, y), esize)
    ensures Truncate(Minus(Truncate(x, esize), Truncate(y, esize)), esize) == Truncate(Minus(x, y), esize)
  {
    hide BitAnd, Plus, Minus;
    ByteModulo(x, y);
    HalfModulo(x, y);
    FullWidth(x);
    FullWidth(y);
  }

  lemma AddAndSubApplyOp(cur: bv32, v: bv32, e: bv32)
    ensures ApplyOp(Add, cur, v, e) == (Plus(cur, v), true)
    ensures ApplyOp(Sub, cur, v, e) == (Minus(cur, v), true)
  {
  }

  lemma LoadedIsTruncated(mem: Memory, bi: nat, esize: nat)
    requires ElementSize(esize) && bi + esize <= |mem|
    ensures Truncate(LoadElement(mem, bi, esize), esize) == LoadElement(mem, bi, esize)
  {
    hide Compose, Truncate, BitAnd;
    if esize == 1 {
      ByteOfWord(Compose(mem[bi], 0, 0, 0));
      BytesOfWord(mem[bi], 0, 0, 0);
    } else if esize == 2 {
      HalfOfWord(Compose(mem[bi], mem[bi + 1], 0, 0));
      BytesOfWord(mem[bi], mem[bi + 1], 0, 0);
    } else {
      FullWidth(LoadElement(mem, bi, esize));
    }
  }

  /** One call on the element adds its operand; a call elsewhere leaves the element alone. */
  lemma OneCallAdds(mem: Memory, c: Call, bi: nat, esize: nat, a: bv32, total: bv32)
    requires InBounds(mem, c) && ElementSize(esize) && bi + esize <= |mem| && OnlyAdds(c, bi, esize)
    requires LoadElement(mem, bi, esize) == Truncate(Plus(a, total), esize)
    ensures var after := LoadElement(Apply(mem, c).0, bi, esize);
            after == Truncate(Plus(a, Plus(total, Signed(c, bi, esize))), esize)
  {
    hide Compose, StoreElement, ApplyOp, Truncate, Plus, Minus;
    var cur, v := LoadElement(mem, bi, esize), Truncate(c.v, esize);
    if c.bi == bi && c.esize == esize {
      AddAndSubApplyOp(cur, v, Truncate(c.e, esize));
      TruncateIsModular(Plus(a, total), c.v, esize);
      PlusAssociates(a, total, c.v);
      MinusIsPlus(total, c.v);
      var x := Truncate(ApplyOp(c.op, cur, v, Truncate(c.e, esize)).0, esize);
      TruncateTwice(ApplyOp(c.op, cur, v, Truncate(c.e, esize)).0, esize);
      StoreThenLoad(mem, bi, esize, x);
    } else {
      PlusZero(total);
    }
  }

  /** Conservation along a sequential order, and every old value is a partial sum. */
  lemma {:induction false} SumsAreConserved(mem: Memory, events: seq<Event>, bi: nat, esize: nat)
    requires ElementSize(esize) && bi + esize <= |mem|
    requires AllInBounds(mem, events) && ResultsMatch(mem, events)
    requires forall i :: 0 <= i < |events| ==> OnlyAdds(events[i].call, bi, esize)
    ensures var a := LoadElement(mem, bi, esize);
            && LoadElement(Replay(mem, events), bi, esize) == Truncate(Plus(a, Total(events, bi, esize)), esize)
            && forall i :: 0 <= i < |events| && events[i].call.bi == bi && events[i].call.esize == esize ==>
                 events[i].result == Truncate(Plus(a, Total(events[..i], bi, esize)), esize)
  {
    hide LoadElement, Truncate, Plus, Minus, ApplyOp, StoreElement;
    var a := LoadElement(mem, bi, esize);
    if events == [] {
      LoadedIsTruncated(mem, bi, esize);
      PlusZero(a);
    } else {
      var n := |events| - 1;
      var before, c := events[..n], events[n].call;
      SumsAreConserved(mem, before, bi, esize);
      OneCallAdds(Replay(mem, before), c, bi, esize, a, Total(before, bi, esize));
      forall i | 0 <= i < |events| && events[i].call.bi == bi && events[i].call.esize == esize
        ensures events[i].result == Truncate(Plus(a, Total(events[..i], bi, esize)), esize)
      {
        if i < n {
          assert before[i] == events[i] && before[..i] == events[..i];
        }
      }
    }
  }

  lemma PlusZero(a: bv32)
    ensures Plus(a, 0) == a
  {
  }

  // ---- Conservation over runs ----------------------------------------------------------

  /** The signed sum of the operands of all calls begun in the first `k` steps. */
  ghost function Begun(r: Run, k: nat, bi: nat, esize: nat): bv32
    requires k <= |r.labels|
  {
    if k == 0 then 0 else Plus(Begun(r, k - 1, bi, esize), BegunBy(r.labels[k - 1], bi, esize))
  }

  function BegunBy(l: Label, bi: nat, esize: nat): bv32 {
    if l.Invoke? then Signed(l.call, bi, esize) else 0
  }

  /** What a thread still has to add. */
  function Share(th: Thread, bi: nat, esize: nat): bv32 {
    if th.Busy? && !th.pc.Finished? then Signed(th.call, bi, esize) else 0
  }

  function Unfinished(threads: seq<Thread>, bi: nat, esize: nat): bv32 {
    if threads == [] then 0
    else Plus(Unfinished(threads[..|threads| - 1], bi, esize), Share(threads[|threads| - 1], bi, esize))
  }

  function EffectShare(s: State, l: Label, bi: nat, esize: nat): bv32
    requires Enabled(s, l)
  {
    if Effect(s, l).Some? then Signed(Effect(s, l).value.call, bi, esize) else 0
  }

  lemma PlusCommutes(a: bv32, b: bv32)
    ensures Plus(a, b) == Plus(b, a)
  {
  }

  lemma PlusSwap(a: bv32, b: bv32, c: bv32)
    ensures Plus(Plus(a, b), c) == Plus(Plus(a, c), b)
  {
    hide Plus;
    PlusAssociates(a, b, c);
    PlusAssociates(a, c, b);
    PlusCommutes(b, c);
  }

  /** Replacing one thread replaces its share. */
  lemma {:induction false} ThreadReplaced(threads: seq<Thread>, t: nat, th: Thread, bi: nat, esize: nat)
    requires t < |threads|
    ensures Plus(Unfinished(threads[t := th], bi, esize), Share(threads[t], bi, esize))
         == Plus(Unfinished(threads, bi, esize), Share(th, bi, esize))
    decreases |threads|
  {
    hide Plus, Share;
    var n := |threads| - 1;
    var front, after := threads[..n], threads[t := th];
    if t == n {
      assert after[..n] == front;
      PlusSwap(Unfinished(front, bi, esize), Share(th, bi, esize), Share(threads[t], bi, esize));
    } else {
      ThreadReplaced(front, t, th, bi, esize);
      assert after[..n] == front[t := th];
      var u, u' := Unfinished(front, bi, esize), Unfinished(front[t := th], bi, esize);
      var last := Share(threads[n], bi, esize);
      PlusSwap(u', last, Share(threads[t], bi, esize));
      PlusSwap(u, last, Share(th, bi, esize));
    }
  }

  lemma AddedAndTaken(u: bv32, x: bv32)
    ensures Minus(Plus(u, x), x) == u
  {
    hide Plus, Minus;
    PlusAssociates(u, x, x);
    MinusSelf(x);
    PlusZero(u);
  }

  lemma MinusSelf(x: bv32)
    ensures Minus(x, x) == 0
  {
  }

  /** What a step begins or finishes is what changes in the unfinished sum. */
  lemma SharesOfStep(s: State, l: Label, bi: nat, esize: nat)
    requires Inv(s) && Enabled(s, l)
    ensures Plus(Unfinished(After(s, l).threads, bi, esize), EffectShare(s, l, bi, esize))
         == Plus(Unfinished(s.threads, bi, esize), BegunBy(l, bi, esize))
  {
    hide Plus, Minus, Signed, Step, Unfinished;
    match l
    case Spawn =>
    case Invoke(t, c) => ThreadReplaced(s.threads, t, Busy(c, Start), bi, esize);
    case Return(t) => ThreadReplaced(s.threads, t, Idle, bi, esize);
    case Act(t) =>
      OwnStep(s, t);
      var th := After(s, l).threads[t];
      assert After(s, l).threads == s.threads[t := th];
      ThreadReplaced(s.threads, t, th, bi, esize);
      AddedAndTaken(Unfinished(s.threads, bi, esize), Signed(th.call, bi, esize));
      AddedAndTaken(Unfinished(After(s, l).threads, bi, esize), Signed(th.call, bi, esize));
      PlusZero(Unfinished(s.threads, bi, esize));
      PlusZero(Unfinished(After(s, l).threads, bi, esize));
  }

  lemma {:induction false} NothingUnfinished(threads: seq<Thread>, bi: nat, esize: nat)
    requires forall t :: 0 <= t < |threads| ==> threads[t].Idle?
    ensures Unfinished(threads, bi, esize) == 0
  {
    if threads != [] {
      NothingUnfinished(threads[..|threads| - 1], bi, esize);
      PlusZero(0);
    }
  }

  lemma SumMoves(t: bv32, u: bv32, i: bv32, e: bv32, u': bv32)
    requires Plus(u', e) == Plus(u, i)
    ensures Plus(Plus(t, u), i) == Plus(Plus(t, e), u')
  {
    hide Plus;
    PlusAssociates(t, u, i);
    PlusAssociates(t, u', e);
    PlusSwap(t, e, u');
  }

  /** Every operand of a call begun has been added, or is still to be added by a running thread. */
  lemma {:induction false} BegunIsAddedOrRunning(r: Run, k: nat, bi: nat, esize: nat, limit: nat)
    requires ValidRun(r) && k <= |r.labels| && bi + esize <= limit
    ensures Begun(r, k, bi, esize)
         == Plus(Total(Order(r, k, limit), bi, esize), Unfinished(r.states[k].threads, bi, esize))
  {
    hide Plus, Step, After, Enabled, Effect, Inv, Unfinished;
    if k == 0 {
      NothingUnfinished(r.states[0].threads, bi, esize);
      PlusZero(0);
    } else {
      var s, l := r.states[k - 1], r.labels[k - 1];
      BegunIsAddedOrRunning(r, k - 1, bi, esize, limit);
      RunInv(r, k - 1);
      SharesOfStep(s, l, bi, esize);
      var before, t := Order(r, k - 1, limit), Total(Order(r, k - 1, limit), bi, esize);
      SumMoves(t, Unfinished(s.threads, bi, esize), BegunBy(l, bi, esize),
               EffectShare(s, l, bi, esize), Unfinished(r.states[k].threads, bi, esize));
      PlusZero(t);
      if Effect(s, l).Some? && Inside(Effect(s, l).value.call, limit) {
        assert (before + [Effect(s, l).value])[..|before|] == before;
      }
    }
  }

  ghost predicate WasInvoked(r: Run, k: nat, ev: Event)
    requires k <= |r.labels|
  {
    exists m :: 0 <= m < k && r.labels[m] == Invoke(ev.t, ev.call)
  }

  lemma {:induction false} EventsWereInvoked(r: Run, k: nat, limit: nat)
    requires ValidRun(r) && k <= |r.labels|
    ensures forall i :: 0 <= i < |Order(r, k, limit)| ==> WasInvoked(r, k, Order(r, k, limit)[i])
  {
    hide Step, Observed, After;
    if k > 0 {
      EventsWereInvoked(r, k - 1, limit);
      var before := Order(r, k - 1, limit);
      forall i | 0 <= i < |Order(r, k, limit)|
        ensures WasInvoked(r, k, Order(r, k, limit)[i])
      {
        if i < |before| {
          assert WasInvoked(r, k - 1, before[i]);
        } else {
          var ev := Effect(r.states[k - 1], r.labels[k - 1]).value;
          RunInv(r, k - 1);
          EveryThreadExplained(r, k - 1, ev.t);
          var m :| Pending(r, m, k - 1, ev.t, ev.call);
        }
      }
    }
  }

  lemma ElementInPart(mem: Memory, bi: nat, esize: nat, limit: nat)
    requires ElementSize(esize) && bi + esize <= limit <= |mem|
    ensures LoadElement(mem[..limit], bi, esize) == LoadElement(mem, bi, esize)
  {
    hide Compose;
  }

  /**
   Conservation over runs: when every call begun in a run either adds to or subtracts from one
   k-bit element in a protected part or does not touch it, then once all calls have returned the
   element is its initial value plus the signed sum of the operands of all calls begun, modulo
   2^k.  At any earlier time the sum is over the calls that took effect, and each of those reports
   the partial sum before it.
   */
  lemma RunConserves(r: Run, bi: nat, esize: nat, limit: nat)
    requires Protected(r, limit) && ElementSize(esize) && bi + esize <= limit
    requires forall k :: 0 <= k < |r.labels| && r.labels[k].Invoke? ==> OnlyAdds(r.labels[k].call, bi, esize)
    ensures var n, a, order := |r.labels|, LoadElement(r.states[0].mem, bi, esize), Order(r, |r.labels|, limit);
            && |r.states[n].mem| == |r.states[0].mem|
            && LoadElement(r.states[n].mem, bi, esize) == Truncate(Plus(a, Total(order, bi, esize)), esize)
            && (forall i :: 0 <= i < |order| && order[i].call.bi == bi && order[i].call.esize == esize ==>
                  order[i].result == Truncate(Plus(a, Total(order[..i], bi, esize)), esize))
            && ((forall t :: 0 <= t < |r.states[n].threads| ==> r.states[n].threads[t].Idle?) ==>
                  LoadElement(r.states[n].mem, bi, esize) == Truncate(Plus(a, Begun(r, n, bi, esize)), esize))
  {
    hide LoadElement, Truncate, Plus, After, Enabled, Effect, Total, Begun, Unfinished;
    var n := |r.labels|;
    OrderExplainsRun(r, n, limit);
    EventsWereInvoked(r, n, limit);
    assert forall i :: 0 <= i < |Order(r, n, limit)| ==> WasInvoked(r, n, Order(r, n, limit)[i]);
    SumsAreConserved(r.states[0].mem[..limit], Order(r, n, limit), bi, esize);
    ElementInPart(r.states[0].mem, bi, esize, limit);
    ElementInPart(r.states[n].mem, bi, esize, limit);
    BegunIsAddedOrRunning(r, n, bi, esize, limit);
    if forall t :: 0 <= t < |r.states[n].threads| ==> r.states[n].threads[t].Idle? {
      NothingUnfinished(r.states[n].threads, bi, esize);
      PlusZero(Total(Order(r, n, limit), bi, esize));
    }
  }
}
