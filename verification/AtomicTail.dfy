/**
 Where Atomics is atomic.  The size that `atomics_cas_apply` compares with is the length of the
 buffer, not the padded length that was allocated, so an element in the last, incomplete word of
 a shared buffer takes the fallback, which reads and writes in separate steps.
 */
module AtomicTail {
  import opened Wrappers
  import opened AtomicElements
  import opened AtomicMachine
  import opened AtomicRuns
  import opened AtomicSums

  /** The code's first condition: the element is aligned and its word lies within the length. */
  predicate WordHolds(length: nat, bi: nat, esize: nat) {
    ElementSize(esize) && Aligned(bi, esize) && WordOffset(bi) + 4 <= length
  }

  /** Some order of the calls on the first `limit` bytes gives their final contents and every result. */
  ghost predicate Explainable(r: Run, limit: nat)
    requires ValidRun(r) && limit <= |r.states[0].mem|
  {
    var first, last := r.states[0].mem[..limit], r.states[|r.labels|].mem;
    exists order :: multiset(order) == multiset(Order(r, |r.labels|, limit))
      && limit <= |last| && AllInBounds(first, order)
      && Replay(first, order) == last[..limit] && ResultsMatch(first, order)
  }

  /** The bytes up to the end of the element's word, or of the buffer if that comes first. */
  function Reach(length: nat, bi: nat): (limit: nat)
    ensures limit <= length
  {
    if WordOffset(bi) + 4 <= length then WordOffset(bi) + 4 else length
  }

  /** Calls on whole words are explained by their order in every run, whatever is done behind them. */
  lemma WholeWordsAreExplainable(r: Run, limit: nat)
    requires ValidRun(r) && limit <= |r.states[0].mem| && limit % 4 == 0
    ensures Explainable(r, limit)
  {
    hide ValidRun, Order, Replay, ResultsMatch;
    WholeWordsAreProtected(r, limit);
    OrderExplainsRun(r, |r.labels|, limit);
  }

  // ---- Outside of every whole word ---------------------------------------------------------

  function Increment(bi: nat, esize: nat): Call {
    Call(bi, esize, Add, 1, 0)
  }

  lemma ByteGrows(x: bv32)
    ensures BitAnd(Plus(BitAnd(x, 0xFF), 1), 0xFF) != BitAnd(x, 0xFF)
  {
  }

  lemma HalfGrows(x: bv32)
    ensures BitAnd(Plus(BitAnd(x, 0xFFFF), 1), 0xFFFF) != BitAnd(x, 0xFFFF)
  {
  }

  lemma WordGrows(x: bv32)
    ensures Plus(x, 1) != x
  {
  }

  lemma OneIsOne(esize: nat)
    requires ElementSize(esize)
    ensures Truncate(1, esize) == 1
  {
  }

  lemma IncrementIs(cur: bv32, bi: nat, esize: nat)
    requires ElementSize(esize)
    ensures NewElement(Increment(bi, esize), cur) == (Truncate(Plus(cur, 1), esize), true)
  {
    hide Truncate, ApplyOp, Plus;
    OneIsOne(esize);
    AddAndSubApplyOp(cur, 1, Truncate(0, esize));
  }

  /** Adding one always changes an element. */
  lemma IncrementGrows(mem: Memory, bi: nat, esize: nat)
    requires ElementSize(esize) && bi + esize <= |mem|
    ensures Truncate(Plus(LoadElement(mem, bi, esize), 1), esize) != LoadElement(mem, bi, esize)
  {
    hide LoadElement, BitAnd, Plus;
    var cur := LoadElement(mem, bi, esize);
    LoadedIsTruncated(mem, bi, esize);
    ByteGrows(cur);
    HalfGrows(cur);
    WordGrows(cur);
    FullWidth(Plus(cur, 1));
  }

  /** Two threads add one; both read before either writes. */
  function LostStates(mem: Memory, bi: nat, esize: nat): seq<State>
    requires ElementSize(esize) && bi + esize <= |mem|
  {
    var c, cur := Increment(bi, esize), LoadElement(mem, bi, esize);
    var mem' := StoreElement(mem, bi, esize, NewElement(c, cur).0);
    var begun, read, done := Busy(c, Start), Busy(c, ByteStore(cur)), Busy(c, Finished(cur));
    [State(mem, [Idle, Idle], false, false),
     State(mem, [Idle, Idle], true, false),
     State(mem, [begun, Idle], true, false),
     State(mem, [begun, begun], true, false),
     State(mem, [read, begun], true, false),
     State(mem, [read, read], true, false),
     State(mem', [done, read], true, false),
     State(mem', [done, done], true, false),
     State(mem', [Idle, done], true, false),
     State(mem', [Idle, Idle], true, false)]
  }

  function LostLabels(bi: nat, esize: nat): seq<Label> {
    var c := Increment(bi, esize);
    [Spawn, Invoke(0, c), Invoke(1, c), Act(0), Act(1), Act(0), Act(1), Return(0), Return(1)]
  }

  function LostRun(mem: Memory, bi: nat, esize: nat): Run
    requires ElementSize(esize) && bi + esize <= |mem|
  {
    Run(LostStates(mem, bi, esize), LostLabels(bi, esize))
  }

  lemma StoreTwice(mem: Memory, bi: nat, esize: nat, x: bv32)
    requires ElementSize(esize) && bi + esize <= |mem|
    ensures StoreElement(StoreElement(mem, bi, esize, x), bi, esize, x) == StoreElement(mem, bi, esize, x)
  {
    hide ElementBytes;
  }

  /** The read and the write of the fallback, as steps of the machine. */
  lemma FallbackSteps(s: State, t: nat, bi: nat, esize: nat)
    requires InBounds(s.mem, Increment(bi, esize)) && !WordHolds(|s.mem|, bi, esize)
    requires t < |s.threads| && s.threads[t].Busy? && s.threads[t].call == Increment(bi, esize)
    requires s.threads[t].pc.Start? || s.threads[t].pc.ByteStore?
    ensures Enabled(s, Act(t))
    ensures var c, cur := Increment(bi, esize), LoadElement(s.mem, bi, esize);
      s.threads[t].pc == Start ==>
        After(s, Act(t)) == s.(threads := s.threads[t := Busy(c, ByteStore(cur))]) && Effect(s, Act(t)) == None
    ensures s.threads[t].pc.ByteStore? ==>
      var c, cur := Increment(bi, esize), s.threads[t].pc.cur;
        && After(s, Act(t)) == s.(mem := StoreElement(s.mem, bi, esize, NewElement(c, cur).0),
                                  threads := s.threads[t := Busy(c, Finished(cur))])
        && Effect(s, Act(t)) == Some(Event(t, c, cur))
  {
    hide StoreElement, LoadElement, Truncate, WordOffset, ApplyOp;
    IncrementIs(LoadElement(s.mem, bi, esize), bi, esize);
  }

  /** The effect of every step of the run. */
  function LostEffect(mem: Memory, bi: nat, esize: nat, k: nat): Option<Event>
    requires ElementSize(esize) && bi + esize <= |mem|
  {
    var c, cur := Increment(bi, esize), LoadElement(mem, bi, esize);
    if k == 5 then Some(Event(0, c, cur)) else if k == 6 then Some(Event(1, c, cur)) else None
  }

  ghost predicate LostStepIs(mem: Memory, bi: nat, esize: nat, k: nat)
    requires ElementSize(esize) && bi + esize <= |mem| && k < 9
  {
    var r := LostRun(mem, bi, esize);
    Enabled(r.states[k], r.labels[k])
    && r.states[k + 1] == After(r.states[k], r.labels[k])
    && Effect(r.states[k], r.labels[k]) == LostEffect(mem, bi, esize, k)
  }

  lemma OuterStep(mem: Memory, bi: nat, esize: nat, k: nat)
    requires ElementSize(esize) && Aligned(bi, esize) && bi + esize <= |mem| && (k < 3 || 7 <= k < 9)
    ensures LostStepIs(mem, bi, esize, k)
  {
    hide StoreElement, LoadElement, NewElement, Step;
  }

  lemma ReadFirst(mem: Memory, bi: nat, esize: nat)
    requires ElementSize(esize) && bi + esize <= |mem| && !WordHolds(|mem|, bi, esize)
    ensures LostStepIs(mem, bi, esize, 3)
  {
    hide StoreElement, LoadElement, NewElement, Enabled, After, Effect, WordHolds;
    var c, cur := Increment(bi, esize), LoadElement(mem, bi, esize);
    FallbackSteps(State(mem, [Busy(c, Start), Busy(c, Start)], true, false), 0, bi, esize);
  }

  lemma ReadSecond(mem: Memory, bi: nat, esize: nat)
    requires ElementSize(esize) && bi + esize <= |mem| && !WordHolds(|mem|, bi, esize)
    ensures LostStepIs(mem, bi, esize, 4)
  {
    hide StoreElement, LoadElement, NewElement, Enabled, After, Effect, WordHolds;
    var c, cur := Increment(bi, esize), LoadElement(mem, bi, esize);
    FallbackSteps(State(mem, [Busy(c, ByteStore(cur)), Busy(c, Start)], true, false), 1, bi, esize);
  }

  lemma WriteFirst(mem: Memory, bi: nat, esize: nat)
    requires ElementSize(esize) && bi + esize <= |mem| && !WordHolds(|mem|, bi, esize)
    ensures LostStepIs(mem, bi, esize, 5)
  {
    hide StoreElement, LoadElement, NewElement, Enabled, After, Effect, WordHolds;
    var c, cur := Increment(bi, esize), LoadElement(mem, bi, esize);
    FallbackSteps(State(mem, [Busy(c, ByteStore(cur)), Busy(c, ByteStore(cur))], true, false), 0, bi, esize);
  }

  lemma WriteSecond(mem: Memory, bi: nat, esize: nat)
    requires ElementSize(esize) && bi + esize <= |mem| && !WordHolds(|mem|, bi, esize)
    ensures LostStepIs(mem, bi, esize, 6)
  {
    hide StoreElement, LoadElement, NewElement, Enabled, After, Effect, WordHolds;
    var c, cur := Increment(bi, esize), LoadElement(mem, bi, esize);
    var x := NewElement(c, cur).0;
    var mem' := StoreElement(mem, bi, esize, x);
    StoreTwice(mem, bi, esize, x);
    FallbackSteps(State(mem', [Busy(c, Finished(cur)), Busy(c, ByteStore(cur))], true, false), 1, bi, esize);
  }

  lemma LostRunIsRun(mem: Memory, bi: nat, esize: nat)
    requires ElementSize(esize) && Aligned(bi, esize) && bi + esize <= |mem| && !WordHolds(|mem|, bi, esize)
    ensures ValidRun(LostRun(mem, bi, esize))
    ensures forall k :: 0 <= k < 9 ==> LostStepIs(mem, bi, esize, k)
  {
    hide LostStepIs;
    ReadFirst(mem, bi, esize);
    ReadSecond(mem, bi, esize);
    WriteFirst(mem, bi, esize);
    WriteSecond(mem, bi, esize);
    forall k | 0 <= k < 9
      ensures LostStepIs(mem, bi, esize, k)
    {
      if k < 3 || k >= 7 {
        OuterStep(mem, bi, esize, k);
      }
    }
    LostRunIsValid(mem, bi, esize);
  }

  lemma LostRunIsValid(mem: Memory, bi: nat, esize: nat)
    requires ElementSize(esize) && bi + esize <= |mem|
    requires forall k :: 0 <= k < 9 ==> LostStepIs(mem, bi, esize, k)
    ensures ValidRun(LostRun(mem, bi, esize))
  {
    hide StoreElement, LoadElement, NewElement, Enabled, After, Effect;
    var r := LostRun(mem, bi, esize);
    forall k | 0 <= k < |r.labels|
      ensures Enabled(r.states[k], r.labels[k]) && r.states[k + 1] == After(r.states[k], r.labels[k])
    {
      assert LostStepIs(mem, bi, esize, k);
    }
  }

  lemma {:induction false} LostOrder(mem: Memory, bi: nat, esize: nat, k: nat)
    requires ElementSize(esize) && Aligned(bi, esize) && bi + esize <= |mem| && !WordHolds(|mem|, bi, esize) && k <= 9
    ensures var c, cur, r := Increment(bi, esize), LoadElement(mem, bi, esize), LostRun(mem, bi, esize);
      && ValidRun(r)
      && Order(r, k, |mem|) == (if k > 5 then [Event(0, c, cur)] else []) + (if k > 6 then [Event(1, c, cur)] else [])
  {
    hide LoadElement, LostRun, Enabled, After, Effect, WordHolds, Aligned;
    LostRunIsRun(mem, bi, esize);
    if k > 0 {
      LostOrder(mem, bi, esize, k - 1);
      assert LostStepIs(mem, bi, esize, k - 1);
    }
  }

  lemma TwoOf(order: seq<Event>, e0: Event, e1: Event)
    requires multiset(order) == multiset([e0, e1])
    ensures |order| == 2 && order[0] in {e0, e1} && order[1] in {e0, e1}
  {
    assert |multiset(order)| == |order|;
    assert order[0] in multiset([e0, e1]) && order[1] in multiset([e0, e1]);
  }

  /** After one increment a second one cannot have seen the old value. */
  lemma NotTwice(mem: Memory, bi: nat, esize: nat, order: seq<Event>)
    requires ElementSize(esize) && bi + esize <= |mem| && |order| == 2
    requires forall i :: 0 <= i < 2 ==>
      order[i].call == Increment(bi, esize) && order[i].result == LoadElement(mem, bi, esize)
    ensures AllInBounds(mem, order) && !ResultsMatch(mem, order)
  {
    hide LoadElement, StoreElement, Truncate, ApplyOp, Plus;
    var c, cur := Increment(bi, esize), LoadElement(mem, bi, esize);
    IncrementIs(cur, bi, esize);
    IncrementGrows(mem, bi, esize);
    TruncateTwice(Plus(cur, 1), esize);
    StoreThenLoad(mem, bi, esize, Truncate(Plus(cur, 1), esize));
    assert order[..1] == [order[0]] && order[..1][..0] == [];
    assert Replay(mem, order[..1]) == Apply(mem, c).0;
  }

  /** An update is lost: two completed additions that no order explains. */
  lemma UpdateIsLost(mem: Memory, bi: nat, esize: nat)
    requires ElementSize(esize) && Aligned(bi, esize) && bi + esize <= |mem| && !WordHolds(|mem|, bi, esize)
    ensures var r := LostRun(mem, bi, esize);
      ValidRun(r) && r.states[0].mem == mem && !Explainable(r, |mem|)
  {
    hide LoadElement, LostStates, Enabled, After, WordHolds, ResultsMatch, Aligned;
    LostRunIsRun(mem, bi, esize);
    LostOrder(mem, bi, esize, 9);
    LostStart(mem, bi, esize);
    assert mem[..|mem|] == mem;
    var r, c, cur := LostRun(mem, bi, esize), Increment(bi, esize), LoadElement(mem, bi, esize);
    forall order | multiset(order) == multiset(Order(r, 9, |mem|)) && AllInBounds(mem, order)
      ensures !ResultsMatch(mem, order)
    {
      TwoOf(order, Event(0, c, cur), Event(1, c, cur));
      NotTwice(mem, bi, esize, order);
    }
  }

  lemma LostStart(mem: Memory, bi: nat, esize: nat)
    requires ElementSize(esize) && bi + esize <= |mem|
    ensures LostRun(mem, bi, esize).states[0].mem == mem
  {
  }

  /**
   In all runs, with any calls of any threads on any aligned elements, the calls up to and on the
   word of an element are explained by an order, exactly when that whole word lies within the length
   of the buffer.
   */
  lemma AtomicIffWordHolds(mem: Memory, bi: nat, esize: nat)
    requires ElementSize(esize) && Aligned(bi, esize) && bi + esize <= |mem|
    ensures (forall r :: ValidRun(r) && r.states[0].mem == mem ==> Explainable(r, Reach(|mem|, bi)))
       <==> WordHolds(|mem|, bi, esize)
  {
    hide Explainable, LostRun;
    if WordHolds(|mem|, bi, esize) {
      forall r | ValidRun(r) && r.states[0].mem == mem
        ensures Explainable(r, Reach(|mem|, bi))
      {
        WholeWordsAreExplainable(r, WordOffset(bi) + 4);
      }
    } else {
      UpdateIsLost(mem, bi, esize);
    }
  }

  /** So every aligned element of a buffer is safe exactly when its length is a multiple of four. */
  lemma AllElementsHeldIff(length: nat)
    ensures (forall bi: nat, esize: nat :: ElementSize(esize) && bi + esize <= length && Aligned(bi, esize) ==>
              WordHolds(length, bi, esize))
       <==> length % 4 == 0
  {
    if length % 4 == 0 {
      forall bi: nat, esize: nat | ElementSize(esize) && bi + esize <= length && Aligned(bi, esize)
        ensures WordHolds(length, bi, esize)
      {
        InsideWord(bi, esize);
      }
    } else {
      assert Aligned(length - 1, 1) && !WordHolds(length, length - 1, 1);
    }
  }
}
