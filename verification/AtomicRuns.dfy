/**
 Whole runs of the machine: linearizability, real-time order and lock-freedom.
 */
module AtomicRuns {
  import opened Wrappers
  import opened AtomicElements
  import opened AtomicMachine

  // ---- The sequential order of a run -------------------------------------------------

  /** The element of a call lies within the first `limit` bytes. */
  predicate Inside(c: Call, limit: nat) {
    c.bi + c.esize <= limit
  }

  /**
   The calls on the first `limit` bytes that took effect in the first `k` steps, in the order in
   which they did.
   */
  ghost function Order(r: Run, k: nat, limit: nat): seq<Event>
    requires ValidRun(r) && k <= |r.labels|
  {
    if k == 0 then []
    else
      match Effect(r.states[k - 1], r.labels[k - 1])
      case None => Order(r, k - 1, limit)
      case Some(ev) => if Inside(ev.call, limit) then Order(r, k - 1, limit) + [ev] else Order(r, k - 1, limit)
  }

  /** No call reaches across the limit, and those within it are undisturbed once there are workers. */
  predicate Keeps(mem: Memory, workers: bool, c: Call, limit: nat) {
    if Inside(c, limit) then workers ==> CallOk(mem, c) else limit <= c.bi
  }

  /** Runs in which that holds of every call that is begun. */
  ghost predicate Protected(r: Run, limit: nat) {
    && ValidRun(r)
    && limit <= |r.states[0].mem|
    && forall k :: 0 <= k < |r.labels| && r.labels[k].Invoke? ==>
         Keeps(r.states[k].mem, r.states[k].workers, r.labels[k].call, limit)
  }

  /** In every run, whole words are protected, whatever is done to the bytes behind them. */
  lemma WholeWordsAreProtected(r: Run, limit: nat)
    requires ValidRun(r) && limit <= |r.states[0].mem| && limit % 4 == 0
    ensures Protected(r, limit)
  {
    hide Inv, After;
    forall k | 0 <= k < |r.labels| && r.labels[k].Invoke?
      ensures Keeps(r.states[k].mem, r.states[k].workers, r.labels[k].call, limit)
    {
      RunInv(r, k);
      AlignedSide(r.labels[k].call, limit);
    }
  }

  /** An aligned element lies within whole words or behind them. */
  lemma AlignedSide(c: Call, limit: nat)
    requires ElementSize(c.esize) && Aligned(c.bi, c.esize) && limit % 4 == 0
    ensures if Inside(c, limit) then WordOffset(c.bi) + 4 <= limit else limit <= c.bi
  {
    InsideWord(c.bi, c.esize);
  }

  /** The whole buffer is protected when every call begun with workers passes the first condition. */
  lemma GuardedIsProtected(r: Run)
    requires ValidRun(r)
    requires forall k :: 0 <= k < |r.labels| && r.labels[k].Invoke? && r.states[k].workers ==>
      CallOk(r.states[k].mem, r.labels[k].call)
    ensures Protected(r, |r.states[0].mem|)
  {
    hide Inv, After, CallOk;
    forall k | 0 <= k < |r.labels| && r.labels[k].Invoke?
      ensures Keeps(r.states[k].mem, r.states[k].workers, r.labels[k].call, |r.states[0].mem|)
    {
      RunInv(r, k);
    }
  }

  predicate AllInBounds(mem: Memory, events: seq<Event>) {
    forall i :: 0 <= i < |events| ==> InBounds(mem, events[i].call)
  }

  /** Memory after performing the calls one after the other, each by its sequential meaning. */
  function Replay(mem: Memory, events: seq<Event>): (mem': Memory)
    requires AllInBounds(mem, events)
    ensures |mem'| == |mem|
  {
    if events == [] then mem
    else Apply(Replay(mem, events[..|events| - 1]), events[|events| - 1].call).0
  }

  /** Every event reports what its call returns when the calls before it have been performed. */
  predicate ResultsMatch(mem: Memory, events: seq<Event>)
    requires AllInBounds(mem, events)
  {
    events == [] ||
    var last := events[|events| - 1];
    var before := events[..|events| - 1];
    && ResultsMatch(mem, before)
    && last.result == Observed(last.call, Apply(Replay(mem, before), last.call).1)
  }

  lemma {:induction false} RunInv(r: Run, k: nat)
    requires ValidRun(r) && k < |r.states|
    ensures Inv(r.states[k])
    ensures |r.states[k].mem| == |r.states[0].mem|
    ensures |r.states[k].threads| == |r.states[0].threads|
  {
    hide Inv, After, Enabled;
    if k == 0 {
      InitInv(r.states[0]);
    } else {
      RunInv(r, k - 1);
      InvPreserved(r.states[k - 1], r.labels[k - 1]);
    }
  }

  lemma InitInv(s: State)
    requires Init(s)
    ensures Inv(s)
  {
  }

  /** Every call in progress keeps to its side of the limit. */
  predicate CallsKeep(s: State, limit: nat) {
    forall t :: 0 <= t < |s.threads| && s.threads[t].Busy? ==> Keeps(s.mem, s.workers, s.threads[t].call, limit)
  }

  lemma KeptByStep(s: State, l: Label, limit: nat)
    requires Inv(s) && Enabled(s, l) && CallsKeep(s, limit)
    requires l.Invoke? ==> Keeps(s.mem, s.workers, l.call, limit)
    ensures CallsKeep(After(s, l), limit)
  {
    hide Step, Aligned, WordOffset;
    InvPreserved(s, l);
  }

  lemma {:induction false} RunKeeps(r: Run, k: nat, limit: nat)
    requires Protected(r, limit) && k <= |r.labels|
    ensures CallsKeep(r.states[k], limit)
  {
    hide After, Enabled, Inv, Keeps;
    if k > 0 {
      RunInv(r, k - 1);
      RunKeeps(r, k - 1, limit);
      KeptByStep(r.states[k - 1], r.labels[k - 1], limit);
    }
  }

  /** A call within the limit means the same on the bytes up to the limit alone. */
  lemma ApplyInPart(mem: Memory, c: Call, limit: nat)
    requires limit <= |mem| && ElementSize(c.esize) && Inside(c, limit)
    ensures Apply(mem[..limit], c) == (Apply(mem, c).0[..limit], Apply(mem, c).1)
  {
    hide Compose, ApplyOp, Truncate, ElementBytes;
    var part := mem[..limit];
    assert LoadElement(part, c.bi, c.esize) == LoadElement(mem, c.bi, c.esize);
    var cur := LoadElement(mem, c.bi, c.esize);
    var x := Truncate(ApplyOp(c.op, cur, Truncate(c.v, c.esize), Truncate(c.e, c.esize)).0, c.esize);
    assert StoreElement(part, c.bi, c.esize, x) == StoreElement(mem, c.bi, c.esize, x)[..limit];
  }

  /** One step as seen on the bytes up to the limit. */
  lemma EffectInPart(s: State, l: Label, limit: nat)
    requires Inv(s) && Enabled(s, l) && CallsKeep(s, limit) && limit <= |s.mem|
    ensures |After(s, l).mem| == |s.mem|
    ensures match Effect(s, l)
            case None => After(s, l).mem == s.mem
            case Some(ev) =>
              if Inside(ev.call, limit) then
                && InBounds(s.mem[..limit], ev.call)
                && After(s, l).mem[..limit] == Apply(s.mem[..limit], ev.call).0
                && ev.result == Observed(ev.call, Apply(s.mem[..limit], ev.call).1)
              else
                After(s, l).mem[..limit] == s.mem[..limit]
  {
    hide Step, Apply, Observed, PcOk;
    InvPreserved(s, l);
    EffectSimulates(s, l);
    match Effect(s, l)
    case None =>
    case Some(ev) =>
      if Inside(ev.call, limit) {
        ApplyInPart(s.mem, ev.call, limit);
      }
  }

  /**
   The run is equivalent to its sequential order: performing the calls in the order of
   their effects gives the memory of the run and exactly the results of the run.
   */
  lemma {:induction false} OrderExplainsRun(r: Run, k: nat, limit: nat)
    requires Protected(r, limit) && k <= |r.labels|
    ensures |r.states[k].mem| == |r.states[0].mem|
    ensures AllInBounds(r.states[0].mem[..limit], Order(r, k, limit))
    ensures Replay(r.states[0].mem[..limit], Order(r, k, limit)) == r.states[k].mem[..limit]
    ensures ResultsMatch(r.states[0].mem[..limit], Order(r, k, limit))
  {
    hide Inv, After, Enabled, Effect, Apply, Observed, CallsKeep, Keeps;
    if k > 0 {
      OrderExplainsRun(r, k - 1, limit);
      RunInv(r, k - 1);
      RunKeeps(r, k - 1, limit);
      EffectInPart(r.states[k - 1], r.labels[k - 1], limit);
      var before := Order(r, k - 1, limit);
      match Effect(r.states[k - 1], r.labels[k - 1])
      case None =>
      case Some(ev) =>
        assert (before + [ev])[..|before|] == before;
    }
  }

  // ---- Effects lie inside the calls ---------------------------------------------------

  /** Label `k` is thread `t` beginning or ending a call. */
  predicate Boundary(l: Label, t: nat) {
    l == Return(t) || (l.Invoke? && l.t == t)
  }

  ghost predicate EffectOf(r: Run, k: nat, t: nat)
    requires ValidRun(r) && k < |r.labels|
  {
    Effect(r.states[k], r.labels[k]).Some? && Effect(r.states[k], r.labels[k]).value.t == t
  }

  /** Thread `t` began `c` at step `i`, and until step `j` it neither returned nor took effect. */
  ghost predicate Pending(r: Run, i: nat, j: nat, t: nat, c: Call)
    requires ValidRun(r) && j <= |r.labels|
  {
    && i < j
    && r.labels[i] == Invoke(t, c)
    && forall m :: i < m < j ==> !Boundary(r.labels[m], t) && !EffectOf(r, m, t)
  }

  /**
   Thread `t` began `c` at step `i`; before step `j` it took effect exactly once, at step
   `k`, with the result `x` for its caller, and it has not returned yet.
   */
  ghost predicate TookEffect(r: Run, i: nat, k: nat, j: nat, t: nat, c: Call, x: bv32)
    requires ValidRun(r) && j <= |r.labels|
  {
    && i < k < j
    && r.labels[i] == Invoke(t, c)
    && Effect(r.states[k], r.labels[k]) == Some(Event(t, c, x))
    && forall m :: i < m < j ==> !Boundary(r.labels[m], t) && (EffectOf(r, m, t) <==> m == k)
  }

  /** What the state of a thread says about its past. */
  ghost predicate Explained(r: Run, j: nat, t: nat)
    requires ValidRun(r) && j <= |r.labels| && t < |r.states[j].threads|
  {
    match r.states[j].threads[t]
    case Idle => true
    case Busy(c, pc) =>
      if pc.Finished? then
        ElementSize(c.esize) && exists i, k :: TookEffect(r, i, k, j, t, c, Observed(c, pc.raw))
      else
        exists i :: Pending(r, i, j, t, c)
  }

  lemma OtherThreadKept(s: State, l: Label, t: nat)
    requires Enabled(s, l) && t < |s.threads| && l != Act(t) && !Boundary(l, t)
    ensures After(s, l).threads[t] == s.threads[t]
    ensures Effect(s, l).Some? ==> Effect(s, l).value.t != t
  {
    hide Step;
  }

  lemma ActEnabled(s: State, t: nat)
    requires Inv(s)
    ensures Enabled(s, Act(t)) <==> Running(s, t)
  {
  }

  lemma OwnStep(s: State, t: nat)
    requires Enabled(s, Act(t))
    ensures var c := s.threads[t].call; var next := After(s, Act(t)).threads[t];
            && next.Busy? && next.call == c
            && Effect(s, Act(t)) == (if next.pc.Finished? then Some(Event(t, c, Observed(c, next.pc.raw))) else None)
  {
    hide Step, Observed;
  }

  /** A step of another thread leaves the past of `t` as it was explained before. */
  lemma OtherThreadExplained(r: Run, j: nat, t: nat)
    requires ValidRun(r) && j < |r.labels| && t < |r.states[j].threads|
    requires r.labels[j] != Act(t) && !Boundary(r.labels[j], t)
    requires Explained(r, j, t)
    ensures t < |r.states[j + 1].threads| && Explained(r, j + 1, t)
  {
    hide After, Enabled, Effect, Observed;
    RunInv(r, j);
    RunInv(r, j + 1);
    OtherThreadKept(r.states[j], r.labels[j], t);
    assert !EffectOf(r, j, t);
    match r.states[j].threads[t]
    case Idle =>
    case Busy(c, pc) =>
      if pc.Finished? {
        var i, k :| TookEffect(r, i, k, j, t, c, Observed(c, pc.raw));
        assert TookEffect(r, i, k, j + 1, t, c, Observed(c, pc.raw));
      } else {
        var i :| Pending(r, i, j, t, c);
        assert Pending(r, i, j + 1, t, c);
      }
  }

  lemma OwnStepExplained(r: Run, j: nat, t: nat)
    requires ValidRun(r) && j < |r.labels| && t < |r.states[j].threads|
    requires r.labels[j] == Act(t)
    requires Explained(r, j, t)
    ensures t < |r.states[j + 1].threads| && Explained(r, j + 1, t)
  {
    hide After, Effect, Observed, Enabled, PcOk;
    RunInv(r, j);
    RunInv(r, j + 1);
    ActEnabled(r.states[j], t);
    OwnStep(r.states[j], t);
    var c, next := r.states[j].threads[t].call, r.states[j + 1].threads[t];
    var i :| Pending(r, i, j, t, c);
    if next.pc.Finished? {
      assert EffectOf(r, j, t);
      assert TookEffect(r, i, j, j + 1, t, c, Observed(c, next.pc.raw));
    } else {
      assert !EffectOf(r, j, t);
      assert Pending(r, i, j + 1, t, c);
    }
  }

  /** At every point of a run, the state of every thread is explained by its past. */
  lemma {:induction false} EveryThreadExplained(r: Run, j: nat, t: nat)
    requires ValidRun(r) && j <= |r.labels| && t < |r.states[0].threads|
    ensures t < |r.states[j].threads| && Explained(r, j, t)
  {
    hide Step, Observed;
    RunInv(r, j);
    if j > 0 {
      EveryThreadExplained(r, j - 1, t);
      var l := r.labels[j - 1];
      if l.Invoke? && l.t == t {
        assert Pending(r, j - 1, j, t, l.call);
      } else if l == Act(t) {
        OwnStepExplained(r, j - 1, t);
      } else if l != Return(t) {
        OtherThreadExplained(r, j - 1, t);
      }
    }
  }

  /** The call that a return ends, and the value it hands to its caller. */
  ghost predicate Returns(r: Run, j: nat, t: nat, c: Call, x: bv32)
    requires ValidRun(r) && j < |r.labels|
  {
    && r.labels[j] == Return(t)
    && t < |r.states[j].threads|
    && r.states[j].threads[t].Busy?
    && c == r.states[j].threads[t].call
    && r.states[j].threads[t].pc.Finished?
    && ElementSize(c.esize)
    && x == Observed(c, r.states[j].threads[t].pc.raw)
  }

  /**
   Linearizability.  For every run, of any number of threads and any mix of element sizes on
   the same words, and for every protected part of the memory: performing the calls on that part
   one after the other in the order of their effects gives its final contents and every reported
   result; every call that returned took effect exactly once, between its beginning and its
   return, with the value it returned; and nothing takes effect that was not begun.
   */
  lemma Linearizable(r: Run, limit: nat)
    requires Protected(r, limit)
    ensures var first, order := r.states[0].mem[..limit], Order(r, |r.labels|, limit);
            && |r.states[|r.labels|].mem| == |r.states[0].mem|
            && AllInBounds(first, order)
            && Replay(first, order) == r.states[|r.labels|].mem[..limit]
            && ResultsMatch(first, order)
    ensures forall j, t, c, x :: 0 <= j < |r.labels| && Returns(r, j, t, c, x) ==>
              exists i, k :: TookEffect(r, i, k, j, t, c, x)
    ensures forall k :: 0 <= k < |r.labels| && Effect(r.states[k], r.labels[k]).Some? ==>
              var ev := Effect(r.states[k], r.labels[k]).value;
              exists i :: Pending(r, i, k, ev.t, ev.call)
  {
    hide After, Observed, Step;
    OrderExplainsRun(r, |r.labels|, limit);
    forall j, t, c, x | 0 <= j < |r.labels| && Returns(r, j, t, c, x)
      ensures exists i, k :: TookEffect(r, i, k, j, t, c, x)
    {
      RunInv(r, j);
      EveryThreadExplained(r, j, t);
    }
    forall k | 0 <= k < |r.labels| && Effect(r.states[k], r.labels[k]).Some?
      ensures var ev := Effect(r.states[k], r.labels[k]).value;
              exists i :: Pending(r, i, k, ev.t, ev.call)
    {
      RunInv(r, k);
      EveryThreadExplained(r, k, r.labels[k].t);
    }
  }

  // ---- Real time ----------------------------------------------------------------------

  lemma {:induction false} OrderGrows(r: Run, k: nat, n: nat, limit: nat)
    requires ValidRun(r) && k <= n <= |r.labels|
    ensures Order(r, k, limit) <= Order(r, n, limit)
  {
    hide Effect;
    if k < n {
      OrderGrows(r, k, n - 1, limit);
    }
  }

  /** Step `k` is the effect `ev` of a call within the limit. */
  ghost predicate EffectAt(r: Run, k: nat, ev: Event, limit: nat)
    requires ValidRun(r)
  {
    k < |r.labels| && Effect(r.states[k], r.labels[k]) == Some(ev) && Inside(ev.call, limit)
  }

  /** An effect at step `k` stands in the order right after all effects of earlier steps. */
  lemma EffectPosition(r: Run, k: nat, ev: Event, limit: nat)
    requires ValidRun(r) && EffectAt(r, k, ev, limit)
    ensures |Order(r, k, limit)| < |Order(r, |r.labels|, limit)|
    ensures Order(r, |r.labels|, limit)[|Order(r, k, limit)|] == ev
  {
    hide Effect;
    OrderGrows(r, k + 1, |r.labels|, limit);
  }

  /** Effects at steps `k < k'` stand in that order. */
  lemma StepOrderKept(r: Run, k: nat, ev: Event, k': nat, ev': Event, limit: nat)
    requires ValidRun(r) && k < k' && EffectAt(r, k, ev, limit) && EffectAt(r, k', ev', limit)
    ensures var order := Order(r, |r.labels|, limit);
            && |Order(r, k, limit)| < |Order(r, k', limit)| < |order|
            && order[|Order(r, k, limit)|] == ev
            && order[|Order(r, k', limit)|] == ev'
  {
    hide Effect;
    OrderGrows(r, k + 1, k', limit);
    EffectPosition(r, k, ev, limit);
    EffectPosition(r, k', ev', limit);
  }

  /** A call that returned before another one began also comes first in the sequential order. */
  lemma RealTimeKept(r: Run, i: nat, k: nat, j: nat, t: nat, c: Call, x: bv32,
                     i': nat, k': nat, j': nat, t': nat, c': Call, x': bv32, limit: nat)
    requires ValidRun(r) && j <= |r.labels| && j' <= |r.labels| && j <= i'
    requires TookEffect(r, i, k, j, t, c, x) && TookEffect(r, i', k', j', t', c', x')
    requires Inside(c, limit) && Inside(c', limit)
    ensures var order := Order(r, |r.labels|, limit);
            && |Order(r, k, limit)| < |Order(r, k', limit)| < |order|
            && order[|Order(r, k, limit)|] == Event(t, c, x)
            && order[|Order(r, k', limit)|] == Event(t', c', x')
  {
    hide Effect;
    StepOrderKept(r, k, Event(t, c, x), k', Event(t', c', x'), limit);
  }

  // ---- Lock-freedom -------------------------------------------------------------------

  /** Step `m` is a compare-and-swap of thread `t` that failed. */
  ghost predicate FailedSwap(r: Run, m: nat, t: nat)
    requires ValidRun(r) && m < |r.labels|
  {
    && r.labels[m] == Act(t)
    && r.states[m].threads[t].pc.Swap?
    && r.states[m + 1].threads[t].pc == Start
  }

  /** At step `m` another thread's call took effect on the word of `bi` and changed it. */
  ghost predicate ForeignChange(r: Run, m: nat, t: nat, bi: nat)
    requires ValidRun(r) && m < |r.labels|
  {
    && WordOffset(bi) + 4 <= |r.states[m].mem| == |r.states[m + 1].mem|
    && LoadWord(r.states[m + 1].mem, bi) != LoadWord(r.states[m].mem, bi)
    && Effect(r.states[m], r.labels[m]).Some?
    && Effect(r.states[m], r.labels[m]).value.t != t
    && WordOffset(Effect(r.states[m], r.labels[m]).value.call.bi) == WordOffset(bi)
  }

  ghost function Failures(r: Run, i: nat, j: nat, t: nat): nat
    requires ValidRun(r) && i <= j <= |r.labels|
  {
    if i == j then 0 else Failures(r, i, j - 1, t) + if FailedSwap(r, j - 1, t) then 1 else 0
  }

  ghost function ForeignChanges(r: Run, i: nat, j: nat, t: nat, bi: nat): nat
    requires ValidRun(r) && i <= j <= |r.labels|
  {
    if i == j then 0 else ForeignChanges(r, i, j - 1, t, bi) + if ForeignChange(r, j - 1, t, bi) then 1 else 0
  }

  /** Thread `t` holds a loaded word that is no longer the word in memory. */
  predicate Stale(s: State, t: nat) {
    && Running(s, t)
    && s.threads[t].pc.Swap?
    && CallOk(s.mem, s.threads[t].call)
    && LoadWord(s.mem, s.threads[t].call.bi) != s.threads[t].pc.word
  }

  /** Thread `t` began `c` at step `i` and has not returned before step `j`. */
  ghost predicate InCall(r: Run, i: nat, j: nat, t: nat, c: Call)
    requires ValidRun(r) && j <= |r.labels|
  {
    && i < j
    && r.labels[i] == Invoke(t, c)
    && forall m :: i < m < j ==> !Boundary(r.labels[m], t)
  }

  /** A store to an element of another word leaves a word alone. */
  lemma OtherWordKept(mem: Memory, mem': Memory, c: Call, bi: nat)
    requires ElementSize(c.esize) && Aligned(c.bi, c.esize) && OnlyElementChanged(mem, mem', c)
    requires WordOffset(bi) + 4 <= |mem| && WordOffset(c.bi) != WordOffset(bi)
    ensures LoadWord(mem', bi) == LoadWord(mem, bi)
  {
    hide Compose;
    InsideWord(c.bi, c.esize);
    WordsApart(c.bi, bi);
    var o := WordOffset(bi);
    assert mem'[o] == mem[o] && mem'[o + 1] == mem[o + 1] && mem'[o + 2] == mem[o + 2] && mem'[o + 3] == mem[o + 3];
  }

  lemma WordsApart(a: nat, b: nat)
    ensures WordOffset(a) == WordOffset(b) || WordOffset(a) + 4 <= WordOffset(b) || WordOffset(b) + 4 <= WordOffset(a)
  {
  }

  /** Any step that changes a word is an effect on that word. */
  lemma ChangesAreEffects(s: State, l: Label, bi: nat)
    requires Inv(s) && Enabled(s, l) && WordOffset(bi) + 4 <= |s.mem|
    ensures |After(s, l).mem| == |s.mem|
    ensures LoadWord(After(s, l).mem, bi) != LoadWord(s.mem, bi) ==>
              l.Act? && Effect(s, l).Some? && Effect(s, l).value.t == l.t
              && WordOffset(Effect(s, l).value.call.bi) == WordOffset(bi)
  {
    hide Apply, Step, LoadWord, Observed, WordOffset;
    InvPreserved(s, l);
    EffectSimulates(s, l);
    if l.Act? && Effect(s, l).Some? && WordOffset(Effect(s, l).value.call.bi) != WordOffset(bi) {
      OtherWordKept(s.mem, After(s, l).mem, Effect(s, l).value.call, bi);
    }
  }

  /** A freshly loaded word is current, and a swap fails only on a stale one. */
  lemma LoadsAreCurrent(s: State, t: nat)
    requires Inv(s) && Enabled(s, Act(t))
    ensures var pc, next := s.threads[t].pc, After(s, Act(t)).threads[t].pc;
            && (next.Swap? ==> next.word == LoadWord(s.mem, s.threads[t].call.bi) && After(s, Act(t)).mem == s.mem)
            && (pc.Swap? ==> (next == Start <==> Stale(s, t)))
            && (pc.Swap? ==> next == Start || next.Finished?)
  {
    hide LoadWord, StoreWord, NewWord, NewElement, Extract;
  }

  lemma {:induction false} InCallIsBusy(r: Run, i: nat, j: nat, t: nat, c: Call)
    requires ValidRun(r) && j <= |r.labels| && InCall(r, i, j, t, c)
    ensures t < |r.states[j].threads| && r.states[j].threads[t].Busy? && r.states[j].threads[t].call == c
  {
    hide Step;
    RunInv(r, i);
    RunInv(r, j - 1);
    if i + 1 < j {
      assert InCall(r, i, j - 1, t, c);
      InCallIsBusy(r, i, j - 1, t, c);
      if r.labels[j - 1] != Act(t) {
        OtherThreadKept(r.states[j - 1], r.labels[j - 1], t);
      }
    }
  }

  /** A call that loads words for swaps at all. */
  predicate MaySwap(s: State, c: Call) {
    s.workers && CallOk(s.mem, c)
  }

  /** Without workers, and in the fallback, no word is loaded for a swap, so none can be lost. */
  lemma NoSwap(s: State, l: Label, t: nat)
    requires Inv(s) && Enabled(s, l)
    requires t < |s.threads| && s.threads[t].Busy? && !MaySwap(s, s.threads[t].call) && !Boundary(l, t)
    ensures !s.threads[t].pc.Swap? && !Stale(After(s, l), t)
  {
    hide Step, LoadWord, LoadElement, NewElement, Writes;
    InvPreserved(s, l);
  }

  /** With workers: a swap fails only on a stale word, and a word goes stale only by a foreign change. */
  lemma RetryStep(r: Run, j: nat, t: nat, bi: nat)
    requires ValidRun(r) && j < |r.labels| && Inv(r.states[j])
    requires t < |r.states[j].threads| && r.states[j].threads[t].Busy? && r.states[j].threads[t].call.bi == bi
    requires MaySwap(r.states[j], r.states[j].threads[t].call)
    requires !Boundary(r.labels[j], t)
    ensures (if FailedSwap(r, j, t) then 1 else 0) + (if Stale(r.states[j + 1], t) then 1 else 0)
         <= (if Stale(r.states[j], t) then 1 else 0) + (if ForeignChange(r, j, t, bi) then 1 else 0)
  {
    hide Step, LoadWord, LoadElement, NewElement, Writes, Effect;
    var s, l := r.states[j], r.labels[j];
    InvPreserved(s, l);
    ChangesAreEffects(s, l, bi);
    if l == Act(t) {
      LoadsAreCurrent(s, t);
    } else {
      OtherThreadKept(s, l, t);
    }
  }

  /**
   Lock-freedom: from its beginning to any later point, a call has lost no more swaps than
   other threads' calls took effect on its word and changed it.
   */
  lemma {:induction false} RetriesArePaidFor(r: Run, i: nat, j: nat, t: nat, c: Call)
    requires ValidRun(r) && j <= |r.labels| && InCall(r, i, j, t, c)
    ensures Failures(r, i + 1, j, t) + (if Stale(r.states[j], t) then 1 else 0)
         <= ForeignChanges(r, i + 1, j, t, c.bi)
  {
    hide Step, LoadWord, Effect, Inv, Enabled, After, Stale, FailedSwap, ForeignChange;
    if j == i + 1 {
      FreshIsNotStale(r, i, t);
    } else {
      assert InCall(r, i, j - 1, t, c);
      RetriesArePaidFor(r, i, j - 1, t, c);
      InCallIsBusy(r, i, j - 1, t, c);
      RunInv(r, j - 1);
      if MaySwap(r.states[j - 1], c) {
        RetryStep(r, j - 1, t, c.bi);
      } else {
        NoFailure(r, j - 1, t);
      }
    }
  }

  lemma FreshIsNotStale(r: Run, i: nat, t: nat)
    requires ValidRun(r) && i < |r.labels| && r.labels[i].Invoke? && r.labels[i].t == t
    ensures !Stale(r.states[i + 1], t)
  {
  }

  lemma NoFailure(r: Run, j: nat, t: nat)
    requires ValidRun(r) && j < |r.labels| && Inv(r.states[j]) && !Boundary(r.labels[j], t)
    requires t < |r.states[j].threads| && r.states[j].threads[t].Busy?
    requires !MaySwap(r.states[j], r.states[j].threads[t].call)
    ensures !FailedSwap(r, j, t) && !Stale(r.states[j + 1], t)
  {
    hide Step, LoadWord, LoadElement, NewElement, Writes, Inv, Stale;
    NoSwap(r.states[j], r.labels[j], t);
  }

  /** The state after up to `n` steps of thread `t` alone. */
  ghost function Alone(s: State, t: nat, n: nat): (s': State)
    requires Inv(s) && t < |s.threads|
    ensures Inv(s') && |s'.threads| == |s.threads|
    decreases n
  {
    if n == 0 || !Enabled(s, Act(t)) then s
    else
      InvPreserved(s, Act(t));
      Alone(After(s, Act(t)), t, n - 1)
  }

  lemma FirstStep(s: State, t: nat)
    requires Inv(s) && Running(s, t)
    ensures Enabled(s, Act(t))
    ensures var pc, next := s.threads[t].pc, After(s, Act(t)).threads[t];
            && next.Busy?
            && (pc.PlainStore? || pc.ByteStore? ==> next.pc.Finished?)
            && (pc.Start? ==> next.pc.Finished? || next.pc.Swap? || next.pc.PlainStore? || next.pc.ByteStore?)
            && After(s, Act(t)).threads[t].call == s.threads[t].call
  {
    hide LoadWord, StoreWord, NewWord, NewElement, Extract;
  }

  /** An operation left alone finishes: two steps, or three when it holds a stale word. */
  lemma AloneFinishes(s: State, t: nat)
    requires Inv(s) && Running(s, t)
    ensures var s' := Alone(s, t, if Stale(s, t) then 3 else 2);
            s'.threads[t].Busy? && s'.threads[t].pc.Finished? && s'.threads[t].call == s.threads[t].call
  {
    hide Step, LoadWord;
    var s1 := After(s, Act(t));
    FirstStep(s, t);
    LoadsAreCurrent(s, t);
    InvPreserved(s, Act(t));
    if s.threads[t].pc.Swap? && Stale(s, t) {
      AloneFromStart(s1, t);
      assert Alone(s, t, 3) == Alone(s1, t, 2);
    } else if s.threads[t].pc.Start? {
      AloneFromStart(s, t);
    }
  }

  lemma AloneFromStart(s: State, t: nat)
    requires Inv(s) && Running(s, t) && s.threads[t].pc.Start?
    ensures var s' := Alone(s, t, 2).threads[t];
            s'.Busy? && s'.pc.Finished? && s'.call == s.threads[t].call
  {
    hide Step, LoadWord;
    var s1 := After(s, Act(t));
    FirstStep(s, t);
    LoadsAreCurrent(s, t);
    InvPreserved(s, Act(t));
    ActEnabled(s1, t);
    if !s1.threads[t].pc.Finished? {
      var s2 := After(s1, Act(t));
      FirstStep(s1, t);
      LoadsAreCurrent(s1, t);
      InvPreserved(s1, Act(t));
      assert Alone(s, t, 2) == Alone(s1, t, 1) == Alone(s2, t, 0);
    }
  }
}
