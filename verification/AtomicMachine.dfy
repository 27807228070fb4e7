/**
 `atomics_cas_apply` as a step machine.  Every thread runs at most one call at a time; a
 step is one access to the shared memory: a plain load or store on the single-threaded
 path, one hardware primitive on the others.  A run is any interleaving of such steps.
 */
module AtomicMachine {
  import opened Wrappers
  import opened AtomicElements

  /** Where a call stands: before its (re)load, holding a loaded word or element, or with its result. */
  datatype Pc =
    | Start
    | Swap(word: bv32)
    | PlainStore(word: bv32)
    | ByteStore(cur: bv32)
    | Finished(raw: bv32)

  datatype Thread = Idle | Busy(call: Call, pc: Pc)

  /**
   `workers` is `g_lr_atomics_has_workers`.  `xchgLoop` says whether the platform's exchange
   primitive is itself a load and compare-and-swap loop (GCC, Clang) or one instruction.
   */
  datatype State = State(mem: Memory, threads: seq<Thread>, workers: bool, xchgLoop: bool)

  /** Thread 0 creates a worker; a thread begins a call, makes one memory step, or returns. */
  datatype Label = Spawn | Invoke(t: nat, call: Call) | Act(t: nat) | Return(t: nat)

  /** A call that took effect: the thread, the call and the value its caller gets. */
  datatype Event = Event(t: nat, call: Call, result: bv32)

  /** The condition under which the word paths run: an aligned element in an addressable word. */
  predicate CallOk(mem: Memory, c: Call) {
    InBounds(mem, c) && Aligned(c.bi, c.esize) && WordOffset(c.bi) + 4 <= |mem|
  }

  /** In a buffer whose length is a multiple of four, that holds of every aligned element. */
  lemma WholeWordsHoldElements(mem: Memory, c: Call)
    requires |mem| % 4 == 0 && InBounds(mem, c) && Aligned(c.bi, c.esize)
    ensures CallOk(mem, c)
  {
  }

  /** Masked new value of an element, and whether it is stored. */
  function NewElement(c: Call, cur: bv32): (bv32, bool)
    requires ElementSize(c.esize)
  {
    var (x, write) := ApplyOp(c.op, cur, Truncate(c.v, c.esize), Truncate(c.e, c.esize));
    (Truncate(x, c.esize), write)
  }

  function NewWord(c: Call, word: bv32): bv32
    requires ElementSize(c.esize)
  {
    Merge(word, c.bi, c.esize, NewElement(c, Extract(word, c.bi, c.esize)).0)
  }

  /** Load, compute the element, and decide: nothing to store, or go on to `next`. */
  function LoadAndDecide(c: Call, word: bv32, next: Pc): Pc
    requires ElementSize(c.esize)
  {
    var cur := Extract(word, c.bi, c.esize);
    if NewElement(c, cur).1 then next else Finished(cur)
  }

  /** The words that fetch-and-add of `v` and of `-v` leave behind. */
  function Plus(word: bv32, v: bv32): bv32 {
    word + v
  }

  function PlusNegated(word: bv32, v: bv32): bv32 {
    word + (0 - v)
  }

  /** The 4-byte primitives: one step each, except where a loop starts with its load. */
  function WordStep(mem: Memory, xchgLoop: bool, c: Call, word: bv32): (Memory, Pc)
    requires CallOk(mem, c) && c.esize == 4
  {
    var v := Truncate(c.v, 4);
    match c.op
    case Load => (mem, Finished(word))
    case Add => (StoreWord(mem, c.bi, Plus(word, v)), Finished(word))
    case Sub => (StoreWord(mem, c.bi, PlusNegated(word, v)), Finished(word))
    case And => (mem, Swap(word))
    case Or => (mem, Swap(word))
    case Xor => (mem, Swap(word))
    case Exchange =>
      if xchgLoop then (mem, Swap(word)) else (StoreWord(mem, c.bi, v), Finished(word))
    case CompareExchange =>
      (if word == Truncate(c.e, 4) then StoreWord(mem, c.bi, v) else mem, Finished(word))
    case Store => (StoreWord(mem, c.bi, v), Finished(v))
  }

  /** The fallback for other elements: a read and a write of the element's own bytes. */
  function FallbackStep(mem: Memory, c: Call, pc: Pc): (r: (Memory, Pc))
    requires InBounds(mem, c) && (pc.Start? || pc.ByteStore?)
  {
    if pc.ByteStore? then
      (StoreElement(mem, c.bi, c.esize, NewElement(c, pc.cur).0), Finished(pc.cur))
    else
      var cur := LoadElement(mem, c.bi, c.esize);
      (mem, if NewElement(c, cur).1 then ByteStore(cur) else Finished(cur))
  }

  /** The positions of a call on either side of the code's first condition. */
  predicate PcFits(mem: Memory, c: Call, pc: Pc) {
    InBounds(mem, c) && if CallOk(mem, c) then pc.Start? || pc.Swap? || pc.PlainStore? else pc.Start? || pc.ByteStore?
  }

  /** One memory step of a call: the memory after it and the new position. */
  function Step(mem: Memory, workers: bool, xchgLoop: bool, c: Call, pc: Pc): (r: (Memory, Pc))
    requires PcFits(mem, c, pc)
  {
    if !CallOk(mem, c) then FallbackStep(mem, c, pc)
    else
      var word := LoadWord(mem, c.bi);
      match pc
      case PlainStore(w) =>
        (StoreWord(mem, c.bi, NewWord(c, w)), Finished(Extract(w, c.bi, c.esize)))
      case Swap(w) =>
        if word == w then
          (StoreWord(mem, c.bi, NewWord(c, w)), Finished(Extract(w, c.bi, c.esize)))
        else
          (mem, Start)
      case _ =>
        if !workers then
          (mem, LoadAndDecide(c, word, PlainStore(word)))
        else if c.esize == 4 then
          WordStep(mem, xchgLoop, c, word)
        else
          (mem, LoadAndDecide(c, word, Swap(word)))
  }

  // ---- States and runs -------------------------------------------------------------

  /** The call of thread `t` is in progress and still has a memory step to make. */
  predicate Running(s: State, t: nat) {
    t < |s.threads| && s.threads[t].Busy? && !s.threads[t].pc.Finished?
  }

  predicate Enabled(s: State, l: Label) {
    match l
    case Spawn => |s.threads| > 0 && s.threads[0].Idle?
    case Invoke(t, c) =>
      t < |s.threads| && s.threads[t].Idle? && InBounds(s.mem, c) && Aligned(c.bi, c.esize) && (t == 0 || s.workers)
    case Act(t) => Running(s, t) && PcFits(s.mem, s.threads[t].call, s.threads[t].pc)
    case Return(t) => t < |s.threads| && s.threads[t].Busy? && s.threads[t].pc.Finished?
  }

  function ActStep(s: State, t: nat): (Memory, Pc)
    requires Enabled(s, Act(t))
  {
    Step(s.mem, s.workers, s.xchgLoop, s.threads[t].call, s.threads[t].pc)
  }

  function After(s: State, l: Label): State
    requires Enabled(s, l)
  {
    match l
    case Spawn => s.(workers := true)
    case Invoke(t, c) => s.(threads := s.threads[t := Busy(c, Start)])
    case Act(t) =>
      var (mem, pc) := ActStep(s, t);
      s.(mem := mem, threads := s.threads[t := Busy(s.threads[t].call, pc)])
    case Return(t) => s.(threads := s.threads[t := Idle])
  }

  /** The event of a label: a call takes effect at the step that fixes its result. */
  function Effect(s: State, l: Label): Option<Event>
    requires Enabled(s, l)
  {
    if l.Act? && ActStep(s, l.t).1.Finished? then
      var c := s.threads[l.t].call;
      Some(Event(l.t, c, Observed(c, ActStep(s, l.t).1.raw)))
    else
      None
  }

  predicate Writes(c: Call, word: bv32)
    requires ElementSize(c.esize)
  {
    NewElement(c, Extract(word, c.bi, c.esize)).1
  }

  /** What the code knows at each position. */
  predicate PcOk(s: State, c: Call, pc: Pc)
    requires InBounds(s.mem, c)
  {
    match pc
    case Start => true
    case Swap(w) => s.workers && CallOk(s.mem, c) && Writes(c, w)
    case PlainStore(w) => !s.workers && CallOk(s.mem, c) && Writes(c, w) && w == LoadWord(s.mem, c.bi)
    case ByteStore(cur) =>
      !CallOk(s.mem, c) && NewElement(c, cur).1 && (!s.workers ==> cur == LoadElement(s.mem, c.bi, c.esize))
    case Finished(_) => true
  }

  /** The invariant of every reachable state. */
  predicate Inv(s: State) {
    && |s.threads| > 0
    && (!s.workers ==> forall t :: 1 <= t < |s.threads| ==> s.threads[t].Idle?)
    && (forall t :: 0 <= t < |s.threads| && s.threads[t].Busy? ==>
          && InBounds(s.mem, s.threads[t].call)
          && Aligned(s.threads[t].call.bi, s.threads[t].call.esize)
          && PcOk(s, s.threads[t].call, s.threads[t].pc))
  }

  predicate Init(s: State) {
    && |s.threads| > 0
    && !s.workers
    && forall t :: 0 <= t < |s.threads| ==> s.threads[t].Idle?
  }

  datatype Run = Run(states: seq<State>, labels: seq<Label>)

  ghost predicate ValidRun(r: Run) {
    && |r.states| == |r.labels| + 1
    && Init(r.states[0])
    && forall k :: 0 <= k < |r.labels| ==>
         Enabled(r.states[k], r.labels[k]) && r.states[k + 1] == After(r.states[k], r.labels[k])
  }

  /**
   Whether nothing can come between the steps of a call: it passes the code's first condition,
   or there are no workers.
   */
  predicate Undisturbed(s: State, c: Call) {
    CallOk(s.mem, c) || !s.workers
  }

  // ---- One step does what the sequential meaning says --------------------------------

  /** Storing the new word writes exactly what the sequential meaning writes. */
  lemma NewWordIsApply(mem: Memory, c: Call)
    requires CallOk(mem, c)
    ensures WordOffset(c.bi) + 4 <= |mem|
    ensures Extract(LoadWord(mem, c.bi), c.bi, c.esize) == Apply(mem, c).1
    ensures Writes(c, LoadWord(mem, c.bi)) ==> StoreWord(mem, c.bi, NewWord(c, LoadWord(mem, c.bi))) == Apply(mem, c).0
    ensures !Writes(c, LoadWord(mem, c.bi)) ==> Apply(mem, c).0 == mem
  {
    hide Extract, Merge, StoreWord, LoadWord, StoreElement, LoadElement, ApplyOp, Truncate;
    var cur := LoadElement(mem, c.bi, c.esize);
    TruncateTwice(ApplyOp(c.op, cur, Truncate(c.v, c.esize), Truncate(c.e, c.esize)).0, c.esize);
    WordViewOfElement(mem, c.bi, c.esize, NewElement(c, cur).0);
  }

  lemma PlusNegatedIsMinus(word: bv32, v: bv32)
    ensures Plus(word, v) == word + v
    ensures PlusNegated(word, v) == word - v
  {
  }

  lemma FetchAddIsApplyOp(word: bv32, v: bv32, e: bv32)
    ensures ApplyOp(Add, word, v, e).0 == Plus(word, v)
    ensures ApplyOp(Sub, word, v, e).0 == PlusNegated(word, v)
  {
    hide Plus, PlusNegated;
    PlusNegatedIsMinus(word, v);
  }

  lemma ApplyOpDecides(op: Op, cur: bv32, v: bv32, e: bv32)
    ensures ApplyOp(op, cur, v, e).1 <==> op != Load && (op == CompareExchange ==> cur == e)
    ensures ApplyOp(op, cur, v, e).1 && op in {Exchange, CompareExchange, Store} ==> ApplyOp(op, cur, v, e).0 == v
  {
    match op
    case CompareExchange =>
    case Load =>
    case Store =>
    case Exchange =>
    case Add =>
    case Sub =>
    case And =>
    case Or =>
    case Xor =>
  }

  lemma FullWidth(x: bv32)
    ensures Truncate(x, 4) == x
  {
  }

  /** A whole word is its own element, and a masked merge replaces it entirely. */
  lemma WordIsElement(c: Call, word: bv32)
    requires c.esize == 4 && c.bi % 4 == 0
    ensures Extract(word, c.bi, 4) == word
    ensures NewWord(c, word) == ApplyOp(c.op, word, Truncate(c.v, 4), Truncate(c.e, 4)).0
    ensures Writes(c, word) == ApplyOp(c.op, word, Truncate(c.v, 4), Truncate(c.e, 4)).1
  {
    hide ExtractBits, MergeBits, Truncate, ApplyOp;
    var x := ApplyOp(c.op, word, Truncate(c.v, 4), Truncate(c.e, 4)).0;
    WholeLane(word, Truncate(x, 4));
    FullWidth(x);
  }

  /** The 4-byte primitives agree with the masked-word computation. */
  lemma WordStepIsGeneric(mem: Memory, xchgLoop: bool, c: Call, word: bv32)
    requires CallOk(mem, c) && c.esize == 4
    ensures var (mem', pc) := WordStep(mem, xchgLoop, c, word);
            if pc.Finished? then
              && mem' == (if Writes(c, word) then StoreWord(mem, c.bi, NewWord(c, word)) else mem)
              && Observed(c, pc.raw) == Observed(c, word)
            else
              mem' == mem && pc == Swap(word) && Writes(c, word)
  {
    hide Extract, NewWord, Writes, StoreWord, Truncate, ApplyOp, Plus, PlusNegated;
    FetchAddIsApplyOp(word, Truncate(c.v, 4), Truncate(c.e, 4));
    ApplyOpDecides(c.op, word, Truncate(c.v, 4), Truncate(c.e, 4));
    WordIsElement(c, word);
  }

  /** No byte outside the element of a call differs. */
  ghost predicate OnlyElementChanged(mem: Memory, mem': Memory, c: Call) {
    |mem'| == |mem| && forall i :: 0 <= i < |mem| && !(c.bi <= i < c.bi + c.esize) ==> mem'[i] == mem[i]
  }

  /** The fallback does what the sequential meaning says when nothing comes between its steps. */
  lemma FallbackSimulates(s: State, c: Call, pc: Pc)
    requires PcFits(s.mem, c, pc) && !CallOk(s.mem, c) && PcOk(s, c, pc)
    ensures var (mem', pc') := FallbackStep(s.mem, c, pc);
            && OnlyElementChanged(s.mem, mem', c)
            && (pc'.Finished? && !s.workers ==> mem' == Apply(s.mem, c).0 && pc'.raw == Apply(s.mem, c).1)
            && (!pc'.Finished? ==> mem' == s.mem && PcOk(s, c, pc'))
  {
    hide LoadElement, ApplyOp, Truncate, ElementBytes;
  }

  /**
   One memory step refines the sequential meaning: the step that fixes the result of an
   undisturbed call does exactly `Apply`, at once, and every other step but the last one of the
   fallback leaves the memory alone.
   */
  lemma StepSimulates(s: State, c: Call, pc: Pc)
    requires PcFits(s.mem, c, pc) && PcOk(s, c, pc)
    ensures var (mem', pc') := Step(s.mem, s.workers, s.xchgLoop, c, pc);
            && OnlyElementChanged(s.mem, mem', c)
            && (pc'.Finished? && Undisturbed(s, c) ==>
                  mem' == Apply(s.mem, c).0 && Observed(c, pc'.raw) == Observed(c, Apply(s.mem, c).1))
            && (!pc'.Finished? ==> mem' == s.mem && PcOk(s, c, pc'))
  {
    hide Extract, NewWord, NewElement, StoreWord, LoadWord, LoadElement, Apply, FallbackStep;
    if CallOk(s.mem, c) {
      NewWordIsApply(s.mem, c);
      if c.esize == 4 {
        WordStepIsGeneric(s.mem, s.xchgLoop, c, LoadWord(s.mem, c.bi));
        WordIsElement(c, LoadWord(s.mem, c.bi));
      }
    } else {
      FallbackSimulates(s, c, pc);
    }
  }

  /** The invariant holds in every state a run can reach. */
  lemma InvPreserved(s: State, l: Label)
    requires Inv(s) && Enabled(s, l)
    ensures Inv(After(s, l))
    ensures |After(s, l).mem| == |s.mem| && |After(s, l).threads| == |s.threads|
  {
    hide Step, Writes, LoadWord, LoadElement, NewElement, Apply;
    if l.Act? {
      StepSimulates(s, s.threads[l.t].call, s.threads[l.t].pc);
    }
  }

  /**
   Memory changes only at effects, and then only in the element; the effect of an undisturbed
   call is what the sequential meaning prescribes.
   */
  lemma EffectSimulates(s: State, l: Label)
    requires Inv(s) && Enabled(s, l)
    ensures match Effect(s, l)
            case None => After(s, l).mem == s.mem
            case Some(ev) =>
              && InBounds(s.mem, ev.call)
              && Aligned(ev.call.bi, ev.call.esize)
              && OnlyElementChanged(s.mem, After(s, l).mem, ev.call)
              && (Undisturbed(s, ev.call) ==>
                    After(s, l).mem == Apply(s.mem, ev.call).0
                    && ev.result == Observed(ev.call, Apply(s.mem, ev.call).1))
  {
    hide Step, Writes, LoadWord, LoadElement, NewElement, Apply, Observed;
    if l.Act? {
      StepSimulates(s, s.threads[l.t].call, s.threads[l.t].pc);
    }
  }
}
