/**
 `atomics_cas_apply` and `atomics_op` running alone, as code over a byte buffer: the plain
 path, the 4-byte primitives, the masked-word loop and the byte-wise fallback.
 */
module AtomicPaths {
  import opened Wrappers
  import opened AtomicElements
  import opened AtomicMachine

  // ---- Primitives on the word around a byte index -------------------------------------

  method ReadWord(base: array<bv8>, bi: nat) returns (w: bv32)
    requires WordOffset(bi) + 4 <= base.Length
    ensures w == LoadWord(base[..], bi)
  {
    hide Compose;
    var o := WordOffset(bi);
    w := Compose(base[o], base[o + 1], base[o + 2], base[o + 3]);
  }

  method WriteBytes(base: array<bv8>, at: nat, bytes: seq<bv8>)
    requires at + |bytes| <= base.Length
    modifies base
    ensures base[..] == old(base[..at]) + bytes + old(base[at + |bytes|..])
  {
    for i := 0 to |bytes|
      invariant base[..] == old(base[..at]) + bytes[..i] + old(base[at + i..])
    {
      base[at + i] := bytes[i];
    }
  }

  method WriteWord(base: array<bv8>, bi: nat, w: bv32)
    requires WordOffset(bi) + 4 <= base.Length
    modifies base
    ensures base[..] == StoreWord(old(base[..]), bi, w)
  {
    hide Byte;
    var o := WordOffset(bi);
    WriteBytes(base, o, ElementBytes(w, 4));
    assert old(base[..o]) == old(base[..])[..o] && old(base[o + 4..]) == old(base[..])[o + 4..];
  }

  /** `lr_atomic_cas_32`: stores `desired` when the word is `expected`; returns the word it found. */
  method CompareAndSwap(base: array<bv8>, bi: nat, expected: bv32, desired: bv32) returns (found: bv32)
    requires WordOffset(bi) + 4 <= base.Length
    modifies base
    ensures found == LoadWord(old(base[..]), bi)
    ensures base[..] == if found == expected then StoreWord(old(base[..]), bi, desired) else old(base[..])
  {
    hide StoreWord, LoadWord;
    found := ReadWord(base, bi);
    if found == expected {
      WriteWord(base, bi, desired);
    }
  }

  // ---- The paths ---------------------------------------------------------------------

  /** Load, compute and compare-and-swap until the swap succeeds. */
  method SwapLoop(base: array<bv8>, c: Call) returns (raw: bv32)
    requires CallOk(base[..], c)
    modifies base
    ensures base[..] == Apply(old(base[..]), c).0
    ensures raw == Apply(old(base[..]), c).1
  {
    hide Extract, NewElement, Merge, StoreWord, LoadWord, Apply;
    NewWordIsApply(base[..], c);
    var done := false;
    raw := 0;
    while !done
      invariant !done ==> base[..] == old(base[..])
      invariant done ==> base[..] == Apply(old(base[..]), c).0 && raw == Apply(old(base[..]), c).1
      decreases !done
    {
      var word := ReadWord(base, c.bi);
      raw := Extract(word, c.bi, c.esize);
      var (x, write) := NewElement(c, raw);
      if !write {
        done := true;
      } else {
        var found := CompareAndSwap(base, c.bi, word, Merge(word, c.bi, c.esize, x));
        done := found == word;
      }
    }
  }

  /** The new word of the 4-byte loops, computed on the word itself. */
  function LoopWord(op: Op, word: bv32, v: bv32): bv32
    requires op in {And, Or, Xor, Exchange}
  {
    match op
    case And => word & v
    case Or => word | v
    case Xor => word ^ v
    case Exchange => v
  }

  lemma LoopWordIsApplyOp(op: Op, word: bv32, v: bv32, e: bv32)
    requires op in {And, Or, Xor, Exchange}
    ensures ApplyOp(op, word, v, e) == (LoopWord(op, word, v), true)
  {
    match op
    case And =>
    case Or =>
    case Xor =>
    case Exchange =>
  }

  /** The 4-byte loops of and, or and xor, and of the exchange primitive where it is a loop. */
  method WordLoop(base: array<bv8>, c: Call) returns (raw: bv32)
    requires CallOk(base[..], c) && c.esize == 4 && c.op in {And, Or, Xor, Exchange}
    modifies base
    ensures base[..] == Apply(old(base[..]), c).0
    ensures raw == Apply(old(base[..]), c).1
  {
    hide Extract, NewElement, NewWord, Merge, StoreWord, LoadWord, Apply, ApplyOp, LoopWord, Truncate;
    var v := Truncate(c.v, 4);
    ghost var word := LoadWord(base[..], c.bi);
    NewWordIsApply(base[..], c);
    WordIsElement(c, word);
    LoopWordIsApplyOp(c.op, word, v, Truncate(c.e, 4));
    var done := false;
    raw := 0;
    while !done
      invariant !done ==> base[..] == old(base[..])
      invariant done ==> base[..] == Apply(old(base[..]), c).0 && raw == word
      decreases !done
    {
      raw := ReadWord(base, c.bi);
      var found := CompareAndSwap(base, c.bi, raw, LoopWord(c.op, raw, v));
      done := found == raw;
    }
  }

  /** The switch over the 4-byte primitives. */
  method WordPrimitive(base: array<bv8>, c: Call, xchgLoop: bool) returns (raw: bv32)
    requires CallOk(base[..], c) && c.esize == 4
    modifies base
    ensures base[..] == Apply(old(base[..]), c).0
    ensures Observed(c, raw) == Observed(c, Apply(old(base[..]), c).1)
  {
    if c.op in {And, Or, Xor} || (c.op == Exchange && xchgLoop) {
      raw := WordLoop(base, c);
    } else {
      raw := WordInstruction(base, c);
    }
  }

  method WordInstruction(base: array<bv8>, c: Call) returns (raw: bv32)
    requires CallOk(base[..], c) && c.esize == 4 && c.op !in {And, Or, Xor}
    modifies base
    ensures base[..] == Apply(old(base[..]), c).0
    ensures Observed(c, raw) == Observed(c, Apply(old(base[..]), c).1)
  {
    hide Extract, NewElement, Merge, StoreWord, LoadWord, Apply, Truncate, ApplyOp, Plus, PlusNegated;
    var word := ReadWord(base, c.bi);
    var v, e := Truncate(c.v, 4), Truncate(c.e, 4);
    NewWordIsApply(base[..], c);
    WordIsElement(c, word);
    FetchAddIsApplyOp(word, v, e);
    ApplyOpDecides(c.op, word, v, e);
    raw := word;
    match c.op
    case Load =>
    case Add => WriteWord(base, c.bi, Plus(word, v));
    case Sub => WriteWord(base, c.bi, PlusNegated(word, v));
    case Exchange => WriteWord(base, c.bi, v);
    case CompareExchange => raw := CompareAndSwap(base, c.bi, e, v);
    case Store =>
      WriteWord(base, c.bi, v);
      raw := v;
  }

  /** Read the element's own bytes, and write them back when the operation stores. */
  method ByteFallback(base: array<bv8>, c: Call) returns (raw: bv32)
    requires InBounds(base[..], c)
    modifies base
    ensures base[..] == Apply(old(base[..]), c).0
    ensures raw == Apply(old(base[..]), c).1
  {
    hide Compose, Byte, Truncate, ApplyOp;
    raw := LoadElement(base[..], c.bi, c.esize);
    var (x, write) := NewElement(c, raw);
    if write {
      WriteBytes(base, c.bi, ElementBytes(x, c.esize));
    }
  }

  /**
   `atomics_cas_apply`.  Whatever path is taken, the buffer and the value reported to the
   caller are those of the sequential meaning: the choice of path cannot be observed.
   */
  method CasApply(base: array<bv8>, c: Call, workers: bool, xchgLoop: bool) returns (raw: bv32)
    requires InBounds(base[..], c)
    modifies base
    ensures base[..] == Apply(old(base[..]), c).0
    ensures Observed(c, raw) == Observed(c, Apply(old(base[..]), c).1)
  {
    hide Extract, Merge, StoreWord, LoadWord, Apply, NewElement, NewWord;
    if Aligned(c.bi, c.esize) && WordOffset(c.bi) + 4 <= base.Length {
      NewWordIsApply(base[..], c);
      if !workers {
        var word := ReadWord(base, c.bi);
        raw := Extract(word, c.bi, c.esize);
        if NewElement(c, raw).1 {
          WriteWord(base, c.bi, NewWord(c, word));
        }
      } else if c.esize == 4 {
        raw := WordPrimitive(base, c, xchgLoop);
      } else {
        raw := SwapLoop(base, c);
      }
    } else {
      raw := ByteFallback(base, c);
    }
  }

  // ---- atomics_op ---------------------------------------------------------------------

  datatype ArrayKind =
    | Uint8 | Int8 | Uint16 | Int16 | Uint32 | Int32
    | Float32 | Float64 | BigUint64 | BigInt64

  /** A view of `byteLength` bytes of a buffer, from `byteOffset` on. */
  datatype TypedArray = TypedArray(kind: ArrayKind, byteOffset: nat, byteLength: nat)

  datatype Outcome = TypeError | RangeError | Number(value: int)

  predicate IntegerKind(k: ArrayKind) {
    k.Uint8? || k.Int8? || k.Uint16? || k.Int16? || k.Uint32? || k.Int32?
  }

  function KindSize(k: ArrayKind): (n: nat)
    ensures IntegerKind(k) ==> ElementSize(n)
    ensures n > 0
  {
    if k.Uint8? || k.Int8? then 1
    else if k.Uint16? || k.Int16? then 2
    else if k.Uint32? || k.Int32? || k.Float32? then 4
    else 8
  }

  /** `atomics_result`: the bits of an element as a number of the array's signedness. */
  function Interpreted(k: ArrayKind, n: nat): int {
    match k
    case Int8 => if n % 0x100 >= 0x80 then n % 0x100 - 0x100 else n % 0x100
    case Int16 => if n % 0x1_0000 >= 0x8000 then n % 0x1_0000 - 0x1_0000 else n % 0x1_0000
    case Uint32 => n
    case _ => if n >= 0x8000_0000 then n - 0x1_0000_0000 else n
  }

  function NumberOf(k: ArrayKind, raw: bv32): int {
    Interpreted(k, raw as int)
  }

  /** The number is the element modulo 2^bits, and lies within the range of the kind. */
  predicate Represents(k: ArrayKind, n: int, raw: int) {
    match k
    case Uint8 => n == raw && 0 <= n < 256
    case Int8 => (n == raw || n == raw - 256) && -128 <= n < 128
    case Uint16 => n == raw && 0 <= n < 65536
    case Int16 => (n == raw || n == raw - 65536) && -32768 <= n < 32768
    case Uint32 => n == raw && 0 <= n < 4294967296
    case _ => (n == raw || n == raw - 4294967296) && -2147483648 <= n < 2147483648
  }

  lemma InterpretedFits(k: ArrayKind, raw: nat)
    requires IntegerKind(k)
    requires raw < if KindSize(k) == 1 then 256 else if KindSize(k) == 2 then 65536 else 4294967296
    ensures Represents(k, Interpreted(k, raw), raw)
  {
  }

  lemma SmallWord(x: bv32)
    ensures 0 <= x as int < 4294967296
    ensures x <= 0xFF ==> x as int < 256
    ensures x <= 0xFFFF ==> x as int < 65536
  {
  }

  lemma ElementIsSmall(b0: bv8, b1: bv8, x: bv32)
    ensures Compose(b0, 0, 0, 0) <= 0xFF && Compose(b0, b1, 0, 0) <= 0xFFFF
    ensures Truncate(x, 1) <= 0xFF && Truncate(x, 2) <= 0xFFFF
  {
  }

  /** A loaded element, or a stored value, has no bits beyond its size. */
  lemma ElementFits(mem: Memory, c: Call)
    requires InBounds(mem, c)
    ensures c.esize == 1 ==> LoadElement(mem, c.bi, 1) <= 0xFF && Truncate(c.v, 1) <= 0xFF
    ensures c.esize == 2 ==> LoadElement(mem, c.bi, 2) <= 0xFFFF && Truncate(c.v, 2) <= 0xFFFF
  {
    hide Compose, Truncate;
    ElementIsSmall(mem[c.bi], if c.esize == 1 then 0 else mem[c.bi + 1], c.v);
  }

  lemma ReportedIs(mem: Memory, c: Call)
    requires InBounds(mem, c)
    ensures Observed(c, Apply(mem, c).1)
         == if c.op == Store then Truncate(c.v, c.esize) else LoadElement(mem, c.bi, c.esize)
  {
    hide Truncate, ApplyOp, StoreElement, LoadElement;
  }

  /** What a call on an array of integers reports is the element, or the stored value, as a number of its kind. */
  lemma ReportedFits(k: ArrayKind, mem: Memory, c: Call)
    requires IntegerKind(k) && c.esize == KindSize(k) && InBounds(mem, c)
    ensures var raw := Observed(c, Apply(mem, c).1); Represents(k, NumberOf(k, raw), raw as int)
  {
    hide Interpreted, Represents, Observed, Apply, LoadElement, Truncate;
    var raw := Observed(c, Apply(mem, c).1);
    ReportedIs(mem, c);
    ElementFits(mem, c);
    SmallWord(raw);
    InterpretedFits(k, raw as int);
  }

  /** What a call is made on when the checks of `atomics_prepare` pass. */
  predicate Accepted(target: Option<TypedArray>, index: int, detached: bool) {
    && target.Some? && IntegerKind(target.value.kind)
    && 0 <= index < target.value.byteLength / KindSize(target.value.kind)
    && !detached
  }

  /**
   `atomics_op`: its checks, in the order of the code, and otherwise the sequential meaning of the
   call on the element at `index`.  `target` is `None` for a value that is not a typed array, and
   `base` is null for a detached buffer.
   */
  method AtomicsOp(base: array?<bv8>, target: Option<TypedArray>, index: int, op: Op, v: bv32, e: bv32,
                   workers: bool, xchgLoop: bool) returns (out: Outcome)
    requires base != null && target.Some? ==> target.value.byteOffset + target.value.byteLength <= base.Length
    modifies base
    ensures out.RangeError? <==>
              target.Some? && IntegerKind(target.value.kind)
              && !(0 <= index < target.value.byteLength / KindSize(target.value.kind))
    ensures out.Number? <==> Accepted(target, index, base == null)
    ensures base != null && !out.Number? ==> base[..] == old(base[..])
    ensures out.Number? ==>
              && var ta := target.value;
              && var c := Call(ta.byteOffset + index * KindSize(ta.kind), KindSize(ta.kind), op, v, e);
              && InBounds(old(base[..]), c)
              && base[..] == Apply(old(base[..]), c).0
              && out.value == NumberOf(ta.kind, Observed(c, Apply(old(base[..]), c).1))
  {
    hide Apply, NumberOf, Truncate;
    if target.None? {
      return TypeError;
    }
    var ta := target.value;
    if !IntegerKind(ta.kind) {
      return TypeError;
    }
    var esize := KindSize(ta.kind);
    if index < 0 || index >= ta.byteLength / esize {
      return RangeError;
    }
    if base == null {
      return TypeError;
    }
    IndexInBounds(index, ta.byteLength, esize);
    var c := Call(ta.byteOffset + index * esize, esize, op, v, e);
    var raw := CasApply(base, c, workers, xchgLoop);
    out := Number(NumberOf(ta.kind, if op == Store then Truncate(v, esize) else raw));
  }

  lemma IndexInBounds(index: nat, byteLength: nat, esize: nat)
    requires esize > 0 && index < byteLength / esize
    ensures index * esize + esize <= byteLength
  {
    assert (index + 1) * esize <= byteLength / esize * esize;
  }
}
