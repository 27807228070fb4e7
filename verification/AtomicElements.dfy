/**
 Elements of 1, 2 or 4 bytes inside a shared byte buffer, and what one Atomics
 operation means for them.  `Apply` is the sequential meaning: it reads and writes
 only the bytes of the element.  The C code reads and writes the aligned 32-bit word
 around the element instead; `WordViewOfElement` connects the two views.
 */
module AtomicElements {

  type Memory = seq<bv8>

  datatype Op = Add | Sub | And | Or | Xor | Exchange | CompareExchange | Load | Store

  /** One call of `atomics_cas_apply`: byte index, element size, operation, operands. */
  datatype Call = Call(bi: nat, esize: nat, op: Op, v: bv32, e: bv32)

  predicate ElementSize(esize: nat) {
    esize == 1 || esize == 2 || esize == 4
  }

  function Mask(esize: nat): bv32
    requires ElementSize(esize)
  {
    if esize == 1 then 0xFF else if esize == 2 then 0xFFFF else 0xFFFF_FFFF
  }

  function BitAnd(x: bv32, y: bv32): bv32 {
    x & y
  }

  /** The low bytes of a word that fit the element. */
  function Truncate(x: bv32, esize: nat): bv32
    requires ElementSize(esize)
  {
    BitAnd(x, Mask(esize))
  }

  /** New element value, and whether it has to be stored at all. */
  function ApplyOp(op: Op, cur: bv32, v: bv32, e: bv32): (bv32, bool) {
    match op
    case Add => (cur + v, true)
    case Sub => (cur - v, true)
    case And => (cur & v, true)
    case Or => (cur | v, true)
    case Xor => (cur ^ v, true)
    case Exchange => (v, true)
    case CompareExchange => if cur != e then (cur, false) else (v, true)
    case Load => (cur, false)
    case Store => (v, true)
  }

  /** Byte `k` of a word, least significant first. */
  function Byte(x: bv32, k: nat): bv8
    requires k < 4
  {
    if k == 0 then (x & 0xFF) as bv8
    else if k == 1 then ((x >> 8) & 0xFF) as bv8
    else if k == 2 then ((x >> 16) & 0xFF) as bv8
    else ((x >> 24) & 0xFF) as bv8
  }

  function Compose(b0: bv8, b1: bv8, b2: bv8, b3: bv8): bv32 {
    b0 as bv32 | (b1 as bv32 << 8) | (b2 as bv32 << 16) | (b3 as bv32 << 24)
  }

  /** Little-endian, zero-extended value of the element at byte index `bi`. */
  function LoadElement(mem: Memory, bi: nat, esize: nat): bv32
    requires ElementSize(esize) && bi + esize <= |mem|
  {
    if esize == 1 then Compose(mem[bi], 0, 0, 0)
    else if esize == 2 then Compose(mem[bi], mem[bi + 1], 0, 0)
    else Compose(mem[bi], mem[bi + 1], mem[bi + 2], mem[bi + 3])
  }

  /** The bytes of an element value, in memory order. */
  function ElementBytes(x: bv32, esize: nat): (bs: seq<bv8>)
    requires ElementSize(esize)
    ensures |bs| == esize
  {
    if esize == 1 then [Byte(x, 0)]
    else if esize == 2 then [Byte(x, 0), Byte(x, 1)]
    else [Byte(x, 0), Byte(x, 1), Byte(x, 2), Byte(x, 3)]
  }

  function StoreElement(mem: Memory, bi: nat, esize: nat, x: bv32): (mem': Memory)
    requires ElementSize(esize) && bi + esize <= |mem|
    ensures |mem'| == |mem|
    ensures forall i :: 0 <= i < |mem| && !(bi <= i < bi + esize) ==> mem'[i] == mem[i]
  {
    mem[..bi] + ElementBytes(x, esize) + mem[bi + esize..]
  }

  predicate InBounds(mem: Memory, c: Call) {
    ElementSize(c.esize) && c.bi + c.esize <= |mem|
  }

  /** The sequential meaning of a call: memory after it, and the old element value. */
  function Apply(mem: Memory, c: Call): (r: (Memory, bv32))
    requires InBounds(mem, c)
    ensures |r.0| == |mem|
    ensures forall i :: 0 <= i < |mem| && !(c.bi <= i < c.bi + c.esize) ==> r.0[i] == mem[i]
  {
    var cur := LoadElement(mem, c.bi, c.esize);
    var (x, write) := ApplyOp(c.op, cur, Truncate(c.v, c.esize), Truncate(c.e, c.esize));
    (if write then StoreElement(mem, c.bi, c.esize, Truncate(x, c.esize)) else mem, cur)
  }

  /** What `atomics_op` hands to the caller: stores report the stored value. */
  function Observed(c: Call, raw: bv32): bv32
    requires ElementSize(c.esize)
  {
    if c.op == Store then Truncate(c.v, c.esize) else raw
  }

  // ---- The word around an element -------------------------------------------------

  function WordOffset(bi: nat): nat {
    bi - bi % 4
  }

  predicate Aligned(bi: nat, esize: nat)
    requires ElementSize(esize)
  {
    bi % esize == 0
  }

  /** Bit position of the element inside its word: eight times the byte offset. */
  function Shift(bi: nat): (s: bv6)
    ensures s <= 24
  {
    if bi % 4 == 0 then 0 else if bi % 4 == 1 then 8 else if bi % 4 == 2 then 16 else 24
  }

  function LoadWord(mem: Memory, bi: nat): bv32
    requires WordOffset(bi) + 4 <= |mem|
  {
    LoadElement(mem, WordOffset(bi), 4)
  }

  function StoreWord(mem: Memory, bi: nat, w: bv32): Memory
    requires WordOffset(bi) + 4 <= |mem|
  {
    StoreElement(mem, WordOffset(bi), 4, w)
  }

  function ExtractBits(word: bv32, mask: bv32, shift: bv6): bv32
    requires shift <= 24
  {
    (word >> shift) & mask
  }

  function MergeBits(word: bv32, mask: bv32, shift: bv6, x: bv32): bv32
    requires shift <= 24
  {
    (word & !(mask << shift)) | (x << shift)
  }

  function Extract(word: bv32, bi: nat, esize: nat): bv32
    requires ElementSize(esize)
  {
    ExtractBits(word, Mask(esize), Shift(bi))
  }

  function Merge(word: bv32, bi: nat, esize: nat, x: bv32): bv32
    requires ElementSize(esize)
  {
    MergeBits(word, Mask(esize), Shift(bi), x)
  }

  // ---- Bit facts -------------------------------------------------------------------

  lemma BytesOfWord(b0: bv8, b1: bv8, b2: bv8, b3: bv8)
    ensures Byte(Compose(b0, b1, b2, b3), 0) == b0
    ensures Byte(Compose(b0, b1, b2, b3), 1) == b1
    ensures Byte(Compose(b0, b1, b2, b3), 2) == b2
    ensures Byte(Compose(b0, b1, b2, b3), 3) == b3
  {
  }

  lemma TruncateTwice(x: bv32, esize: nat)
    requires ElementSize(esize)
    ensures Truncate(Truncate(x, esize), esize) == Truncate(x, esize)
  {
  }

  lemma ByteOfWord(x: bv32)
    ensures Compose(Byte(x, 0), 0, 0, 0) == Truncate(x, 1)
  {
  }

  lemma HalfOfWord(x: bv32)
    ensures Compose(Byte(x, 0), Byte(x, 1), 0, 0) == Truncate(x, 2)
  {
  }

  lemma WordOfBytes(x: bv32)
    ensures Compose(Byte(x, 0), Byte(x, 1), Byte(x, 2), Byte(x, 3)) == x
  {
  }

  lemma ByteLane0(b0: bv8, b1: bv8, b2: bv8, b3: bv8, x: bv8)
    ensures ExtractBits(Compose(b0, b1, b2, b3), 0xFF, 0) == Compose(b0, 0, 0, 0)
    ensures MergeBits(Compose(b0, b1, b2, b3), 0xFF, 0, Compose(x, 0, 0, 0)) == Compose(x, b1, b2, b3)
  {
  }

  lemma ByteLane1(b0: bv8, b1: bv8, b2: bv8, b3: bv8, x: bv8)
    ensures ExtractBits(Compose(b0, b1, b2, b3), 0xFF, 8) == Compose(b1, 0, 0, 0)
    ensures MergeBits(Compose(b0, b1, b2, b3), 0xFF, 8, Compose(x, 0, 0, 0)) == Compose(b0, x, b2, b3)
  {
  }

  lemma ByteLane2(b0: bv8, b1: bv8, b2: bv8, b3: bv8, x: bv8)
    ensures ExtractBits(Compose(b0, b1, b2, b3), 0xFF, 16) == Compose(b2, 0, 0, 0)
    ensures MergeBits(Compose(b0, b1, b2, b3), 0xFF, 16, Compose(x, 0, 0, 0)) == Compose(b0, b1, x, b3)
  {
  }

  lemma ByteLane3(b0: bv8, b1: bv8, b2: bv8, b3: bv8, x: bv8)
    ensures ExtractBits(Compose(b0, b1, b2, b3), 0xFF, 24) == Compose(b3, 0, 0, 0)
    ensures MergeBits(Compose(b0, b1, b2, b3), 0xFF, 24, Compose(x, 0, 0, 0)) == Compose(b0, b1, b2, x)
  {
  }

  lemma HalfLane0(b0: bv8, b1: bv8, b2: bv8, b3: bv8, x: bv8, y: bv8)
    ensures ExtractBits(Compose(b0, b1, b2, b3), 0xFFFF, 0) == Compose(b0, b1, 0, 0)
    ensures MergeBits(Compose(b0, b1, b2, b3), 0xFFFF, 0, Compose(x, y, 0, 0)) == Compose(x, y, b2, b3)
  {
  }

  lemma HalfLane2(b0: bv8, b1: bv8, b2: bv8, b3: bv8, x: bv8, y: bv8)
    ensures ExtractBits(Compose(b0, b1, b2, b3), 0xFFFF, 16) == Compose(b2, b3, 0, 0)
    ensures MergeBits(Compose(b0, b1, b2, b3), 0xFFFF, 16, Compose(x, y, 0, 0)) == Compose(b0, b1, x, y)
  {
  }

  lemma WholeLane(w: bv32, x: bv32)
    ensures ExtractBits(w, 0xFFFF_FFFF, 0) == w
    ensures MergeBits(w, 0xFFFF_FFFF, 0, x) == x
  {
  }

  // ---- Loads, stores and words -----------------------------------------------------

  lemma StoreThenLoad(mem: Memory, bi: nat, esize: nat, x: bv32)
    requires ElementSize(esize) && bi + esize <= |mem|
    requires Truncate(x, esize) == x
    ensures LoadElement(StoreElement(mem, bi, esize, x), bi, esize) == x
  {
    if esize == 1 {
      ByteOfWord(x);
    } else if esize == 2 {
      HalfOfWord(x);
    } else {
      WordOfBytes(x);
    }
  }

  lemma LoadThenStore(mem: Memory, bi: nat, esize: nat)
    requires ElementSize(esize) && bi + esize <= |mem|
    ensures StoreElement(mem, bi, esize, LoadElement(mem, bi, esize)) == mem
  {
    if esize == 1 {
      BytesOfWord(mem[bi], 0, 0, 0);
    } else if esize == 2 {
      BytesOfWord(mem[bi], mem[bi + 1], 0, 0);
    } else {
      BytesOfWord(mem[bi], mem[bi + 1], mem[bi + 2], mem[bi + 3]);
    }
  }

  /** Storing a word puts the four bytes it is composed of. */
  lemma StoreWordOf(mem: Memory, mem': Memory, bi: nat)
    requires WordOffset(bi) + 4 <= |mem| == |mem'|
    requires forall i :: 0 <= i < |mem| && !(WordOffset(bi) <= i < WordOffset(bi) + 4) ==> mem'[i] == mem[i]
    ensures StoreWord(mem, bi, LoadWord(mem', bi)) == mem'
  {
    var o := WordOffset(bi);
    BytesOfWord(mem'[o], mem'[o + 1], mem'[o + 2], mem'[o + 3]);
  }

  lemma WordInWord(mem: Memory, bi: nat, x: bv32)
    requires bi % 4 == 0 && bi + 4 <= |mem|
    ensures Extract(LoadWord(mem, bi), bi, 4) == LoadElement(mem, bi, 4)
    ensures StoreWord(mem, bi, Merge(LoadWord(mem, bi), bi, 4, x)) == StoreElement(mem, bi, 4, x)
  {
    hide ExtractBits, MergeBits;
    WholeLane(LoadWord(mem, bi), x);
  }

  lemma ByteInWord(mem: Memory, bi: nat, x: bv8)
    requires WordOffset(bi) + 4 <= |mem|
    ensures Extract(LoadWord(mem, bi), bi, 1) == Compose(mem[bi], 0, 0, 0)
    ensures Merge(LoadWord(mem, bi), bi, 1, Compose(x, 0, 0, 0)) == LoadWord(mem[bi := x], bi)
  {
    hide Compose, ExtractBits, MergeBits;
    var o := WordOffset(bi);
    var b0, b1, b2, b3 := mem[o], mem[o + 1], mem[o + 2], mem[o + 3];
    if bi == o {
      ByteLane0(b0, b1, b2, b3, x);
    } else if bi == o + 1 {
      ByteLane1(b0, b1, b2, b3, x);
    } else if bi == o + 2 {
      ByteLane2(b0, b1, b2, b3, x);
    } else {
      ByteLane3(b0, b1, b2, b3, x);
    }
  }

  lemma HalfInWord(mem: Memory, bi: nat, x: bv8, y: bv8)
    requires bi % 2 == 0 && WordOffset(bi) + 4 <= |mem|
    ensures Extract(LoadWord(mem, bi), bi, 2) == Compose(mem[bi], mem[bi + 1], 0, 0)
    ensures Merge(LoadWord(mem, bi), bi, 2, Compose(x, y, 0, 0)) == LoadWord(mem[bi := x][bi + 1 := y], bi)
  {
    hide Compose, ExtractBits, MergeBits;
    var o := WordOffset(bi);
    var b0, b1, b2, b3 := mem[o], mem[o + 1], mem[o + 2], mem[o + 3];
    if bi == o {
      HalfLane0(b0, b1, b2, b3, x, y);
    } else {
      HalfLane2(b0, b1, b2, b3, x, y);
    }
  }

  /** An aligned element lies inside its word. */
  lemma InsideWord(bi: nat, esize: nat)
    requires ElementSize(esize) && Aligned(bi, esize)
    ensures WordOffset(bi) <= bi && bi + esize <= WordOffset(bi) + 4
  {
  }

  lemma ByteView(mem: Memory, bi: nat, x: bv32)
    requires WordOffset(bi) + 4 <= |mem| && Truncate(x, 1) == x
    ensures Extract(LoadWord(mem, bi), bi, 1) == LoadElement(mem, bi, 1)
    ensures StoreWord(mem, bi, Merge(LoadWord(mem, bi), bi, 1, x)) == StoreElement(mem, bi, 1, x)
  {
    InsideWord(bi, 1);
    hide Compose, Byte, Extract, Merge, StoreWord, LoadWord, Truncate, WordOffset;
    ByteOfWord(x);
    ByteInWord(mem, bi, Byte(x, 0));
    StoreWordOf(mem, mem[bi := Byte(x, 0)], bi);
  }

  lemma HalfView(mem: Memory, bi: nat, x: bv32)
    requires bi % 2 == 0 && WordOffset(bi) + 4 <= |mem| && Truncate(x, 2) == x
    ensures Extract(LoadWord(mem, bi), bi, 2) == LoadElement(mem, bi, 2)
    ensures StoreWord(mem, bi, Merge(LoadWord(mem, bi), bi, 2, x)) == StoreElement(mem, bi, 2, x)
  {
    InsideWord(bi, 2);
    hide Compose, Byte, Extract, Merge, StoreWord, LoadWord, Truncate, WordOffset;
    HalfOfWord(x);
    HalfInWord(mem, bi, Byte(x, 0), Byte(x, 1));
    StoreWordOf(mem, mem[bi := Byte(x, 0)][bi + 1 := Byte(x, 1)], bi);
  }

  /**
   Reading the element out of its word and merging a new value into it is the same as
   reading and writing the element's own bytes; the other bytes of the word are kept.
   */
  lemma WordViewOfElement(mem: Memory, bi: nat, esize: nat, x: bv32)
    requires ElementSize(esize) && Aligned(bi, esize) && WordOffset(bi) + 4 <= |mem|
    requires Truncate(x, esize) == x
    ensures bi + esize <= WordOffset(bi) + 4
    ensures Extract(LoadWord(mem, bi), bi, esize) == LoadElement(mem, bi, esize)
    ensures StoreWord(mem, bi, Merge(LoadWord(mem, bi), bi, esize, x)) == StoreElement(mem, bi, esize, x)
  {
    InsideWord(bi, esize);
    hide Extract, Merge, StoreWord, LoadWord, StoreElement, LoadElement, Truncate, WordOffset;
    if esize == 1 {
      ByteView(mem, bi, x);
    } else if esize == 2 {
      HalfView(mem, bi, x);
    } else {
      WordInWord(mem, bi, x);
    }
  }
}
