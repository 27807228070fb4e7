/** What and, or and xor leave in an element, bit by bit. */
module AtomicBits {
  import opened AtomicElements
  import opened AtomicMachine
  import opened WordBits

  /** How many bits an element has. */
  function Width(esize: nat): (w: bv6)
    requires ElementSize(esize)
    ensures w <= 32 && w as int == 8 * esize
  {
    if esize == 1 then 8 else if esize == 2 then 16 else 32
  }

  lemma AndOpBit(x: bv32, y: bv32, e: bv32, k: bv6)
    requires k < 32
    ensures ApplyOp(And, x, y, e).1
    ensures Bit(ApplyOp(And, x, y, e).0, k) == (Bit(x, k) && Bit(y, k))
  {
    hide Bit;
    AndBit(x, y, k);
  }

  lemma OrOpBit(x: bv32, y: bv32, e: bv32, k: bv6)
    requires k < 32
    ensures ApplyOp(Or, x, y, e).1
    ensures Bit(ApplyOp(Or, x, y, e).0, k) == (Bit(x, k) || Bit(y, k))
  {
    hide Bit;
    OrBit(x, y, k);
  }

  lemma XorOpBit(x: bv32, y: bv32, e: bv32, k: bv6)
    requires k < 32
    ensures ApplyOp(Xor, x, y, e).1
    ensures Bit(ApplyOp(Xor, x, y, e).0, k) == (Bit(x, k) != Bit(y, k))
  {
    hide Bit;
    XorBit(x, y, k);
  }

  lemma ByteBit(x: bv32, k: bv6)
    requires k < 8
    ensures Bit(BitAnd(x, 0xFF), k) == Bit(x, k)
  {
  }

  lemma HalfBit(x: bv32, k: bv6)
    requires k < 16
    ensures Bit(BitAnd(x, 0xFFFF), k) == Bit(x, k)
  {
  }

  /** Masking keeps the bits inside the element. */
  lemma KeptBit(x: bv32, esize: nat, k: bv6)
    requires ElementSize(esize) && k < Width(esize)
    ensures Bit(Truncate(x, esize), k) == Bit(x, k)
  {
    hide Bit, BitAnd;
    if esize == 1 {
      ByteBit(x, k);
    } else if esize == 2 {
      HalfBit(x, k);
    } else {
      FullWidth(x);
    }
  }

  /** Each bit of the new value is made of the bits in its place. */
  lemma OpBit(op: Op, x: bv32, y: bv32, e: bv32, k: bv6)
    requires op in {And, Or, Xor} && k < 32
    ensures ApplyOp(op, x, y, e).1
    ensures op == And ==> Bit(ApplyOp(op, x, y, e).0, k) == (Bit(x, k) && Bit(y, k))
    ensures op == Or ==> Bit(ApplyOp(op, x, y, e).0, k) == (Bit(x, k) || Bit(y, k))
    ensures op == Xor ==> Bit(ApplyOp(op, x, y, e).0, k) == (Bit(x, k) != Bit(y, k))
  {
    hide Bit, ApplyOp;
    if op == And {
      AndOpBit(x, y, e, k);
    } else if op == Or {
      OrOpBit(x, y, e, k);
    } else {
      XorOpBit(x, y, e, k);
    }
  }

  /** Exactly the bits set in both, in one of them, or in one alone are set in the element afterwards. */
  lemma BitsCombined(mem: Memory, c: Call, k: bv6)
    requires InBounds(mem, c) && c.op in {And, Or, Xor} && k < Width(c.esize)
    ensures var before := Bit(LoadElement(mem, c.bi, c.esize), k);
            var after := Bit(LoadElement(Apply(mem, c).0, c.bi, c.esize), k);
            && (c.op == And ==> after == (before && Bit(c.v, k)))
            && (c.op == Or ==> after == (before || Bit(c.v, k)))
            && (c.op == Xor ==> after == (before != Bit(c.v, k)))
  {
    hide Bit, Truncate, ApplyOp, LoadElement, StoreElement;
    var cur := LoadElement(mem, c.bi, c.esize);
    var v, e := Truncate(c.v, c.esize), Truncate(c.e, c.esize);
    var x := ApplyOp(c.op, cur, v, e).0;
    OpBit(c.op, cur, v, e, k);
    KeptBit(x, c.esize, k);
    KeptBit(c.v, c.esize, k);
    TruncateTwice(x, c.esize);
    StoreThenLoad(mem, c.bi, c.esize, Truncate(x, c.esize));
  }

  /**
   The other calls: a load leaves the element, a store and an exchange leave the operand cut to its
   size, and so does a compare-exchange exactly when the element is the expected value cut to its size.
   Each reports the element as it was before.
   */
  lemma ValueStored(mem: Memory, c: Call)
    requires InBounds(mem, c) && c.op in {Load, Store, Exchange, CompareExchange}
    ensures var before := LoadElement(mem, c.bi, c.esize);
            var after := LoadElement(Apply(mem, c).0, c.bi, c.esize);
            && Apply(mem, c).1 == before
            && (c.op == Load ==> after == before)
            && (c.op in {Store, Exchange} ==> after == Truncate(c.v, c.esize))
            && (c.op == CompareExchange ==>
              after == if before == Truncate(c.e, c.esize) then Truncate(c.v, c.esize) else before)
  {
    hide Truncate, ApplyOp, LoadElement, StoreElement;
    var cur := LoadElement(mem, c.bi, c.esize);
    var v, e := Truncate(c.v, c.esize), Truncate(c.e, c.esize);
    ApplyOpDecides(c.op, cur, v, e);
    TruncateTwice(c.v, c.esize);
    StoreThenLoad(mem, c.bi, c.esize, v);
  }

  /** The element at byte index 1 holds 12; and with 10 leaves 8, or 14, xor 6. */
  lemma TwelveAndTen()
    ensures LoadElement(Apply([0, 12, 0], Call(1, 1, And, 10, 0)).0, 1, 1) == 8
    ensures LoadElement(Apply([0, 12, 0], Call(1, 1, Or, 10, 0)).0, 1, 1) == 14
    ensures LoadElement(Apply([0, 12, 0], Call(1, 1, Xor, 10, 0)).0, 1, 1) == 6
  {
  }

  /** The first byte in memory is the lowest of the value. */
  lemma LowByteFirst()
    ensures LoadElement([1, 2, 3, 4], 0, 4) == 0x0403_0201
    ensures LoadElement([1, 2, 3, 4], 1, 2) == 0x0302
  {
  }
}
