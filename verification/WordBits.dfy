/** The bits of a 32-bit word, one at a time. */
module WordBits {

  /** Bit `k` of a word: shifted down, the lowest bit. */
  predicate Bit(x: bv32, k: bv6)
    requires k < 32
  {
    (x >> k) & 1 == 1
  }

  predicate Odd(a: bool, b: bool, c: bool) {
    (a != b) != c
  }

  predicate Most(a: bool, b: bool, c: bool) {
    if a then b || c else b && c
  }

  lemma AndBit(x: bv32, y: bv32, k: bv6)
    requires k < 32
    ensures Bit(x & y, k) == (Bit(x, k) && Bit(y, k))
  {
  }

  lemma OrBit(x: bv32, y: bv32, k: bv6)
    requires k < 32
    ensures Bit(x | y, k) == (Bit(x, k) || Bit(y, k))
  {
  }

  lemma XorBit(x: bv32, y: bv32, k: bv6)
    requires k < 32
    ensures Bit(x ^ y, k) == (Bit(x, k) != Bit(y, k))
  {
  }

  lemma DownBit(x: bv32, n: bv6, k: bv6)
    requires n < 32 && k < 32
    ensures Bit(x >> n, k) == (k + n < 32 && Bit(x, k + n))
  {
  }

  lemma UpBit(x: bv32, n: bv6, k: bv6)
    requires n < 32 && k < 32
    ensures Bit(x << n, k) == (k >= n && Bit(x, k - n))
  {
  }

  lemma OddBit(x: bv32, y: bv32, z: bv32, k: bv6)
    requires k < 32
    ensures Bit(x ^ y ^ z, k) == Odd(Bit(x, k), Bit(y, k), Bit(z, k))
  {
  }

  lemma MostBit(x: bv32, y: bv32, z: bv32, k: bv6)
    requires k < 32
    ensures Bit((x & y) ^ (x & z) ^ (y & z), k) == Most(Bit(x, k), Bit(y, k), Bit(z, k))
  {
  }

  lemma ChosenBit(x: bv32, y: bv32, z: bv32, k: bv6)
    requires k < 32
    ensures Bit((x & y) ^ (!x & z), k) == if Bit(x, k) then Bit(y, k) else Bit(z, k)
  {
  }

  // ---- Operators under names, so that proofs can leave them alone --------------------------------

  function Either(x: bv32, y: bv32): bv32 { x | y }
  function Odds(x: bv32, y: bv32, z: bv32): bv32 { x ^ y ^ z }
  function Down(x: bv32, n: bv6): bv32 requires n < 32 { x >> n }
  function Up(x: bv32, n: bv6): bv32 requires n < 32 { x << n }

  lemma EitherBit(x: bv32, y: bv32, k: bv6)
    requires k < 32
    ensures Bit(Either(x, y), k) == (Bit(x, k) || Bit(y, k))
  {
    hide Bit;
    OrBit(x, y, k);
  }

  lemma OddsBit(x: bv32, y: bv32, z: bv32, k: bv6)
    requires k < 32
    ensures Bit(Odds(x, y, z), k) == Odd(Bit(x, k), Bit(y, k), Bit(z, k))
  {
    hide Bit, Odd;
    OddBit(x, y, z, k);
  }

  lemma DownBits(x: bv32, n: bv6, k: bv6)
    requires n < 32 && k < 32
    ensures Bit(Down(x, n), k) == (k + n < 32 && Bit(x, k + n))
  {
    hide Bit;
    DownBit(x, n, k);
  }

  lemma UpBits(x: bv32, n: bv6, k: bv6)
    requires n < 32 && k < 32
    ensures Bit(Up(x, n), k) == (k >= n && Bit(x, k - n))
  {
    hide Bit;
    UpBit(x, n, k);
  }

  lemma ShiftIs(x: bv32, n: bv6)
    requires n < 32
    ensures Up(x, n) == x << n && Down(x, n) == x >> n
  {
  }
}
