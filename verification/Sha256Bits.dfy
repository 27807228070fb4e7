/** The functions on words of section 4.1.2 of FIPS 180-4, bit by bit. */
module Sha256Bits {
  import opened Sha256
  import opened WordBits

  /** The place from which a rotation to the right by `n` takes the bit for `k`. */
  function Turned(k: bv6, n: bv6): (r: bv6)
    requires k < 32 && n < 32
    ensures r < 32
  {
    if k + n < 32 then k + n else k + n - 32
  }

  lemma RotrIs(x: Word, n: bv6)
    requires 0 < n < 32
    ensures Rotr(x, n) == Either(Down(x, n), Up(x, 32 - n))
  {
  }

  lemma RotrBit(x: Word, n: bv6, k: bv6)
    requires 0 < n < 32 && k < 32
    ensures Bit(Rotr(x, n), k) == Bit(x, Turned(k, n))
  {
    hide Bit, Rotr, Either, Down, Up;
    RotrIs(x, n);
    EitherBit(Down(x, n), Up(x, 32 - n), k);
    DownBits(x, n, k);
    UpBits(x, 32 - n, k);
  }

  /** Where a bit of `x` is set, that of `y` is chosen, otherwise that of `z`. */
  lemma ChBit(x: Word, y: Word, z: Word, k: bv6)
    requires k < 32
    ensures Bit(Ch(x, y, z), k) == if Bit(x, k) then Bit(y, k) else Bit(z, k)
  {
    hide Bit;
    ChosenBit(x, y, z, k);
  }

  lemma MajBit(x: Word, y: Word, z: Word, k: bv6)
    requires k < 32
    ensures Bit(Maj(x, y, z), k) == Most(Bit(x, k), Bit(y, k), Bit(z, k))
  {
    hide Bit;
    MostBit(x, y, z, k);
  }

  lemma Ep0Is(x: Word)
    ensures Ep0(x) == Odds(Rotr(x, 2), Rotr(x, 13), Rotr(x, 22))
  {
    hide Rotr;
  }

  /** A bit of the result is set when an odd number of the three bits is. */
  lemma Ep0Bit(x: Word, k: bv6)
    requires k < 32
    ensures Bit(Ep0(x), k) == Odd(Bit(x, Turned(k, 2)), Bit(x, Turned(k, 13)), Bit(x, Turned(k, 22)))
  {
    hide *;
    Ep0Is(x);
    OddsBit(Rotr(x, 2), Rotr(x, 13), Rotr(x, 22), k);
    RotrBit(x, 2, k);
    RotrBit(x, 13, k);
    RotrBit(x, 22, k);
  }

  lemma Ep1Is(x: Word)
    ensures Ep1(x) == Odds(Rotr(x, 6), Rotr(x, 11), Rotr(x, 25))
  {
    hide Rotr;
  }

  lemma Ep1Bit(x: Word, k: bv6)
    requires k < 32
    ensures Bit(Ep1(x), k) == Odd(Bit(x, Turned(k, 6)), Bit(x, Turned(k, 11)), Bit(x, Turned(k, 25)))
  {
    hide *;
    Ep1Is(x);
    OddsBit(Rotr(x, 6), Rotr(x, 11), Rotr(x, 25), k);
    RotrBit(x, 6, k);
    RotrBit(x, 11, k);
    RotrBit(x, 25, k);
  }

  lemma Sig0Plain(x: Word)
    ensures Sig0(x) == Odds(Rotr(x, 7), Rotr(x, 18), x >> 3)
  {
    hide Rotr;
  }

  lemma Sig0Is(x: Word)
    ensures Sig0(x) == Odds(Rotr(x, 7), Rotr(x, 18), Down(x, 3))
  {
    hide *;
    Sig0Plain(x);
    ShiftIs(x, 3);
  }

  /** Bits shifted in are clear. */
  lemma Sig0Bit(x: Word, k: bv6)
    requires k < 32
    ensures Bit(Sig0(x), k) == Odd(Bit(x, Turned(k, 7)), Bit(x, Turned(k, 18)), k + 3 < 32 && Bit(x, k + 3))
  {
    hide *;
    Sig0Is(x);
    OddsBit(Rotr(x, 7), Rotr(x, 18), Down(x, 3), k);
    RotrBit(x, 7, k);
    RotrBit(x, 18, k);
    DownBits(x, 3, k);
  }

  lemma Sig1Plain(x: Word)
    ensures Sig1(x) == Odds(Rotr(x, 17), Rotr(x, 19), x >> 10)
  {
    hide Rotr;
  }

  lemma Sig1Is(x: Word)
    ensures Sig1(x) == Odds(Rotr(x, 17), Rotr(x, 19), Down(x, 10))
  {
    hide *;
    Sig1Plain(x);
    ShiftIs(x, 10);
  }

  lemma Sig1Bit(x: Word, k: bv6)
    requires k < 32
    ensures Bit(Sig1(x), k) == Odd(Bit(x, Turned(k, 17)), Bit(x, Turned(k, 19)), k + 10 < 32 && Bit(x, k + 10))
  {
    hide *;
    Sig1Is(x);
    OddsBit(Rotr(x, 17), Rotr(x, 19), Down(x, 10), k);
    RotrBit(x, 17, k);
    RotrBit(x, 19, k);
    DownBits(x, 10, k);
  }
}
