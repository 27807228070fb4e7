/**
 The constants of SHA-256: fractions of the cube roots of the first 64 primes and of the square roots
 of the first eight (sections 4.2.2 and 5.3.3 of FIPS 180-4).
 */
module Sha256Constants {
  import opened Arithmetic
  import opened Sha256

  function Times(a: nat, b: nat): nat {
    a * b
  }

  ghost predicate Prime(n: nat) {
    n >= 2 && forall a: nat, b: nat :: a >= 2 && b >= 2 ==> Times(a, b) != n
  }

  // ---- Primes below 19 * 19, by trial division -------------------------------------------------

  predicate Passes(n: nat) {
    && n >= 2
    && (n % 2 != 0 || n == 2) && (n % 3 != 0 || n == 3) && (n % 5 != 0 || n == 5) && (n % 7 != 0 || n == 7)
    && (n % 11 != 0 || n == 11) && (n % 13 != 0 || n == 13) && (n % 17 != 0 || n == 17)
  }

  lemma PrimePasses(n: nat)
    requires Prime(n)
    ensures Passes(n)
  {
    assert n == Times(2, n / 2) || n % 2 != 0;
    assert n == Times(3, n / 3) || n % 3 != 0;
    assert n == Times(5, n / 5) || n % 5 != 0;
    assert n == Times(7, n / 7) || n % 7 != 0;
    assert n == Times(11, n / 11) || n % 11 != 0;
    assert n == Times(13, n / 13) || n % 13 != 0;
    assert n == Times(17, n / 17) || n % 17 != 0;
  }

  function SmallFactor(s: nat): (r: nat)
    requires 2 <= s <= 18
    ensures r in {2, 3, 5, 7, 11, 13, 17} && r <= s && s % r == 0
  {
    if s % 2 == 0 then 2 else if s % 3 == 0 then 3 else if s % 5 == 0 then 5 else s
  }

  /** A number with a factor below 19 does not pass. */
  lemma FactorFails(n: nat, a: nat, b: nat)
    requires 2 <= a <= 18 && b >= 2 && Times(a, b) == n
    ensures !Passes(n)
  {
    var r := SmallFactor(a);
    var c := a / r;
    Divided(a, r);
    Regrouped(n, a, b, c, r);
    DivisionIs(n, r, c * b, 0);
  }

  lemma Regrouped(n: nat, a: nat, b: nat, c: nat, r: nat)
    requires n == a * b && a == c * r && b >= 2 && a >= r > 0
    ensures n == c * b * r && n > r
  {
    assert n == a * 2 + a * (b - 2);
  }

  lemma NoSmallFactor(n: nat, a: nat, b: nat)
    requires a >= 19 && b >= 19
    ensures a * b >= 361
  {
    assert a * b == 19 * b + (a - 19) * b;
  }

  lemma AtLeastTwo(n: nat)
    requires Passes(n)
    ensures n >= 2
  {
  }

  lemma PassesIffPrime(n: nat)
    requires n < 361
    ensures Passes(n) <==> Prime(n)
  {
    hide Passes;
    if Prime(n) {
      PrimePasses(n);
    }
    if Passes(n) {
      forall a: nat, b: nat | a >= 2 && b >= 2
        ensures Times(a, b) != n
      {
        if Times(a, b) == n {
          if a >= 19 && b >= 19 {
            NoSmallFactor(n, a, b);
          } else if a < 19 {
            FactorFails(n, a, b);
          } else {
            FactorFails(n, b, a);
          }
        }
      }
      AtLeastTwo(n);
    }
  }

  // ---- The first 64 primes -----------------------------------------------------------------------

  const PRIMES0: seq<nat> := [2, 3, 5, 7, 11, 13, 17, 19]
  const PRIMES1: seq<nat> := [23, 29, 31, 37, 41, 43, 47, 53]
  const PRIMES2: seq<nat> := [59, 61, 67, 71, 73, 79, 83, 89]
  const PRIMES3: seq<nat> := [97, 101, 103, 107, 109, 113, 127, 131]
  const PRIMES4: seq<nat> := [137, 139, 149, 151, 157, 163, 167, 173]
  const PRIMES5: seq<nat> := [179, 181, 191, 193, 197, 199, 211, 223]
  const PRIMES6: seq<nat> := [227, 229, 233, 239, 241, 251, 257, 263]
  const PRIMES7: seq<nat> := [269, 271, 277, 281, 283, 293, 307, 311]

  const PRIMES := PRIMES0 + PRIMES1 + PRIMES2 + PRIMES3 + PRIMES4 + PRIMES5 + PRIMES6 + PRIMES7

  /** None of the numbers from `m` to below `p` passes. */
  predicate NonePasses(m: nat, p: nat)
    decreases p - m
  {
    m >= p || (!Passes(m) && NonePasses(m + 1, p))
  }

  lemma {:induction false} NoneIsPrime(m: nat, p: nat, x: nat)
    requires m <= x < p <= 361 && NonePasses(m, p)
    ensures !Prime(x)
    decreases p - m
  {
    PassesIffPrime(x);
    if m < x {
      NoneIsPrime(m + 1, p, x);
    }
  }

  /** `next` is the prime that follows `p`. */
  ghost predicate Follows(p: nat, next: nat) {
    p < next && Prime(next) && forall m: nat :: p < m < next ==> !Prime(m)
  }

  lemma FollowsIf(p: nat, between: nat, next: nat)
    requires between == p + 1 && p < next < 361 && Passes(next) && NonePasses(between, next)
    ensures Follows(p, next)
  {
    PassesIffPrime(next);
    forall m: nat | p < m < next
      ensures !Prime(m)
    {
      NoneIsPrime(between, next, m);
    }
  }

  lemma Primes0(i: nat)
    requires i < 8
    ensures Follows(if i == 0 then 1 else PRIMES0[i - 1], PRIMES0[i])
  {
    hide Follows;
    match i
    case 0 => FollowsIf(1, 2, 2);
    case 1 => FollowsIf(2, 3, 3);
    case 2 => FollowsIf(3, 4, 5);
    case 3 => FollowsIf(5, 6, 7);
    case 4 => FollowsIf(7, 8, 11);
    case 5 => FollowsIf(11, 12, 13);
    case 6 => FollowsIf(13, 14, 17);
    case _ => FollowsIf(17, 18, 19);
  }

  lemma Primes1(i: nat)
    requires i < 8
    ensures Follows(if i == 0 then 19 else PRIMES1[i - 1], PRIMES1[i])
  {
    hide Follows;
    match i
    case 0 => FollowsIf(19, 20, 23);
    case 1 => FollowsIf(23, 24, 29);
    case 2 => FollowsIf(29, 30, 31);
    case 3 => FollowsIf(31, 32, 37);
    case 4 => FollowsIf(37, 38, 41);
    case 5 => FollowsIf(41, 42, 43);
    case 6 => FollowsIf(43, 44, 47);
    case _ => FollowsIf(47, 48, 53);
  }

  lemma Primes2(i: nat)
    requires i < 8
    ensures Follows(if i == 0 then 53 else PRIMES2[i - 1], PRIMES2[i])
  {
    hide Follows;
    match i
    case 0 => FollowsIf(53, 54, 59);
    case 1 => FollowsIf(59, 60, 61);
    case 2 => FollowsIf(61, 62, 67);
    case 3 => FollowsIf(67, 68, 71);
    case 4 => FollowsIf(71, 72, 73);
    case 5 => FollowsIf(73, 74, 79);
    case 6 => FollowsIf(79, 80, 83);
    case _ => FollowsIf(83, 84, 89);
  }

  lemma Primes3(i: nat)
    requires i < 8
    ensures Follows(if i == 0 then 89 else PRIMES3[i - 1], PRIMES3[i])
  {
    hide Follows;
    match i
    case 0 => FollowsIf(89, 90, 97);
    case 1 => FollowsIf(97, 98, 101);
    case 2 => FollowsIf(101, 102, 103);
    case 3 => FollowsIf(103, 104, 107);
    case 4 => FollowsIf(107, 108, 109);
    case 5 => FollowsIf(109, 110, 113);
    case 6 => FollowsIf(113, 114, 127);
    case _ => FollowsIf(127, 128, 131);
  }

  lemma Primes4(i: nat)
    requires i < 8
    ensures Follows(if i == 0 then 131 else PRIMES4[i - 1], PRIMES4[i])
  {
    hide Follows;
    match i
    case 0 => FollowsIf(131, 132, 137);
    case 1 => FollowsIf(137, 138, 139);
    case 2 => FollowsIf(139, 140, 149);
    case 3 => FollowsIf(149, 150, 151);
    case 4 => FollowsIf(151, 152, 157);
    case 5 => FollowsIf(157, 158, 163);
    case 6 => FollowsIf(163, 164, 167);
    case _ => FollowsIf(167, 168, 173);
  }

  lemma Primes5(i: nat)
    requires i < 8
    ensures Follows(if i == 0 then 173 else PRIMES5[i - 1], PRIMES5[i])
  {
    hide Follows;
    match i
    case 0 => FollowsIf(173, 174, 179);
    case 1 => FollowsIf(179, 180, 181);
    case 2 => FollowsIf(181, 182, 191);
    case 3 => FollowsIf(191, 192, 193);
    case 4 => FollowsIf(193, 194, 197);
    case 5 => FollowsIf(197, 198, 199);
    case 6 => FollowsIf(199, 200, 211);
    case _ => FollowsIf(211, 212, 223);
  }

  lemma Primes6(i: nat)
    requires i < 8
    ensures Follows(if i == 0 then 223 else PRIMES6[i - 1], PRIMES6[i])
  {
    hide Follows;
    match i
    case 0 => FollowsIf(223, 224, 227);
    case 1 => FollowsIf(227, 228, 229);
    case 2 => FollowsIf(229, 230, 233);
    case 3 => FollowsIf(233, 234, 239);
    case 4 => FollowsIf(239, 240, 241);
    case 5 => FollowsIf(241, 242, 251);
    case 6 => FollowsIf(251, 252, 257);
    case _ => FollowsIf(257, 258, 263);
  }

  lemma Primes7(i: nat)
    requires i < 8
    ensures Follows(if i == 0 then 263 else PRIMES7[i - 1], PRIMES7[i])
  {
    hide Follows;
    match i
    case 0 => FollowsIf(263, 264, 269);
    case 1 => FollowsIf(269, 270, 271);
    case 2 => FollowsIf(271, 272, 277);
    case 3 => FollowsIf(277, 278, 281);
    case 4 => FollowsIf(281, 282, 283);
    case 5 => FollowsIf(283, 284, 293);
    case 6 => FollowsIf(293, 294, 307);
    case _ => FollowsIf(307, 308, 311);
  }

  /** They are all the primes up to 311, in order. */
  lemma PrimesInOrder(i: nat)
    requires i < 64
    ensures Follows(if i == 0 then 1 else PRIMES[i - 1], PRIMES[i])
  {
    hide Follows, PRIMES0, PRIMES1, PRIMES2, PRIMES3, PRIMES4, PRIMES5, PRIMES6, PRIMES7;
    Lasts();
    if i < 8 {
      Primes0(i);
    } else if i < 16 {
      Primes1(i - 8);
    } else if i < 24 {
      Primes2(i - 16);
    } else if i < 32 {
      Primes3(i - 24);
    } else if i < 40 {
      Primes4(i - 32);
    } else if i < 48 {
      Primes5(i - 40);
    } else if i < 56 {
      Primes6(i - 48);
    } else {
      Primes7(i - 56);
    }
  }

  lemma Lasts()
    ensures |PRIMES0| == 8 && |PRIMES1| == 8 && |PRIMES2| == 8 && |PRIMES3| == 8
    ensures |PRIMES4| == 8 && |PRIMES5| == 8 && |PRIMES6| == 8 && |PRIMES7| == 8
    ensures PRIMES0[7] == 19 && PRIMES1[7] == 53 && PRIMES2[7] == 89 && PRIMES3[7] == 131
    ensures PRIMES4[7] == 173 && PRIMES5[7] == 223 && PRIMES6[7] == 263
  {
  }

  // ---- Roots -------------------------------------------------------------------------------------

  function Cube(x: nat): nat {
    x * x * x
  }

  function Square(x: nat): nat {
    x * x
  }

  /** A whole part and the 32 bits behind the binary point, in units of 2^-32. */
  function Joined(whole: nat, fraction: Word): nat {
    whole * 0x1_0000_0000 + fraction as nat
  }

  /** `k` is the first 32 bits of the fraction of the cube root of `p`. */
  ghost predicate CubeRootOf(p: nat, k: Word) {
    exists q: nat ::
      Cube(Joined(q, k)) <= p * 0x1_0000_0000_0000_0000_0000_0000 < Cube(Joined(q, k) + 1)
  }

  /** `k` is the first 32 bits of the fraction of the square root of `p`. */
  ghost predicate SquareRootOf(p: nat, k: Word) {
    exists q: nat :: Square(Joined(q, k)) <= p * 0x1_0000_0000_0000_0000 < Square(Joined(q, k) + 1)
  }

  lemma CubeRootIf(p: nat, k: Word, q: nat)
    requires Cube(Joined(q, k)) <= p * 0x1_0000_0000_0000_0000_0000_0000 < Cube(Joined(q, k) + 1)
    ensures CubeRootOf(p, k)
  {
  }

  lemma SquareRootIf(p: nat, k: Word, q: nat)
    requires Square(Joined(q, k)) <= p * 0x1_0000_0000_0000_0000 < Square(Joined(q, k) + 1)
    ensures SquareRootOf(p, k)
  {
  }

  lemma Cubes0(i: nat)
    requires i < 8
    ensures CubeRootOf(PRIMES0[i], K0[i])
  {
    hide CubeRootOf;
    match i
    case 0 => CubeRootIf(2, 0x428a2f98, 1);
    case 1 => CubeRootIf(3, 0x71374491, 1);
    case 2 => CubeRootIf(5, 0xb5c0fbcf, 1);
    case 3 => CubeRootIf(7, 0xe9b5dba5, 1);
    case 4 => CubeRootIf(11, 0x3956c25b, 2);
    case 5 => CubeRootIf(13, 0x59f111f1, 2);
    case 6 => CubeRootIf(17, 0x923f82a4, 2);
    case _ => CubeRootIf(19, 0xab1c5ed5, 2);
  }

  lemma Cubes1(i: nat)
    requires i < 8
    ensures CubeRootOf(PRIMES1[i], K1[i])
  {
    hide CubeRootOf;
    match i
    case 0 => CubeRootIf(23, 0xd807aa98, 2);
    case 1 => CubeRootIf(29, 0x12835b01, 3);
    case 2 => CubeRootIf(31, 0x243185be, 3);
    case 3 => CubeRootIf(37, 0x550c7dc3, 3);
    case 4 => CubeRootIf(41, 0x72be5d74, 3);
    case 5 => CubeRootIf(43, 0x80deb1fe, 3);
    case 6 => CubeRootIf(47, 0x9bdc06a7, 3);
    case _ => CubeRootIf(53, 0xc19bf174, 3);
  }

  lemma Cubes2(i: nat)
    requires i < 8
    ensures CubeRootOf(PRIMES2[i], K2[i])
  {
    hide CubeRootOf;
    match i
    case 0 => CubeRootIf(59, 0xe49b69c1, 3);
    case 1 => CubeRootIf(61, 0xefbe4786, 3);
    case 2 => CubeRootIf(67, 0x0fc19dc6, 4);
    case 3 => CubeRootIf(71, 0x240ca1cc, 4);
    case 4 => CubeRootIf(73, 0x2de92c6f, 4);
    case 5 => CubeRootIf(79, 0x4a7484aa, 4);
    case 6 => CubeRootIf(83, 0x5cb0a9dc, 4);
    case _ => CubeRootIf(89, 0x76f988da, 4);
  }

  lemma Cubes3(i: nat)
    requires i < 8
    ensures CubeRootOf(PRIMES3[i], K3[i])
  {
    hide CubeRootOf;
    match i
    case 0 => CubeRootIf(97, 0x983e5152, 4);
    case 1 => CubeRootIf(101, 0xa831c66d, 4);
    case 2 => CubeRootIf(103, 0xb00327c8, 4);
    case 3 => CubeRootIf(107, 0xbf597fc7, 4);
    case 4 => CubeRootIf(109, 0xc6e00bf3, 4);
    case 5 => CubeRootIf(113, 0xd5a79147, 4);
    case 6 => CubeRootIf(127, 0x06ca6351, 5);
    case _ => CubeRootIf(131, 0x14292967, 5);
  }

  lemma Cubes4(i: nat)
    requires i < 8
    ensures CubeRootOf(PRIMES4[i], K4[i])
  {
    hide CubeRootOf;
    match i
    case 0 => CubeRootIf(137, 0x27b70a85, 5);
    case 1 => CubeRootIf(139, 0x2e1b2138, 5);
    case 2 => CubeRootIf(149, 0x4d2c6dfc, 5);
    case 3 => CubeRootIf(151, 0x53380d13, 5);
    case 4 => CubeRootIf(157, 0x650a7354, 5);
    case 5 => CubeRootIf(163, 0x766a0abb, 5);
    case 6 => CubeRootIf(167, 0x81c2c92e, 5);
    case _ => CubeRootIf(173, 0x92722c85, 5);
  }

  lemma Cubes5(i: nat)
    requires i < 8
    ensures CubeRootOf(PRIMES5[i], K5[i])
  {
    hide CubeRootOf;
    match i
    case 0 => CubeRootIf(179, 0xa2bfe8a1, 5);
    case 1 => CubeRootIf(181, 0xa81a664b, 5);
    case 2 => CubeRootIf(191, 0xc24b8b70, 5);
    case 3 => CubeRootIf(193, 0xc76c51a3, 5);
    case 4 => CubeRootIf(197, 0xd192e819, 5);
    case 5 => CubeRootIf(199, 0xd6990624, 5);
    case 6 => CubeRootIf(211, 0xf40e3585, 5);
    case _ => CubeRootIf(223, 0x106aa070, 6);
  }

  lemma Cubes6(i: nat)
    requires i < 8
    ensures CubeRootOf(PRIMES6[i], K6[i])
  {
    hide CubeRootOf;
    match i
    case 0 => CubeRootIf(227, 0x19a4c116, 6);
    case 1 => CubeRootIf(229, 0x1e376c08, 6);
    case 2 => CubeRootIf(233, 0x2748774c, 6);
    case 3 => CubeRootIf(239, 0x34b0bcb5, 6);
    case 4 => CubeRootIf(241, 0x391c0cb3, 6);
    case 5 => CubeRootIf(251, 0x4ed8aa4a, 6);
    case 6 => CubeRootIf(257, 0x5b9cca4f, 6);
    case _ => CubeRootIf(263, 0x682e6ff3, 6);
  }

  lemma Cubes7(i: nat)
    requires i < 8
    ensures CubeRootOf(PRIMES7[i], K7[i])
  {
    hide CubeRootOf;
    match i
    case 0 => CubeRootIf(269, 0x748f82ee, 6);
    case 1 => CubeRootIf(271, 0x78a5636f, 6);
    case 2 => CubeRootIf(277, 0x84c87814, 6);
    case 3 => CubeRootIf(281, 0x8cc70208, 6);
    case 4 => CubeRootIf(283, 0x90befffa, 6);
    case 5 => CubeRootIf(293, 0xa4506ceb, 6);
    case 6 => CubeRootIf(307, 0xbef9a3f7, 6);
    case _ => CubeRootIf(311, 0xc67178f2, 6);
  }

  lemma Lengths()
    ensures |K0| == |K1| == |K2| == |K3| == |K4| == |K5| == |K6| == |K7| == 8
  {
  }

  /** The constants of the rounds are those of section 4.2.2. */
  lemma TableIsCubeRoots(i: nat)
    requires i < 64
    ensures |K| == 64 && CubeRootOf(PRIMES[i], K[i])
  {
    hide CubeRootOf, PRIMES0, PRIMES1, PRIMES2, PRIMES3, PRIMES4, PRIMES5, PRIMES6, PRIMES7;
    hide K0, K1, K2, K3, K4, K5, K6, K7;
    Lasts();
    Lengths();
    if i < 8 {
      Cubes0(i);
    } else if i < 16 {
      Cubes1(i - 8);
    } else if i < 24 {
      Cubes2(i - 16);
    } else if i < 32 {
      Cubes3(i - 24);
    } else if i < 40 {
      Cubes4(i - 32);
    } else if i < 48 {
      Cubes5(i - 40);
    } else if i < 56 {
      Cubes6(i - 48);
    } else {
      Cubes7(i - 56);
    }
  }

  /** The initial hash value is that of section 5.3.3. */
  lemma InitialIsSquareRoots(i: nat)
    requires i < 8
    ensures |INITIAL| == 8 && SquareRootOf(PRIMES[i], INITIAL[i])
  {
    hide SquareRootOf;
    assert PRIMES[i] == PRIMES0[i];
    match i
    case 0 => SquareRootIf(2, 0x6a09e667, 1);
    case 1 => SquareRootIf(3, 0xbb67ae85, 1);
    case 2 => SquareRootIf(5, 0x3c6ef372, 2);
    case 3 => SquareRootIf(7, 0xa54ff53a, 2);
    case 4 => SquareRootIf(11, 0x510e527f, 3);
    case 5 => SquareRootIf(13, 0x9b05688c, 3);
    case 6 => SquareRootIf(17, 0x1f83d9ab, 4);
    case _ => SquareRootIf(19, 0x5be0cd19, 4);
  }
}
