/** The constants of SHA-256, from the primes they are made of. */
module Sha256Origins {
  import opened Words
  import LittleEndian
  import opened Primes
  import Powers
  import opened Sha256

  // The primes

  /** The prime that follows another one. */
  predicate IsNextPrime(p: nat, q: nat) {
    p < q && IsPrime(q) && forall n: nat :: p < n < q ==> !IsPrime(n)
  }

  const PRIMES0: seq<nat> := [2, 3, 5, 7, 11, 13, 17, 19]
  const PRIMES1: seq<nat> := [23, 29, 31, 37, 41, 43, 47, 53]
  const PRIMES2: seq<nat> := [59, 61, 67, 71, 73, 79, 83, 89]
  const PRIMES3: seq<nat> := [97, 101, 103, 107, 109, 113, 127, 131]
  const PRIMES4: seq<nat> := [137, 139, 149, 151, 157, 163, 167, 173]
  const PRIMES5: seq<nat> := [179, 181, 191, 193, 197, 199, 211, 223]
  const PRIMES6: seq<nat> := [227, 229, 233, 239, 241, 251, 257, 263]
  const PRIMES7: seq<nat> := [269, 271, 277, 281, 283, 293, 307, 311]

  /** The first 64 primes, counted from zero. */
  function Prime(i: nat): nat
    requires i < 64
  {
    var j := i % 8;
    if i < 8 then PRIMES0[j] else if i < 16 then PRIMES1[j]
    else if i < 24 then PRIMES2[j] else if i < 32 then PRIMES3[j]
    else if i < 40 then PRIMES4[j] else if i < 48 then PRIMES5[j]
    else if i < 56 then PRIMES6[j] else PRIMES7[j]
  }

  predicate Undivided(n: nat) {
    n % 2 != 0 && n % 3 != 0 && n % 5 != 0 && n % 7 != 0 && n % 11 != 0 && n % 13 != 0 && n % 17 != 0
  }

  /** A divisor below 18 has one of the first seven primes in it. */
  lemma SmallDivisor(n: nat, e: nat, f: nat)
    requires 2 <= e < 18 && n == e * f
    ensures !Undivided(n)
  {
    if e == 2 {
      Multiple(n, 2, 1 * f);
    } else if e == 3 {
      Multiple(n, 3, 1 * f);
    } else if e == 4 {
      Multiple(n, 2, 2 * f);
    } else if e == 5 {
      Multiple(n, 5, 1 * f);
    } else if e == 6 {
      Multiple(n, 2, 3 * f);
    } else if e == 7 {
      Multiple(n, 7, 1 * f);
    } else if e == 8 {
      Multiple(n, 2, 4 * f);
    } else if e == 9 {
      Multiple(n, 3, 3 * f);
    } else if e == 10 {
      Multiple(n, 2, 5 * f);
    } else if e == 11 {
      Multiple(n, 11, 1 * f);
    } else if e == 12 {
      Multiple(n, 2, 6 * f);
    } else if e == 13 {
      Multiple(n, 13, 1 * f);
    } else if e == 14 {
      Multiple(n, 2, 7 * f);
    } else if e == 15 {
      Multiple(n, 3, 5 * f);
    } else if e == 16 {
      Multiple(n, 2, 8 * f);
    } else if e == 17 {
      Multiple(n, 17, 1 * f);
    }
  }

  lemma Multiple(n: nat, p: nat, k: nat)
    requires p > 0 && n == p * k
    ensures n % p == 0
  {
    LittleEndian.ModUnique(n, p, k, 0);
  }

  lemma Cofactor(n: nat, d: nat, f: nat)
    requires d < n && n == d * f
    ensures f >= 2
  {
    Powers.MulLe(d, if f < 2 then f else 0, d, 1);
  }

  /** Below 18 * 18 one of two complementary divisors is below 18. */
  lemma UndividedIsPrime(n: nat)
    requires 18 <= n < 324 && Undivided(n)
    ensures IsPrime(n)
  {
    forall d: nat | 2 <= d < n ensures !Divides(d, n) {
      if Divides(d, n) {
        var f := n / d;
        assert n == d * f;
        if d < 18 {
          SmallDivisor(n, d, f);
        } else {
          assert f < 18 by {
            if f >= 18 {
              Powers.MulLe(18, 18, d, f);
            }
          }
          Cofactor(n, d, f);
          SmallDivisor(n, f, d);
        }
      }
    }
  }

  lemma DividedIsNotPrime(n: nat)
    requires 18 <= n && !Undivided(n)
    ensures !IsPrime(n)
  {
    assert Divides(2, n) || Divides(3, n) || Divides(5, n) || Divides(7, n) || Divides(11, n) || Divides(13, n)
        || Divides(17, n);
  }

  /** Each number strictly between has one of the first seven primes in it. */
  predicate AllDivided(p: nat, q: nat)
    requires p < q
    decreases q - p, q
  {
    p + 1 == q || (!Undivided(p + 1) && AllDivided(p + 1, q))
  }

  lemma {:induction false} AllDividedMeans(p: nat, q: nat, n: nat)
    requires p < q && AllDivided(p, q) && p < n < q
    ensures !Undivided(n)
    decreases q - p
  {
    hide Undivided;
    if n != p + 1 {
      AllDividedMeans(p + 1, q, n);
    }
  }

  lemma Gap(p: nat, q: nat)
    requires 17 <= p < q < 324 && Undivided(q) && AllDivided(p, q)
    ensures IsNextPrime(p, q)
  {
    hide IsPrime, Undivided, AllDivided;
    UndividedIsPrime(q);
    forall n: nat | p < n < q ensures !IsPrime(n) {
      AllDividedMeans(p, q, n);
      DividedIsNotPrime(n);
    }
  }

  /** Up to 19 the definition is evaluated. */
  lemma SmallPrimes()
    ensures IsPrime(2) && IsNextPrime(2, 3) && IsNextPrime(3, 5) && IsNextPrime(5, 7) && IsNextPrime(7, 11)
    ensures IsNextPrime(11, 13) && IsNextPrime(13, 17) && IsNextPrime(17, 19)
  {
    assert Divides(2, 4) && Divides(2, 6) && Divides(2, 8) && Divides(3, 9) && Divides(2, 10) && Divides(2, 12)
        && Divides(2, 14) && Divides(3, 15) && Divides(2, 16) && Divides(2, 18);
  }

  lemma Gaps1()
    ensures IsNextPrime(19, 23) && IsNextPrime(23, 29) && IsNextPrime(29, 31) && IsNextPrime(31, 37)
  {
    hide IsPrime, IsNextPrime;
    Gap(19, 23);
    Gap(23, 29);
    Gap(29, 31);
    Gap(31, 37);
  }

  lemma Gaps2()
    ensures IsNextPrime(37, 41) && IsNextPrime(41, 43) && IsNextPrime(43, 47) && IsNextPrime(47, 53)
  {
    hide IsPrime, IsNextPrime;
    Gap(37, 41);
    Gap(41, 43);
    Gap(43, 47);
    Gap(47, 53);
  }

  lemma Gaps3()
    ensures IsNextPrime(53, 59) && IsNextPrime(59, 61) && IsNextPrime(61, 67) && IsNextPrime(67, 71)
  {
    hide IsPrime, IsNextPrime;
    Gap(53, 59);
    Gap(59, 61);
    Gap(61, 67);
    Gap(67, 71);
  }

  lemma Gaps4()
    ensures IsNextPrime(71, 73) && IsNextPrime(73, 79) && IsNextPrime(79, 83) && IsNextPrime(83, 89)
  {
    hide IsPrime, IsNextPrime;
    Gap(71, 73);
    Gap(73, 79);
    Gap(79, 83);
    Gap(83, 89);
  }

  lemma Gaps5()
    ensures IsNextPrime(89, 97) && IsNextPrime(97, 101) && IsNextPrime(101, 103) && IsNextPrime(103, 107)
  {
    hide IsPrime, IsNextPrime;
    Gap(89, 97);
    Gap(97, 101);
    Gap(101, 103);
    Gap(103, 107);
  }

  lemma Gaps6()
    ensures IsNextPrime(107, 109) && IsNextPrime(109, 113) && IsNextPrime(113, 127) && IsNextPrime(127, 131)
  {
    hide IsPrime, IsNextPrime;
    Gap(107, 109);
    Gap(109, 113);
    Gap(113, 127);
    Gap(127, 131);
  }

  lemma Gaps7()
    ensures IsNextPrime(131, 137) && IsNextPrime(137, 139) && IsNextPrime(139, 149) && IsNextPrime(149, 151)
  {
    hide IsPrime, IsNextPrime;
    Gap(131, 137);
    Gap(137, 139);
    Gap(139, 149);
    Gap(149, 151);
  }

  lemma Gaps8()
    ensures IsNextPrime(151, 157) && IsNextPrime(157, 163) && IsNextPrime(163, 167) && IsNextPrime(167, 173)
  {
    hide IsPrime, IsNextPrime;
    Gap(151, 157);
    Gap(157, 163);
    Gap(163, 167);
    Gap(167, 173);
  }

  lemma Gaps9()
    ensures IsNextPrime(173, 179) && IsNextPrime(179, 181) && IsNextPrime(181, 191) && IsNextPrime(191, 193)
  {
    hide IsPrime, IsNextPrime;
    Gap(173, 179);
    Gap(179, 181);
    Gap(181, 191);
    Gap(191, 193);
  }

  lemma Gaps10()
    ensures IsNextPrime(193, 197) && IsNextPrime(197, 199) && IsNextPrime(199, 211) && IsNextPrime(211, 223)
  {
    hide IsPrime, IsNextPrime;
    Gap(193, 197);
    Gap(197, 199);
    Gap(199, 211);
    Gap(211, 223);
  }

  lemma Gaps11()
    ensures IsNextPrime(223, 227) && IsNextPrime(227, 229) && IsNextPrime(229, 233) && IsNextPrime(233, 239)
  {
    hide IsPrime, IsNextPrime;
    Gap(223, 227);
    Gap(227, 229);
    Gap(229, 233);
    Gap(233, 239);
  }

  lemma Gaps12()
    ensures IsNextPrime(239, 241) && IsNextPrime(241, 251) && IsNextPrime(251, 257) && IsNextPrime(257, 263)
  {
    hide IsPrime, IsNextPrime;
    Gap(239, 241);
    Gap(241, 251);
    Gap(251, 257);
    Gap(257, 263);
  }

  lemma Gaps13()
    ensures IsNextPrime(263, 269) && IsNextPrime(269, 271) && IsNextPrime(271, 277) && IsNextPrime(277, 281)
  {
    hide IsPrime, IsNextPrime;
    Gap(263, 269);
    Gap(269, 271);
    Gap(271, 277);
    Gap(277, 281);
  }

  lemma Gaps14()
    ensures IsNextPrime(281, 283) && IsNextPrime(283, 293) && IsNextPrime(293, 307) && IsNextPrime(307, 311)
  {
    hide IsPrime, IsNextPrime;
    Gap(281, 283);
    Gap(283, 293);
    Gap(293, 307);
    Gap(307, 311);
  }

  lemma PrimesInFirstHalf(i: nat)
    requires i < 32
    ensures IsNextPrime(Prime(i), Prime(i + 1))
  {
    hide IsPrime, IsNextPrime;
    SmallPrimes();
    Gaps1();
    Gaps2();
    Gaps3();
    Gaps4();
    Gaps5();
    Gaps6();
    Gaps7();
  }

  lemma PrimesInSecondHalf(i: nat)
    requires 31 < i < 63
    ensures IsNextPrime(Prime(i), Prime(i + 1))
  {
    hide IsPrime, IsNextPrime;
    Gaps7();
    Gaps8();
    Gaps9();
    Gaps10();
    Gaps11();
    Gaps12();
    Gaps13();
    Gaps14();
  }

  /** The table lists the primes in order, none left out. */
  lemma PrimesInOrder(i: nat)
    requires i < 63
    ensures Prime(0) == 2 && IsPrime(2) && IsNextPrime(Prime(i), Prime(i + 1))
  {
    hide IsPrime, IsNextPrime;
    SmallPrimes();
    if i < 32 {
      PrimesInFirstHalf(i);
    } else {
      PrimesInSecondHalf(i);
    }
  }

  // The constants of sections 4.2.2 and 5.3.3

  /** The integer part of the cube root of a number below 343. */
  function CubeFloor(p: nat): nat {
    if p < 8 then 1 else if p < 27 then 2 else if p < 64 then 3 else if p < 125 then 4 else if p < 216 then 5 else 6
  }

  /** k holds the first 32 bits behind the point of the cube root of p. */
  predicate CubeRootBits(k: word, p: nat) {
    var q := CubeFloor(p) * 0x1_0000_0000 + k;
    q * q * q <= p * 0x1_0000_0000_0000_0000_0000_0000 < (q + 1) * (q + 1) * (q + 1)
  }

  /** The same of the square root of a number below 25. */
  predicate SquareRootBits(k: word, p: nat) {
    var q := (if p < 4 then 1 else if p < 9 then 2 else if p < 16 then 3 else 4) * 0x1_0000_0000 + k;
    q * q <= p * 0x1_0000_0000_0000_0000 < (q + 1) * (q + 1)
  }

  lemma CubeRoots0(j: nat)
    requires j < 8
    ensures CubeRootBits(KRow0(j), PRIMES0[j])
  {
    assert CubeRootBits(0x428a2f98, 2);
    assert CubeRootBits(0x71374491, 3);
    assert CubeRootBits(0xb5c0fbcf, 5);
    assert CubeRootBits(0xe9b5dba5, 7);
    assert CubeRootBits(0x3956c25b, 11);
    assert CubeRootBits(0x59f111f1, 13);
    assert CubeRootBits(0x923f82a4, 17);
    assert CubeRootBits(0xab1c5ed5, 19);
  }

  lemma CubeRoots1(j: nat)
    requires j < 8
    ensures CubeRootBits(KRow1(j), PRIMES1[j])
  {
    assert CubeRootBits(0xd807aa98, 23);
    assert CubeRootBits(0x12835b01, 29);
    assert CubeRootBits(0x243185be, 31);
    assert CubeRootBits(0x550c7dc3, 37);
    assert CubeRootBits(0x72be5d74, 41);
    assert CubeRootBits(0x80deb1fe, 43);
    assert CubeRootBits(0x9bdc06a7, 47);
    assert CubeRootBits(0xc19bf174, 53);
  }

  lemma CubeRoots2(j: nat)
    requires j < 8
    ensures CubeRootBits(KRow2(j), PRIMES2[j])
  {
    assert CubeRootBits(0xe49b69c1, 59);
    assert CubeRootBits(0xefbe4786, 61);
    assert CubeRootBits(0x0fc19dc6, 67);
    assert CubeRootBits(0x240ca1cc, 71);
    assert CubeRootBits(0x2de92c6f, 73);
    assert CubeRootBits(0x4a7484aa, 79);
    assert CubeRootBits(0x5cb0a9dc, 83);
    assert CubeRootBits(0x76f988da, 89);
  }

  lemma CubeRoots3(j: nat)
    requires j < 8
    ensures CubeRootBits(KRow3(j), PRIMES3[j])
  {
    assert CubeRootBits(0x983e5152, 97);
    assert CubeRootBits(0xa831c66d, 101);
    assert CubeRootBits(0xb00327c8, 103);
    assert CubeRootBits(0xbf597fc7, 107);
    assert CubeRootBits(0xc6e00bf3, 109);
    assert CubeRootBits(0xd5a79147, 113);
    assert CubeRootBits(0x06ca6351, 127);
    assert CubeRootBits(0x14292967, 131);
  }

  lemma CubeRoots4(j: nat)
    requires j < 8
    ensures CubeRootBits(KRow4(j), PRIMES4[j])
  {
    assert CubeRootBits(0x27b70a85, 137);
    assert CubeRootBits(0x2e1b2138, 139);
    assert CubeRootBits(0x4d2c6dfc, 149);
    assert CubeRootBits(0x53380d13, 151);
    assert CubeRootBits(0x650a7354, 157);
    assert CubeRootBits(0x766a0abb, 163);
    assert CubeRootBits(0x81c2c92e, 167);
    assert CubeRootBits(0x92722c85, 173);
  }

  lemma CubeRoots5(j: nat)
    requires j < 8
    ensures CubeRootBits(KRow5(j), PRIMES5[j])
  {
    assert CubeRootBits(0xa2bfe8a1, 179);
    assert CubeRootBits(0xa81a664b, 181);
    assert CubeRootBits(0xc24b8b70, 191);
    assert CubeRootBits(0xc76c51a3, 193);
    assert CubeRootBits(0xd192e819, 197);
    assert CubeRootBits(0xd6990624, 199);
    assert CubeRootBits(0xf40e3585, 211);
    assert CubeRootBits(0x106aa070, 223);
  }

  lemma CubeRoots6(j: nat)
    requires j < 8
    ensures CubeRootBits(KRow6(j), PRIMES6[j])
  {
    assert CubeRootBits(0x19a4c116, 227);
    assert CubeRootBits(0x1e376c08, 229);
    assert CubeRootBits(0x2748774c, 233);
    assert CubeRootBits(0x34b0bcb5, 239);
    assert CubeRootBits(0x391c0cb3, 241);
    assert CubeRootBits(0x4ed8aa4a, 251);
    assert CubeRootBits(0x5b9cca4f, 257);
    assert CubeRootBits(0x682e6ff3, 263);
  }

  lemma CubeRoots7(j: nat)
    requires j < 8
    ensures CubeRootBits(KRow7(j), PRIMES7[j])
  {
    assert CubeRootBits(0x748f82ee, 269);
    assert CubeRootBits(0x78a5636f, 271);
    assert CubeRootBits(0x84c87814, 277);
    assert CubeRootBits(0x8cc70208, 281);
    assert CubeRootBits(0x90befffa, 283);
    assert CubeRootBits(0xa4506ceb, 293);
    assert CubeRootBits(0xbef9a3f7, 307);
    assert CubeRootBits(0xc67178f2, 311);
  }

  /** Each round constant is the fraction of the cube root of its prime. */
  lemma RoundConstant(i: nat)
    requires i < 64
    ensures CubeRootBits(K(i), Prime(i))
  {
    hide CubeRootBits, KRow0, KRow1, KRow2, KRow3, KRow4, KRow5, KRow6, KRow7;
    CubeRoots0(i % 8);
    CubeRoots1(i % 8);
    CubeRoots2(i % 8);
    CubeRoots3(i % 8);
    CubeRoots4(i % 8);
    CubeRoots5(i % 8);
    CubeRoots6(i % 8);
    CubeRoots7(i % 8);
  }

  /** The initial hash value is made of the fractions of the square roots of the
      first eight primes. */
  lemma InitialHashValue()
    ensures SquareRootBits(IV.a, Prime(0))
    ensures SquareRootBits(IV.b, Prime(1))
    ensures SquareRootBits(IV.c, Prime(2))
    ensures SquareRootBits(IV.d, Prime(3))
    ensures SquareRootBits(IV.e, Prime(4))
    ensures SquareRootBits(IV.f, Prime(5))
    ensures SquareRootBits(IV.g, Prime(6))
    ensures SquareRootBits(IV.h, Prime(7))
  {
  }
}
