/** The bitwise functions of section 4.1.2 of FIPS 180-4, bit by bit. */
module Sha256Bits {
  import opened Words
  import opened Sha256

  predicate BitAt(a: bv32, j: bv5)
  {
    (a >> j) & 1 == 1
  }

  /** Bit j of a word, 0 the lowest; places are counted modulo 32. */
  predicate Bit(x: word, j: bv5)
  {
    BitAt(x as bv32, j)
  }

  predicate Xor(p: bool, q: bool, r: bool) {
    (p != q) != r
  }

  lemma BackAndForth(a: bv32)
    ensures (a as int) as bv32 == a
  {
  }

  lemma XorBits(a: bv32, b: bv32, c: bv32, j: bv5)
    ensures BitAt(a ^ b ^ c, j) <==> Xor(BitAt(a, j), BitAt(b, j), BitAt(c, j))
  {
  }

  lemma RotatedBy2(a: bv32, j: bv5)
    ensures BitAt(RotR(a, 2), j) <==> BitAt(a, j + 2)
  {
  }

  lemma RotatedBy6(a: bv32, j: bv5)
    ensures BitAt(RotR(a, 6), j) <==> BitAt(a, j + 6)
  {
  }

  lemma RotatedBy7(a: bv32, j: bv5)
    ensures BitAt(RotR(a, 7), j) <==> BitAt(a, j + 7)
  {
  }

  lemma RotatedBy11(a: bv32, j: bv5)
    ensures BitAt(RotR(a, 11), j) <==> BitAt(a, j + 11)
  {
  }

  lemma RotatedBy13(a: bv32, j: bv5)
    ensures BitAt(RotR(a, 13), j) <==> BitAt(a, j + 13)
  {
  }

  lemma RotatedBy17(a: bv32, j: bv5)
    ensures BitAt(RotR(a, 17), j) <==> BitAt(a, j + 17)
  {
  }

  lemma RotatedBy18(a: bv32, j: bv5)
    ensures BitAt(RotR(a, 18), j) <==> BitAt(a, j + 18)
  {
  }

  lemma RotatedBy19(a: bv32, j: bv5)
    ensures BitAt(RotR(a, 19), j) <==> BitAt(a, j + 19)
  {
  }

  lemma RotatedBy22(a: bv32, j: bv5)
    ensures BitAt(RotR(a, 22), j) <==> BitAt(a, j + 22)
  {
  }

  lemma RotatedBy25(a: bv32, j: bv5)
    ensures BitAt(RotR(a, 25), j) <==> BitAt(a, j + 25)
  {
  }

  lemma ShiftedBy3(a: bv32, j: bv5)
    ensures BitAt(a >> 3, j) <==> j < 29 && BitAt(a, j + 3)
  {
  }

  lemma ShiftedBy10(a: bv32, j: bv5)
    ensures BitAt(a >> 10, j) <==> j < 22 && BitAt(a, j + 10)
  {
  }

  lemma BigSigma0Parts(a: bv32, p: bv32, q: bv32, r: bv32, j: bv5)
    requires p == RotR(a, 2) && q == RotR(a, 13) && r == RotR(a, 22)
    ensures BitAt(BigSigma0Of(a), j) <==> Xor(BitAt(p, j), BitAt(q, j), BitAt(r, j))
  {
    hide BitAt, RotR, Xor;
    XorBits(p, q, r, j);
  }

  lemma BigSigma0OfBits(a: bv32, j: bv5)
    ensures BitAt(BigSigma0Of(a), j)
            <==> Xor(BitAt(a, j + 2), BitAt(a, j + 13), BitAt(a, j + 22))
  {
    hide BitAt, RotR, Xor, BigSigma0Of;
    BigSigma0Parts(a, RotR(a, 2), RotR(a, 13), RotR(a, 22), j);
    RotatedBy2(a, j);
    RotatedBy13(a, j);
    RotatedBy22(a, j);
  }

  /** Bit j of each sigma is the exclusive or of three bits of the word: those at
      the rotated places or, for a shift, none past the top. */
  lemma BigSigma0Bits(x: word, j: bv5)
    ensures Bit(BigSigma0(x), j)
            <==> Xor(Bit(x, j + 2), Bit(x, j + 13), Bit(x, j + 22))
  {
    hide BitAt, BigSigma0Of, Xor;
    BackAndForth(BigSigma0Of(x as bv32));
    BigSigma0OfBits(x as bv32, j);
  }

  lemma BigSigma1Parts(a: bv32, p: bv32, q: bv32, r: bv32, j: bv5)
    requires p == RotR(a, 6) && q == RotR(a, 11) && r == RotR(a, 25)
    ensures BitAt(BigSigma1Of(a), j) <==> Xor(BitAt(p, j), BitAt(q, j), BitAt(r, j))
  {
    hide BitAt, RotR, Xor;
    XorBits(p, q, r, j);
  }

  lemma BigSigma1OfBits(a: bv32, j: bv5)
    ensures BitAt(BigSigma1Of(a), j)
            <==> Xor(BitAt(a, j + 6), BitAt(a, j + 11), BitAt(a, j + 25))
  {
    hide BitAt, RotR, Xor, BigSigma1Of;
    BigSigma1Parts(a, RotR(a, 6), RotR(a, 11), RotR(a, 25), j);
    RotatedBy6(a, j);
    RotatedBy11(a, j);
    RotatedBy25(a, j);
  }

  lemma BigSigma1Bits(x: word, j: bv5)
    ensures Bit(BigSigma1(x), j)
            <==> Xor(Bit(x, j + 6), Bit(x, j + 11), Bit(x, j + 25))
  {
    hide BitAt, BigSigma1Of, Xor;
    BackAndForth(BigSigma1Of(x as bv32));
    BigSigma1OfBits(x as bv32, j);
  }

  lemma SmallSigma0Parts(a: bv32, p: bv32, q: bv32, r: bv32, j: bv5)
    requires p == RotR(a, 7) && q == RotR(a, 18) && r == a >> 3
    ensures BitAt(SmallSigma0Of(a), j) <==> Xor(BitAt(p, j), BitAt(q, j), BitAt(r, j))
  {
    hide BitAt, RotR, Xor;
    XorBits(p, q, r, j);
  }

  lemma SmallSigma0OfBits(a: bv32, j: bv5)
    ensures BitAt(SmallSigma0Of(a), j)
            <==> Xor(BitAt(a, j + 7), BitAt(a, j + 18), j < 29 && BitAt(a, j + 3))
  {
    hide BitAt, RotR, Xor, SmallSigma0Of;
    SmallSigma0Parts(a, RotR(a, 7), RotR(a, 18), a >> 3, j);
    RotatedBy7(a, j);
    RotatedBy18(a, j);
    ShiftedBy3(a, j);
  }

  lemma SmallSigma0Bits(x: word, j: bv5)
    ensures Bit(SmallSigma0(x), j)
            <==> Xor(Bit(x, j + 7), Bit(x, j + 18), j < 29 && Bit(x, j + 3))
  {
    hide BitAt, SmallSigma0Of, Xor;
    BackAndForth(SmallSigma0Of(x as bv32));
    SmallSigma0OfBits(x as bv32, j);
  }

  lemma SmallSigma1Parts(a: bv32, p: bv32, q: bv32, r: bv32, j: bv5)
    requires p == RotR(a, 17) && q == RotR(a, 19) && r == a >> 10
    ensures BitAt(SmallSigma1Of(a), j) <==> Xor(BitAt(p, j), BitAt(q, j), BitAt(r, j))
  {
    hide BitAt, RotR, Xor;
    XorBits(p, q, r, j);
  }

  lemma SmallSigma1OfBits(a: bv32, j: bv5)
    ensures BitAt(SmallSigma1Of(a), j)
            <==> Xor(BitAt(a, j + 17), BitAt(a, j + 19), j < 22 && BitAt(a, j + 10))
  {
    hide BitAt, RotR, Xor, SmallSigma1Of;
    SmallSigma1Parts(a, RotR(a, 17), RotR(a, 19), a >> 10, j);
    RotatedBy17(a, j);
    RotatedBy19(a, j);
    ShiftedBy10(a, j);
  }

  lemma SmallSigma1Bits(x: word, j: bv5)
    ensures Bit(SmallSigma1(x), j)
            <==> Xor(Bit(x, j + 17), Bit(x, j + 19), j < 22 && Bit(x, j + 10))
  {
    hide BitAt, SmallSigma1Of, Xor;
    BackAndForth(SmallSigma1Of(x as bv32));
    SmallSigma1OfBits(x as bv32, j);
  }

  lemma ChooseBits(a: bv32, b: bv32, c: bv32, j: bv5)
    ensures BitAt((a & b) ^ (!a & c), j) <==> (if BitAt(a, j) then BitAt(b, j) else BitAt(c, j))
  {
  }

  lemma ChOfBits(a: bv32, b: bv32, c: bv32, j: bv5)
    ensures BitAt(ChOf(a, b, c), j) <==> (if BitAt(a, j) then BitAt(b, j) else BitAt(c, j))
  {
    hide BitAt;
    ChooseBits(a, b, c, j);
  }

  lemma MajorityBits(a: bv32, b: bv32, c: bv32, j: bv5)
    ensures BitAt((a & b) ^ (a & c) ^ (b & c), j)
            <==> (BitAt(a, j) && BitAt(b, j)) || (BitAt(a, j) && BitAt(c, j)) || (BitAt(b, j) && BitAt(c, j))
  {
  }

  lemma MajOfBits(a: bv32, b: bv32, c: bv32, j: bv5)
    ensures BitAt(MajOf(a, b, c), j)
            <==> (BitAt(a, j) && BitAt(b, j)) || (BitAt(a, j) && BitAt(c, j)) || (BitAt(b, j) && BitAt(c, j))
  {
    hide BitAt;
    MajorityBits(a, b, c, j);
  }

  /** The first word chooses, bit by bit, between the other two. */
  lemma ChBits(x: word, y: word, z: word, j: bv5)
    ensures Bit(Ch(x, y, z), j) <==> (if Bit(x, j) then Bit(y, j) else Bit(z, j))
  {
    hide BitAt, ChOf;
    BackAndForth(ChOf(x as bv32, y as bv32, z as bv32));
    ChOfBits(x as bv32, y as bv32, z as bv32, j);
  }

  /** A bit is set when it is in at least two of the three words. */
  lemma MajBits(x: word, y: word, z: word, j: bv5)
    ensures Bit(Maj(x, y, z), j)
            <==> (Bit(x, j) && Bit(y, j)) || (Bit(x, j) && Bit(z, j)) || (Bit(y, j) && Bit(z, j))
  {
    hide BitAt, MajOf;
    BackAndForth(MajOf(x as bv32, y as bv32, z as bv32));
    MajOfBits(x as bv32, y as bv32, z as bv32, j);
  }
}
