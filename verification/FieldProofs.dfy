/** The limb arithmetic computes in the integers modulo P: for operands below
    2^54 no truncation loses a bit, and every result is below 2^52 again. */
module FieldProofs {
  import opened Words
  import opened Powers
  import opened Modular
  import opened FieldLimbs

  // Carry chain

  lemma FitsWord(x: int)
    requires 0 <= x < 0x1_0000_0000_0000_0000
    ensures Wrap64(x) == x
  {
  }

  lemma Split51(x: nat)
    ensures x == Low51(x) + 0x8_0000_0000_0000 * High51(x)
  {
  }

  lemma CarryIntoExact(c: u128, from: u128)
    requires c < 0x8_0000_0000_0000_0000_0000_0000_0000 - 0x1_0000_0000_0000_0000
    requires from < 0x8_0000_0000_0000_0000_0000_0000_0000
    ensures CarryInto(c, from) == c + High51(from)
    ensures High51(from) < 0x1_0000_0000_0000_0000
    ensures CarryInto(c, from) < 0x8_0000_0000_0000_0000_0000_0000_0000
  {
    Split51(from);
  }

  lemma FoldCarryExact(c0: u128, c1: u128, c2: u128, c3: u128, c4: u128)
    requires c4 < 5 * 0x1000_0000_0000_0000_0000_0000_0000 + 0x1_0000_0000_0000_0000
    ensures Tight(FoldCarry(c0, c1, c2, c3, c4))
    ensures Value(FoldCarry(c0, c1, c2, c3, c4))
         == Radix51(Low51(c0) + 19 * High51(c4), Low51(c1), Low51(c2), Low51(c3), Low51(c4))
  {
    Split51(c4);
    var carry := High51(c4);
    var out0 := Low51(c0) + carry * 19;
    assert 0 <= Low51(c0) < 0x8_0000_0000_0000 && 0 <= Low51(c1) < 0x8_0000_0000_0000;
    assert 0 <= Low51(out0) < 0x8_0000_0000_0000;
    assert 0 <= Low51(c2) < 0x8_0000_0000_0000 && 0 <= Low51(c3) < 0x8_0000_0000_0000;
    assert 0 <= Low51(c4) < 0x8_0000_0000_0000;
    Split51(out0);
    hide Wrap64, High51, Low51;
    FitsWord(carry);
    FitsWord(carry * 19);
    FitsWord(out0);
    FitsWord(Low51(c1) + High51(out0));
  }

  /** Carrying keeps the value: the digits before and after differ by a multiple of P. */
  lemma CarriesKeepValue(c0: nat, c1: nat, c2: nat, c3: nat, c4: nat, h0: nat, h1: nat, h2: nat, h3: nat)
    requires h0 == High51(c0) && h1 == High51(c1 + h0) && h2 == High51(c2 + h1) && h3 == High51(c3 + h2)
    ensures Cong(Radix51(Low51(c0) + 19 * High51(c4 + h3), Low51(c1 + h0), Low51(c2 + h1), Low51(c3 + h2),
                         Low51(c4 + h3)),
                 Radix51(c0, c1, c2, c3, c4))
  {
    Split51(c0);
    Split51(c1 + h0);
    Split51(c2 + h1);
    Split51(c3 + h2);
    Split51(c4 + h3);
    CongIntro(Radix51(Low51(c0) + 19 * High51(c4 + h3), Low51(c1 + h0), Low51(c2 + h1), Low51(c3 + h2), Low51(c4 + h3)),
              Radix51(c0, c1, c2, c3, c4), -1 * High51(c4 + h3));
  }

  lemma CarryChainExact(c: Columns)
    requires ColumnsFit((c.c0, c.c1, c.c2, c.c3, c.c4))
    ensures Tight(CarryChain(c))
    ensures Cong(Value(CarryChain(c)), Radix51(c.c0, c.c1, c.c2, c.c3, c.c4))
  {
    hide CarryInto, FoldCarry, High51, Low51, Radix51, Cong;
    CarryIntoExact(c.c1, c.c0);
    var c1 := CarryInto(c.c1, c.c0);
    CarryIntoExact(c.c2, c1);
    var c2 := CarryInto(c.c2, c1);
    CarryIntoExact(c.c3, c2);
    var c3 := CarryInto(c.c3, c2);
    CarryIntoExact(c.c4, c3);
    var c4 := CarryInto(c.c4, c3);
    FoldCarryExact(c.c0, c1, c2, c3, c4);
    CarriesKeepValue(c.c0, c.c1, c.c2, c.c3, c.c4, High51(c.c0), High51(c1), High51(c2), High51(c3));
  }

  // Multiplication

  lemma ProductBound(x: nat, y: nat)
    requires x < 0x40_0000_0000_0000 && y < 0x40_0000_0000_0000
    ensures 0 <= x * y < 0x1000_0000_0000_0000_0000_0000_0000
    ensures x * Wrap64(y * 19) == 19 * (x * y)
  {
    hide Wrap64;
    MulLe(x, y, 0x3f_ffff_ffff_ffff, 0x3f_ffff_ffff_ffff);
    MulAssoc(x, y, 19);
    FitsWord(y * 19);
  }

  lemma RowBound(x: nat, b: Limbs)
    requires x < 0x40_0000_0000_0000 && Loose(b)
    ensures 0 <= x * b.n0 < 0x1000_0000_0000_0000_0000_0000_0000
    ensures 0 <= x * b.n1 < 0x1000_0000_0000_0000_0000_0000_0000
    ensures 0 <= x * b.n2 < 0x1000_0000_0000_0000_0000_0000_0000
    ensures 0 <= x * b.n3 < 0x1000_0000_0000_0000_0000_0000_0000
    ensures 0 <= x * b.n4 < 0x1000_0000_0000_0000_0000_0000_0000
    ensures x * Wrap64(b.n1 * 19) == 19 * (x * b.n1) && x * Wrap64(b.n2 * 19) == 19 * (x * b.n2)
    ensures x * Wrap64(b.n3 * 19) == 19 * (x * b.n3) && x * Wrap64(b.n4 * 19) == 19 * (x * b.n4)
  {
    ProductBound(x, b.n0);
    ProductBound(x, b.n1);
    ProductBound(x, b.n2);
    ProductBound(x, b.n3);
    ProductBound(x, b.n4);
  }

  /** The coefficients a product has when nothing is truncated. */
  function ExactColumns(a: Limbs, b: Limbs): (int, int, int, int, int) {
    (a.n0 * b.n0 + 19 * (a.n4 * b.n1 + a.n3 * b.n2 + a.n2 * b.n3 + a.n1 * b.n4),
     a.n1 * b.n0 + a.n0 * b.n1 + 19 * (a.n4 * b.n2 + a.n3 * b.n3 + a.n2 * b.n4),
     a.n2 * b.n0 + a.n1 * b.n1 + a.n0 * b.n2 + 19 * (a.n4 * b.n3 + a.n3 * b.n4),
     a.n3 * b.n0 + a.n2 * b.n1 + a.n1 * b.n2 + a.n0 * b.n3 + 19 * (a.n4 * b.n4),
     a.n4 * b.n0 + a.n3 * b.n1 + a.n2 * b.n2 + a.n1 * b.n3 + a.n0 * b.n4)
  }

  predicate ColumnsAre(c: Columns, e: (int, int, int, int, int)) {
    c.c0 == e.0 && c.c1 == e.1 && c.c2 == e.2 && c.c3 == e.3 && c.c4 == e.4
  }

  predicate ColumnsFit(e: (int, int, int, int, int)) {
    && e.0 < 77 * 0x1000_0000_0000_0000_0000_0000_0000
    && e.1 < 77 * 0x1000_0000_0000_0000_0000_0000_0000
    && e.2 < 77 * 0x1000_0000_0000_0000_0000_0000_0000
    && e.3 < 77 * 0x1000_0000_0000_0000_0000_0000_0000
    && e.4 < 5 * 0x1000_0000_0000_0000_0000_0000_0000
  }

  /** A coefficient is a sum of products plus 19 times another; it fits 128 bits. */
  lemma ColumnFits(plain: int, folded: int, column: int)
    requires 0 <= plain <= 5 * 0xfff_ffff_ffff_ffff_ffff_ffff_ffff
    requires 0 <= folded <= 4 * 0xfff_ffff_ffff_ffff_ffff_ffff_ffff
    requires column == plain + 19 * folded
    ensures Wrap128(column) == column
  {
  }

  lemma ProductColumnsExact(a: Limbs, b: Limbs)
    requires Loose(a) && Loose(b)
    ensures ColumnsAre(ProductColumns(a, b), ExactColumns(a, b))
    ensures ColumnsFit(ExactColumns(a, b))
  {
    RowBound(a.n0, b);
    RowBound(a.n1, b);
    RowBound(a.n2, b);
    RowBound(a.n3, b);
    RowBound(a.n4, b);
    var e := ExactColumns(a, b);
    ColumnFits(a.n0 * b.n0, a.n4 * b.n1 + a.n3 * b.n2 + a.n2 * b.n3 + a.n1 * b.n4, e.0);
    ColumnFits(a.n1 * b.n0 + a.n0 * b.n1, a.n4 * b.n2 + a.n3 * b.n3 + a.n2 * b.n4, e.1);
    ColumnFits(a.n2 * b.n0 + a.n1 * b.n1 + a.n0 * b.n2, a.n4 * b.n3 + a.n3 * b.n4, e.2);
    ColumnFits(a.n3 * b.n0 + a.n2 * b.n1 + a.n1 * b.n2 + a.n0 * b.n3, a.n4 * b.n4, e.3);
    ColumnFits(a.n4 * b.n0 + a.n3 * b.n1 + a.n2 * b.n2 + a.n1 * b.n3 + a.n0 * b.n4, 0, e.4);
  }

  lemma SquareColumnsExact(a: Limbs)
    requires Loose(a)
    ensures ColumnsAre(SquareColumns(a), ExactColumns(a, a))
  {
    RowBound(a.n0, a);
    RowBound(a.n1, a);
    RowBound(a.n2, a);
    RowBound(a.n3, a);
    RowBound(a.n4, a);
    var e := ExactColumns(a, a);
    ColumnFits(a.n0 * a.n0, a.n4 * a.n1 + a.n3 * a.n2 + a.n2 * a.n3 + a.n1 * a.n4, e.0);
    ColumnFits(a.n1 * a.n0 + a.n0 * a.n1, a.n4 * a.n2 + a.n3 * a.n3 + a.n2 * a.n4, e.1);
    ColumnFits(a.n2 * a.n0 + a.n1 * a.n1 + a.n0 * a.n2, a.n4 * a.n3 + a.n3 * a.n4, e.2);
    ColumnFits(a.n3 * a.n0 + a.n2 * a.n1 + a.n1 * a.n2 + a.n0 * a.n3, a.n4 * a.n4, e.3);
    ColumnFits(a.n4 * a.n0 + a.n3 * a.n1 + a.n2 * a.n2 + a.n1 * a.n3 + a.n0 * a.n4, 0, e.4);
  }

  lemma ScaleRadix(x: int, d0: int, d1: int, d2: int, d3: int, d4: int)
    ensures x * Radix51(d0, d1, d2, d3, d4) == Radix51(x * d0, x * d1, x * d2, x * d3, x * d4)
  {
  }

  lemma RadixTimes(d0: int, d1: int, d2: int, d3: int, d4: int, y: int)
    ensures Radix51(d0, d1, d2, d3, d4) * y == Radix51(d0 * y, d1 * y, d2 * y, d3 * y, d4 * y)
  {
  }

  /** Folding the limbs above 2^255 back times 19 keeps the product modulo P. */
  lemma ProductFolds(a: Limbs, b: Limbs)
    ensures var e := ExactColumns(a, b);
            Cong(Radix51(e.0, e.1, e.2, e.3, e.4), Value(a) * Value(b))
  {
    var e := ExactColumns(a, b);
    RadixTimes(a.n0, a.n1, a.n2, a.n3, a.n4, Value(b));
    ScaleRadix(a.n0, b.n0, b.n1, b.n2, b.n3, b.n4);
    ScaleRadix(a.n1, b.n0, b.n1, b.n2, b.n3, b.n4);
    ScaleRadix(a.n2, b.n0, b.n1, b.n2, b.n3, b.n4);
    ScaleRadix(a.n3, b.n0, b.n1, b.n2, b.n3, b.n4);
    ScaleRadix(a.n4, b.n0, b.n1, b.n2, b.n3, b.n4);
    var k := Radix51(a.n4 * b.n1 + a.n3 * b.n2 + a.n2 * b.n3 + a.n1 * b.n4,
                     a.n4 * b.n2 + a.n3 * b.n3 + a.n2 * b.n4,
                     a.n4 * b.n3 + a.n3 * b.n4,
                     a.n4 * b.n4,
                     0);
    CongIntro(Radix51(e.0, e.1, e.2, e.3, e.4), Value(a) * Value(b), -k);
  }

  lemma MulExact(a: Limbs, b: Limbs)
    requires Loose(a) && Loose(b)
    ensures Tight(Mul(a, b))
    ensures Cong(Value(Mul(a, b)), Value(a) * Value(b))
  {
    ProductColumnsExact(a, b);
    CarryChainExact(ProductColumns(a, b));
    ProductFolds(a, b);
    var e := ExactColumns(a, b);
    CongTrans(Value(Mul(a, b)), Radix51(e.0, e.1, e.2, e.3, e.4), Value(a) * Value(b));
  }

  lemma SquaringExact(a: Limbs)
    requires Loose(a)
    ensures Tight(CarryChain(SquareColumns(a)))
    ensures Cong(Value(CarryChain(SquareColumns(a))), Value(a) * Value(a))
  {
    SquareColumnsExact(a);
    ProductColumnsExact(a, a);
    CarryChainExact(SquareColumns(a));
    ProductFolds(a, a);
    var e := ExactColumns(a, a);
    CongTrans(Value(CarryChain(SquareColumns(a))), Radix51(e.0, e.1, e.2, e.3, e.4), Value(a) * Value(a));
  }

  // Reduction, addition, subtraction

  lemma CarryOutOfWord(x: u64)
    ensures x == Low51(x) + 0x8_0000_0000_0000 * High51(x)
    ensures 0 <= Low51(x) < 0x8_0000_0000_0000 && 0 <= High51(x) < 0x2000
  {
  }

  /** `reduce` is safe on any limbs at all. */
  lemma ReduceLimbs(a: Limbs)
    ensures Tight(Reduce(a))
    ensures Reduce(a) == Limbs(Low51(a.n0) + High51(a.n4) * 19, Low51(a.n1) + High51(a.n0),
                               Low51(a.n2) + High51(a.n1), Low51(a.n3) + High51(a.n2), Low51(a.n4) + High51(a.n3))
  {
    CarryOutOfWord(a.n0);
    CarryOutOfWord(a.n1);
    CarryOutOfWord(a.n2);
    CarryOutOfWord(a.n3);
    CarryOutOfWord(a.n4);
    var r := Limbs(Low51(a.n0) + High51(a.n4) * 19, Low51(a.n1) + High51(a.n0),
                   Low51(a.n2) + High51(a.n1), Low51(a.n3) + High51(a.n2), Low51(a.n4) + High51(a.n3));
    assert Tight(r) && Reduce(a) == r by {
      hide Wrap64, Low51, High51;
      FitsWord(r.n0);
      FitsWord(r.n1);
      FitsWord(r.n2);
      FitsWord(r.n3);
      FitsWord(r.n4);
    }
  }

  lemma ReduceExact(a: Limbs)
    ensures Tight(Reduce(a))
    ensures Cong(Value(Reduce(a)), Value(a))
  {
    ReduceLimbs(a);
    CarryOutOfWord(a.n0);
    CarryOutOfWord(a.n1);
    CarryOutOfWord(a.n2);
    CarryOutOfWord(a.n3);
    CarryOutOfWord(a.n4);
    CongIntro(Value(Reduce(a)), Value(a), -1 * High51(a.n4));
  }

  lemma AddExact(a: Limbs, b: Limbs)
    requires Loose(a) && Loose(b)
    ensures Value(Add(a, b)) == Value(a) + Value(b)
    ensures Tight(a) && Tight(b) ==> Loose(Add(a, b))
  {
    var r := Limbs(a.n0 + b.n0, a.n1 + b.n1, a.n2 + b.n2, a.n3 + b.n3, a.n4 + b.n4);
    assert Add(a, b) == r by {
      hide Wrap64;
      FitsWord(r.n0);
      FitsWord(r.n1);
      FitsWord(r.n2);
      FitsWord(r.n3);
      FitsWord(r.n4);
    }
  }

  /** A limb of a difference: adding the limb of 16 P first keeps it from underflowing. */
  lemma DifferenceFits(x: u64, bias: u64, y: u64)
    requires x < 0x40_0000_0000_0000 && y < 0x40_0000_0000_0000
    requires 0x40_0000_0000_0000 <= bias < 0x100_0000_0000_0000
    ensures Wrap64(bias - y) == bias - y
    ensures Wrap64(Wrap64(x + bias) - y) == x + bias - y
  {
  }

  /** The five biases are the limbs of 16 P. */
  lemma BiasIs16P(a: Limbs, b: Limbs)
    ensures Radix51(a.n0 + 36028797018963664 - b.n0, a.n1 + 36028797018963952 - b.n1, a.n2 + 36028797018963952 - b.n2,
                    a.n3 + 36028797018963952 - b.n3, a.n4 + 36028797018963952 - b.n4)
         == Value(a) - Value(b) + 16 * P
  {
  }

  lemma SubLimbs(a: Limbs, b: Limbs) returns (d: Limbs)
    requires Loose(a) && Loose(b)
    ensures Sub(a, b) == Reduce(d)
    ensures d == Limbs(a.n0 + 36028797018963664 - b.n0, a.n1 + 36028797018963952 - b.n1,
                       a.n2 + 36028797018963952 - b.n2,
                       a.n3 + 36028797018963952 - b.n3, a.n4 + 36028797018963952 - b.n4)
  {
    hide Wrap64, Low51, High51;
    DifferenceFits(a.n0, 36028797018963664, b.n0);
    DifferenceFits(a.n1, 36028797018963952, b.n1);
    DifferenceFits(a.n2, 36028797018963952, b.n2);
    DifferenceFits(a.n3, 36028797018963952, b.n3);
    DifferenceFits(a.n4, 36028797018963952, b.n4);
    d := Limbs(a.n0 + 36028797018963664 - b.n0, a.n1 + 36028797018963952 - b.n1, a.n2 + 36028797018963952 - b.n2,
               a.n3 + 36028797018963952 - b.n3, a.n4 + 36028797018963952 - b.n4);
  }

  lemma SubExact(a: Limbs, b: Limbs)
    requires Loose(a) && Loose(b)
    ensures Tight(Sub(a, b))
    ensures Cong(Value(Sub(a, b)), Value(a) - Value(b))
  {
    hide Wrap64, Low51, High51, Sub, Reduce, Cong;
    var d := SubLimbs(a, b);
    ReduceExact(d);
    BiasIs16P(a, b);
    CongIntro(Value(d), Value(a) - Value(b), 16);
    CongTrans(Value(Sub(a, b)), Value(d), Value(a) - Value(b));
  }

  /** Negation is subtraction from zero, limb by limb. */
  lemma NegIsSub(a: Limbs)
    requires Loose(a)
    ensures Neg(a) == Sub(ZERO, a)
  {
    hide Wrap64, Low51, High51;
    DifferenceFits(0, 36028797018963664, a.n0);
    DifferenceFits(0, 36028797018963952, a.n1);
    DifferenceFits(0, 36028797018963952, a.n2);
    DifferenceFits(0, 36028797018963952, a.n3);
    DifferenceFits(0, 36028797018963952, a.n4);
    var d := SubLimbs(ZERO, a);
  }

  lemma NegExact(a: Limbs)
    requires Loose(a)
    ensures Tight(Neg(a))
    ensures Cong(Value(Neg(a)), -Value(a))
  {
    hide Sub, Neg, Value, Cong;
    NegIsSub(a);
    ZeroLimbs();
    SubExact(ZERO, a);
  }

  lemma ZeroLimbs()
    ensures Loose(ZERO) && Value(ZERO) == 0
    ensures Tight(ONE) && Value(ONE) == 1
  {
  }

  // Repeated squaring

  lemma SquareIsPow(x: int)
    ensures Pow(x, 2) == x * x
    ensures Pow(x, 1) == x
  {
    assert Pow(x, 1) == x * Pow(x, 0);
  }

  lemma PowOfSquare(x: int, k: nat)
    requires k > 0
    ensures Pow(2, k) == 2 * Pow(2, k - 1) && Pow(2, k - 1) >= 1
    ensures Pow(x * x, Pow(2, k - 1)) == Pow(x, Pow(2, k))
  {
    PowPositive(2, k - 1);
    SquareIsPow(x);
    PowPow(x, 2, Pow(2, k - 1));
  }

  /** k squarings raise to the power 2^k, for every k; the limbs are below 2^52
      after each of them. */
  lemma {:induction false} Pow2kExact(a: Limbs, k: nat)
    requires Loose(a)
    ensures Loose(Pow2k(a, k)) && (k > 0 ==> Tight(Pow2k(a, k)))
    ensures Pow(2, k) >= 1
    ensures Cong(Value(Pow2k(a, k)), Pow(Value(a), Pow(2, k)))
    decreases k
  {
    hide Loose, Tight, Value, Cong, SquareColumns, CarryChain, Pow2k, Pow;
    if k == 0 {
      NoSquarings(a);
      CongRefl(Value(a));
    } else {
      var s := CarryChain(SquareColumns(a));
      var e := Pow(2, k - 1);
      OneSquaring(a, k);
      PowOfSquare(Value(a), k);
      SquaringExact(a);
      TightIsLoose(s);
      Pow2kExact(s, k - 1);
      PowCong(Value(s), Value(a) * Value(a), e);
      CongTrans(Value(Pow2k(a, k)), Pow(Value(s), e), Pow(Value(a) * Value(a), e));
    }
  }

  lemma NoSquarings(a: Limbs)
    requires Loose(a)
    ensures Pow2k(a, 0) == a && Pow(2, 0) == 1 && Pow(Value(a), 1) == Value(a)
  {
    hide Value;
    SquareIsPow(Value(a));
  }

  lemma OneSquaring(a: Limbs, k: nat)
    requires k > 0
    ensures Pow2k(a, k) == Pow2k(CarryChain(SquareColumns(a)), k - 1)
    ensures k == 1 ==> Pow2k(a, k) == CarryChain(SquareColumns(a))
  {
    hide CarryChain, SquareColumns;
  }

  lemma TightIsLoose(a: Limbs)
    requires Tight(a)
    ensures Loose(a)
  {
  }

  lemma SquareExact(a: Limbs)
    requires Loose(a)
    ensures Tight(Square(a))
    ensures Cong(Value(Square(a)), Value(a) * Value(a))
  {
    SquaringExact(a);
    assert Square(a) == Pow2k(CarryChain(SquareColumns(a)), 0);
  }
}
