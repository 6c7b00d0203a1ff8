/** Which limbs a multiplication, a squaring and a subtraction return: not only
    what they stand for modulo P. The curve test compares limbs, so this is
    what decides its comparisons. */
module ExactLimbs {
  import opened Words
  import opened Modular
  import opened FieldLimbs
  import opened FieldProofs
  import opened CanonicalForm

  /** The number a product's carry chain starts from, below any truncation. */
  function ColumnSum(a: Limbs, b: Limbs): int {
    var e := ExactColumns(a, b);
    Radix51(e.0, e.1, e.2, e.3, e.4)
  }

  /** The radix-2^51 digits of n below 2^255, with what lies above folded back, 19
      times, into the two lowest limbs; only the lowest of these is cut again. */
  predicate Folded(r: Limbs, n: nat) {
    var (q, low) := (n / TWO_255, DigitsOf(n % TWO_255));
    && r.n0 < 0x8_0000_0000_0000
    && Above(r.n0, r.n1) == Above(low.n0, low.n1) + 19 * q
    && r.n2 == low.n2 && r.n3 == low.n3 && r.n4 == low.n4
  }

  /** The number determines the limbs. */
  lemma FoldedUnique(r: Limbs, r': Limbs, n: nat)
    requires Folded(r, n) && Folded(r', n)
    ensures r == r'
  {
    hide DigitsOf;
    LowestDigit(r.n0, r.n1, r'.n0, r'.n1);
  }

  /** Carrying through all five columns is division by 2^51, five times. */
  lemma CarriedDigits(c0: nat, c1: nat, c2: nat, c3: nat, c4: nat, h0: nat, h1: nat, h2: nat, h3: nat)
    requires h0 == High51(c0) && h1 == High51(c1 + h0) && h2 == High51(c2 + h1) && h3 == High51(c3 + h2)
    ensures var n := Radix51(c0, c1, c2, c3, c4);
            && n >= 0 && n / TWO_255 == High51(c4 + h3)
            && DigitsOf(n % TWO_255)
               == Limbs(Low51(c0), Low51(c1 + h0), Low51(c2 + h1), Low51(c3 + h2), Low51(c4 + h3))
  {
    hide Low51, High51, DigitsOf;
    OneDigit(c0);
    OneDigit(c1 + h0);
    OneDigit(c2 + h1);
    OneDigit(c3 + h2);
    OneDigit(c4 + h3);
    var n := Radix51(c0, c1, c2, c3, c4);
    var digits := Limbs(Low51(c0), Low51(c1 + h0), Low51(c2 + h1), Low51(c3 + h2), Low51(c4 + h3));
    DigitsBound(digits);
    assert n == TWO_255 * High51(c4 + h3) + Value(digits);
    DivideBy255(n, High51(c4 + h3), Value(digits));
    DigitsOfExact(Value(digits));
    DigitsUnique(digits, DigitsOf(Value(digits)));
  }

  lemma DigitsBound(a: Limbs)
    requires Digits51(a)
    ensures 0 <= Value(a) < TWO_255
  {
  }

  lemma DivideBy255(n: nat, q: nat, r: nat)
    requires n == TWO_255 * q + r && r < TWO_255
    ensures n / TWO_255 == q && n % TWO_255 == r
  {
  }

  lemma ChainFolds(c: Columns)
    requires ColumnsFit((c.c0, c.c1, c.c2, c.c3, c.c4))
    ensures Radix51(c.c0, c.c1, c.c2, c.c3, c.c4) >= 0
    ensures Folded(CarryChain(c), Radix51(c.c0, c.c1, c.c2, c.c3, c.c4))
  {
    hide CarryInto, FoldCarry, High51, Low51, Radix51, DigitsOf;
    CarryIntoExact(c.c1, c.c0);
    var c1 := CarryInto(c.c1, c.c0);
    CarryIntoExact(c.c2, c1);
    var c2 := CarryInto(c.c2, c1);
    CarryIntoExact(c.c3, c2);
    var c3 := CarryInto(c.c3, c2);
    CarryIntoExact(c.c4, c3);
    var c4 := CarryInto(c.c4, c3);
    CarriedDigits(c.c0, c.c1, c.c2, c.c3, c.c4, High51(c.c0), High51(c1), High51(c2), High51(c3));
    FoldCarryLimbs(c.c0, c1, c2, c3, c4);
  }

  lemma FoldCarryLimbs(c0: u128, c1: u128, c2: u128, c3: u128, c4: u128)
    requires c4 < 5 * 0x1000_0000_0000_0000_0000_0000_0000 + 0x1_0000_0000_0000_0000
    ensures var r := FoldCarry(c0, c1, c2, c3, c4);
            && r.n0 < 0x8_0000_0000_0000
            && Above(r.n0, r.n1) == Above(Low51(c0), Low51(c1)) + 19 * High51(c4)
            && r.n2 == Low51(c2) && r.n3 == Low51(c3) && r.n4 == Low51(c4)
  {
    var carry := High51(c4);
    var out0 := Low51(c0) + carry * 19;
    Split51(c4);
    OneDigit(out0);
    OneDigit(c0);
    OneDigit(c1);
    hide Wrap64, High51, Low51;
    FitsWord(carry);
    FitsWord(carry * 19);
    FitsWord(out0);
    FitsWord(Low51(c1) + High51(out0));
  }

  /** The limbs of a product are those of its unfolded sum; that sum stands for the
      product. */
  lemma MulLimbs(a: Limbs, b: Limbs)
    requires Loose(a) && Loose(b)
    ensures ColumnSum(a, b) >= 0 && Folded(Mul(a, b), ColumnSum(a, b))
    ensures Cong(ColumnSum(a, b), Value(a) * Value(b))
  {
    hide CarryChain, Folded, Cong, Value, ColumnsFit, Radix51, ExactColumns, Loose;
    ProductColumnsExact(a, b);
    ChainFolds(ProductColumns(a, b));
    ProductFolds(a, b);
  }

  /** Squaring, with its symmetric terms added once, returns the very limbs of the
      multiplication of an element by itself. */
  lemma SquareIsMul(a: Limbs)
    requires Loose(a)
    ensures Square(a) == Mul(a, a)
  {
    hide CarryChain, SquareColumns, ProductColumns, ExactColumns, Loose, Pow2k;
    SquareColumnsExact(a);
    ProductColumnsExact(a, a);
    OneSquaring(a, 1);
  }

  /** A difference is 16 P too large before `reduce`, which takes off P once for
      every carry out of the top limb. */
  lemma SubValue(a: Limbs, b: Limbs)
    requires Loose(a) && Loose(b)
    ensures a.n4 + 36028797018963952 - b.n4 >= 0
    ensures Value(Sub(a, b))
         == Value(a) - Value(b) + 16 * P - P * High51(a.n4 + 36028797018963952 - b.n4)
  {
    hide Reduce, Wrap64, High51, Value;
    var d := SubLimbs(a, b);
    BiasIs16P(a, b);
    ReduceValue(d);
    ValueIs(d);
  }

  lemma ValueIs(a: Limbs)
    ensures Value(a) == Radix51(a.n0, a.n1, a.n2, a.n3, a.n4)
  {
  }

  lemma ReduceValue(a: Limbs)
    ensures Value(Reduce(a)) == Value(a) - P * High51(a.n4)
  {
    ReduceLimbs(a);
    hide Reduce, Low51, High51;
    OneDigit(a.n0);
    OneDigit(a.n1);
    OneDigit(a.n2);
    OneDigit(a.n3);
    OneDigit(a.n4);
  }
}
