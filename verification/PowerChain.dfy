/** The addition chain of `pow22501` and `pow_p58` computes the powers its
    documentation names. */
module PowerChain {
  import opened Powers
  import opened Modular
  import opened FieldLimbs
  import opened FieldProofs

  /** The limbs are below 2^52 and stand for v modulo P. */
  ghost predicate Stands(t: Limbs, v: int) {
    Tight(t) && Cong(Value(t), v)
  }

  lemma MulStands(s: Limbs, t: Limbs, u: int, v: int)
    requires Loose(s) && Loose(t) && Cong(Value(s), u) && Cong(Value(t), v)
    ensures Stands(Mul(s, t), u * v)
  {
    hide Mul, Value, Cong, Tight, Loose;
    MulExact(s, t);
    CongMul(Value(s), u, Value(t), v);
    CongTrans(Value(Mul(s, t)), Value(s) * Value(t), u * v);
  }

  lemma SquareStands(t: Limbs, v: int)
    requires Loose(t) && Cong(Value(t), v)
    ensures Stands(Square(t), v * v)
  {
    hide Square, Value, Cong, Tight, Loose;
    SquareExact(t);
    CongMul(Value(t), v, Value(t), v);
    CongTrans(Value(Square(t)), Value(t) * Value(t), v * v);
  }

  lemma NegStands(t: Limbs, v: int)
    requires Loose(t) && Cong(Value(t), v)
    ensures Stands(Neg(t), -v)
  {
    hide Neg, Value, Cong, Tight, Loose;
    NegExact(t);
    CongMul(-1, -1, Value(t), v) by { CongIntro(-1, -1, 0); }
    CongTrans(Value(Neg(t)), -Value(t), -v);
  }

  lemma ProductStands(s: Limbs, t: Limbs, u: int, v: int)
    requires Stands(s, u) && Stands(t, v)
    ensures Stands(Mul(s, t), u * v)
  {
    hide Mul, Value, Cong;
    MulStands(s, t, u, v);
  }

  lemma SquarePow(t: Limbs, x: int, n: nat)
    requires Stands(t, Pow(x, n))
    ensures Stands(Square(t), Pow(x, n + n))
  {
    hide Square, Value, Cong, Pow;
    SquareStands(t, Pow(x, n));
    PowAdd(x, n, n);
  }

  lemma Pow2kPow(t: Limbs, x: int, n: nat, k: nat)
    requires k > 0
    requires Stands(t, Pow(x, n))
    ensures Pow(2, k) >= 1 && n * Pow(2, k) >= 0
    ensures Stands(Pow2k(t, k), Pow(x, n * Pow(2, k)))
  {
    hide Pow2k, Value, Cong, Pow;
    Pow2kExact(t, k);
    var e := Pow(2, k);
    PowCong(Value(t), Pow(x, n), e);
    PowPow(x, n, e);
    CongTrans(Value(Pow2k(t, k)), Pow(Value(t), e), Pow(Pow(x, n), e));
  }

  /** The number written as n ones in binary, 2^n - 1. */
  function Ones(n: nat): nat {
    if n == 0 then 0 else 2 * Ones(n - 1) + 1
  }

  lemma {:induction false} OnesShift(m: nat, k: nat)
    ensures Ones(m) * Pow(2, k) + Ones(k) == Ones(m + k)
    decreases k
  {
    if k != 0 {
      OnesShift(m, k - 1);
      MulAssoc(Ones(m), Pow(2, k - 1), 2);
    }
  }

  /** t stands for x^(2^n - 1). */
  ghost predicate StandsForOnes(t: Limbs, x: int, n: nat) {
    Stands(t, Pow(x, Ones(n)))
  }

  /** One link of the chain: shifting the exponent of t by k places and filling them with s. */
  lemma ChainLink(t: Limbs, s: Limbs, x: int, m: nat, k: nat)
    requires k > 0
    requires StandsForOnes(t, x, m) && StandsForOnes(s, x, k)
    ensures StandsForOnes(Mul(Pow2k(t, k), s), x, m + k)
  {
    hide Mul, Pow2k, Stands, Pow, Ones;
    Pow2kPow(t, x, Ones(m), k);
    ProductStands(Pow2k(t, k), s, Pow(x, Ones(m) * Pow(2, k)), Pow(x, Ones(k)));
    PowAdd(x, Ones(m) * Pow(2, k), Ones(k));
    OnesShift(m, k);
  }

  /** The operand itself, which need not be reduced. */
  lemma TimesOperand(x: Limbs, t: Limbs, n: nat)
    requires Loose(x) && Stands(t, Pow(Value(x), n))
    ensures Stands(Mul(x, t), Pow(Value(x), 1 + n))
  {
    hide Mul, Value, Cong;
    CongRefl(Value(x));
    TightIsLoose(t);
    MulStands(x, t, Value(x), Pow(Value(x), n));
  }

  lemma OperandSquared(x: Limbs)
    requires Loose(x)
    ensures Stands(Square(x), Pow(Value(x), 2))
  {
    hide Square, Value, Cong;
    CongRefl(Value(x));
    SquareStands(x, Value(x));
    SquareIsPow(Value(x));
  }

  lemma FiveOnes()
    ensures Ones(5) == 31
  {
  }

  /** The head of the chain: x^11 and x^31. */
  lemma ChainHead(x: Limbs, t0: Limbs, t2: Limbs, t3: Limbs)
    requires Loose(x)
    requires t0 == Square(x) && t2 == Mul(x, Square(Square(t0))) && t3 == Mul(t0, t2)
    ensures Stands(t3, Pow(Value(x), 11))
    ensures StandsForOnes(Mul(t2, Square(t3)), Value(x), 5)
  {
    hide Mul, Square, Stands, Pow, Value;
    var v := Value(x);
    OperandSquared(x);
    SquarePow(t0, v, 2);
    SquarePow(Square(t0), v, 4);
    TimesOperand(x, Square(Square(t0)), 8);
    ProductStands(t0, t2, Pow(v, 2), Pow(v, 9));
    PowAdd(v, 2, 9);
    SquarePow(t3, v, 11);
    ProductStands(t2, Square(t3), Pow(v, 9), Pow(v, 22));
    PowAdd(v, 9, 22);
    FiveOnes();
  }

  /** `pow22501` returns x^11 and x^(2^250 - 1). */
  lemma Pow22501Correct(x: Limbs)
    requires Loose(x)
    ensures Stands(Pow22501(x).0, Pow(Value(x), 11))
    ensures StandsForOnes(Pow22501(x).1, Value(x), 250)
  {
    hide Mul, Square, Stands, StandsForOnes, Pow, Pow2k, Value;
    var v := Value(x);
    var t0 := Square(x);
    var t2 := Mul(x, Square(Square(t0)));
    var t3 := Mul(t0, t2);
    ChainHead(x, t0, t2, t3);
    var t5 := Mul(t2, Square(t3));
    ChainLink(t5, t5, v, 5, 5);
    var t7 := Mul(Pow2k(t5, 5), t5);
    ChainLink(t7, t7, v, 10, 10);
    var t9 := Mul(Pow2k(t7, 10), t7);
    ChainLink(t9, t9, v, 20, 20);
    var t11 := Mul(Pow2k(t9, 20), t9);
    ChainLink(t11, t7, v, 40, 10);
    var t13 := Mul(Pow2k(t11, 10), t7);
    ChainLink(t13, t13, v, 50, 50);
    var t15 := Mul(Pow2k(t13, 50), t13);
    ChainLink(t15, t15, v, 100, 100);
    var t17 := Mul(Pow2k(t15, 100), t15);
    ChainLink(t17, t13, v, 200, 50);
  }

  lemma SmallPowersOfTwo()
    ensures Pow(2, 2) == 4 && Pow(2, 5) == 32
  {
    assert Pow(2, 5) == 2 * Pow(2, 4) && Pow(2, 4) == 2 * Pow(2, 3) && Pow(2, 3) == 2 * Pow(2, 2);
  }

  lemma PowersOfTwo()
    ensures Pow(2, 2) == 4
    ensures Pow(2, 250) == 0x400_0000_0000_0000_0000_0000_0000_0000_0000_0000_0000_0000_0000_0000_0000_0000
  {
    hide Pow;
    SmallPowersOfTwo();
    PowAdd(2, 5, 5);
    PowAdd(2, 10, 10);
    PowAdd(2, 20, 20);
    PowAdd(2, 10, 40);
    PowAdd(2, 50, 50);
    PowAdd(2, 100, 100);
    PowAdd(2, 50, 200);
  }

  lemma OnesValue(n: nat)
    ensures Ones(n) == Pow(2, n) - 1
  {
  }

  /** 4 (2^250 - 1) + 1 is the exponent (P - 5) / 8. */
  lemma ExponentP58()
    ensures 1 + Ones(250) * Pow(2, 2) == (P - 5) / 8
  {
    PowersOfTwo();
    OnesValue(250);
  }

  /** `pow_p58` raises to the power (P - 5) / 8. */
  lemma PowP58Correct(x: Limbs)
    requires Loose(x)
    ensures Stands(PowP58(x), Pow(Value(x), (P - 5) / 8))
  {
    hide Mul, Stands, Pow, Pow2k, Value, Pow22501, Ones;
    var v := Value(x);
    Pow22501Correct(x);
    var t19 := Pow22501(x).1;
    Pow2kPow(t19, v, Ones(250), 2);
    TimesOperand(x, Pow2k(t19, 2), Ones(250) * Pow(2, 2));
    ExponentP58();
  }
}
