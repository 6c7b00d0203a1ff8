/** When the square-root routine sets its flag and the curve test accepts, and
    which of the two roots is returned. */
module CurveAnswers {
  import opened Words
  import opened LittleEndian
  import opened Powers
  import opened Modular
  import opened FieldLimbs
  import opened FieldProofs
  import opened PowerChain
  import opened ByteDecoding
  import opened CurvePoint
  import opened CanonicalForm

  /** u (u v^7)^((P - 1) / 4): u when u / v is a square with a plain root, -u when
      its root has to be turned. */
  function EulerValue(u: int, v: int): int {
    u * Pow(PowerBase(u, v), (P - 1) / 4)
  }

  // The flag

  lemma CheckIsEulerValue(u: Limbs, v: Limbs)
    requires Loose(u) && Loose(v)
    ensures Cong(Value(Check(u, v)), EulerValue(Value(u), Value(v)))
  {
    hide Value, Cong, Check, Pow, PowerBase, Tight, Loose;
    CheckIsEulerPower(u, v);
  }

  /** The flag, without any hypothesis on the limbs: it is never set in vain. */
  lemma FlagMeansRoot(u: Limbs, v: Limbs)
    requires Loose(u) && Loose(v) && SqrtRatioI(u, v).1
    ensures Cong(EulerValue(Value(u), Value(v)), Value(u)) || Cong(EulerValue(Value(u), Value(v)), -Value(u))
  {
    hide Value, Cong, EulerValue, Check, Loose, Turned, Neg;
    var (c, w) := (Value(Check(u, v)), EulerValue(Value(u), Value(v)));
    CheckIsEulerValue(u, v);
    CongSym(c, w);
    ComparisonsSound(u, v);
    if CorrectSign(u, v) {
      CongTrans(w, c, Value(u));
    } else {
      CongTrans(w, c, -Value(u));
    }
  }

  /** A plain square is recognised, when the limbs compared are canonical. */
  lemma PlainSquareFlagged(u: Limbs, v: Limbs)
    requires Loose(u) && Loose(v)
    ensures Canonical(Check(u, v)) && Canonical(u) && Cong(EulerValue(Value(u), Value(v)), Value(u)) ==>
              SqrtRatioI(u, v).1 && CorrectSign(u, v)
  {
    hide Value, Cong, EulerValue, Check, Loose, Canonical, Turned, Neg;
    var (c, w) := (Value(Check(u, v)), EulerValue(Value(u), Value(v)));
    if Canonical(Check(u, v)) && Canonical(u) && Cong(w, Value(u)) {
      CheckIsEulerValue(u, v);
      CongTrans(c, w, Value(u));
      CanonicalDecides(Check(u, v), u);
    }
  }

  /** A square whose root has to be turned is recognised as well. */
  lemma TurnedSquareFlagged(u: Limbs, v: Limbs)
    requires Loose(u) && Loose(v)
    ensures Canonical(Check(u, v)) && Canonical(Neg(u)) && Cong(EulerValue(Value(u), Value(v)), -Value(u)) ==>
              SqrtRatioI(u, v).1 && FlippedSign(u, v)
  {
    hide Value, Cong, EulerValue, Check, Loose, Tight, Canonical, Turned, Neg;
    var (c, w) := (Value(Check(u, v)), EulerValue(Value(u), Value(v)));
    if Canonical(Check(u, v)) && Canonical(Neg(u)) && Cong(w, -Value(u)) {
      CheckIsEulerValue(u, v);
      CongTrans(c, w, -Value(u));
      NegExact(u);
      CongSym(Value(Neg(u)), -Value(u));
      CongTrans(c, -Value(u), Value(Neg(u)));
      CanonicalDecides(Check(u, v), Neg(u));
    }
  }

  /** On canonical limbs the flag is exactly the comparison modulo P. */
  lemma FlagIff(u: Limbs, v: Limbs)
    requires Loose(u) && Loose(v)
    ensures Canonical(Check(u, v)) && Canonical(u) && Canonical(Neg(u)) ==>
              (SqrtRatioI(u, v).1
               <==> || Cong(EulerValue(Value(u), Value(v)), Value(u))
                    || Cong(EulerValue(Value(u), Value(v)), -Value(u)))
  {
    hide Value, Cong, EulerValue, Check, Loose, Canonical, SqrtRatioI, Neg;
    if SqrtRatioI(u, v).1 {
      FlagMeansRoot(u, v);
    } else if Cong(EulerValue(Value(u), Value(v)), Value(u)) {
      PlainSquareFlagged(u, v);
    } else if Cong(EulerValue(Value(u), Value(v)), -Value(u)) {
      TurnedSquareFlagged(u, v);
    }
  }

  // The curve test

  /** The power depends on its arguments modulo P only. */
  lemma EulerCong(u: int, u': int, v: int, v': int)
    requires Cong(u, u') && Cong(v, v')
    ensures Cong(EulerValue(u, v), EulerValue(u', v'))
  {
    hide Cong, Pow, PowerBase;
    BaseCong(u, u', v, v');
    PowCong(PowerBase(u, v), PowerBase(u', v'), (P - 1) / 4);
    CongMul(u, u', Pow(PowerBase(u, v), (P - 1) / 4), Pow(PowerBase(u', v'), (P - 1) / 4));
  }

  lemma BaseCong(u: int, u': int, v: int, v': int)
    requires Cong(u, u') && Cong(v, v')
    ensures Cong(PowerBase(u, v), PowerBase(u', v'))
  {
    hide Cong;
    CongMul(v, v', v, v');
    CongMul(v * v, v' * v', v, v');
    CongMul(v * v * v, v' * v' * v', v * v * v, v' * v' * v');
    CongMul(v * v * v * (v * v * v), v' * v' * v' * (v' * v' * v'), v, v');
    CongMul(u, u', v * v * v * (v * v * v) * v, v' * v' * v' * (v' * v' * v') * v');
  }

  /** The decoded ordinate: the little-endian value without its top bit. */
  function Ordinate(repr: seq<byte>): nat {
    FromLE(repr) % TWO_255
  }

  /** y^2 - 1 and d y^2 + 1. */
  function NumeratorOf(y: int): int {
    y * y - 1
  }

  function DenominatorOf(y: int): int {
    Value(EDWARDS_D) * (y * y) + 1
  }

  /** The limbs the test compares. */
  function Compared(repr: seq<byte>): (Limbs, Limbs)
    requires |repr| == 32
  {
    var y := FromBytes(repr);
    (Numerator(y), Denominator(y))
  }

  lemma ComparedStand(repr: seq<byte>)
    requires |repr| == 32
    ensures var (n, d) := Compared(repr);
            && Loose(n) && Loose(d)
            && Cong(Value(n), NumeratorOf(Ordinate(repr)))
            && Cong(Value(d), DenominatorOf(Ordinate(repr)))
  {
    hide FromBytes, FromLE, Value, Numerator, Denominator, Tight, Loose, Cong;
    var y := FromBytes(repr);
    DecodedTight(repr);
    TightIsLoose(y);
    NumeratorStands(y);
    TightIsLoose(Numerator(y));
    DenominatorStands(y);
  }

  /** 32 bytes whose ordinate has a root by the power criterion, plain or turned,
      are accepted, when the limbs compared are canonical; and only such bytes are. */
  lemma AcceptedIff(repr: seq<byte>)
    requires |repr| == 32
    ensures var (u, v) := Compared(repr);
            var (n, w) := (NumeratorOf(Ordinate(repr)),
                           EulerValue(NumeratorOf(Ordinate(repr)), DenominatorOf(Ordinate(repr))));
            Canonical(Check(u, v)) && Canonical(u) && Canonical(Neg(u)) ==>
              (IsYPointValid(repr) <==> Cong(w, n) || Cong(w, -n))
  {
    hide FromBytes, FromLE, Value, Numerator, Denominator, Loose, Cong, SqrtRatioI, EulerValue, Canonical, Check, Neg,
      NumeratorOf, DenominatorOf;
    var (u, v) := Compared(repr);
    var (n, d) := (NumeratorOf(Ordinate(repr)), DenominatorOf(Ordinate(repr)));
    ComparedStand(repr);
    FlagIff(u, v);
    EulerCong(Value(u), n, Value(v), d);
    SameVerdict(EulerValue(Value(u), Value(v)), EulerValue(n, d), Value(u), n);
  }

  lemma SameVerdict(w: int, w': int, u: int, u': int)
    requires Cong(w, w') && Cong(u, u')
    ensures Cong(w, u) <==> Cong(w', u')
    ensures Cong(w, -u) <==> Cong(w', -u')
  {
    hide Cong;
    CongSym(w, w');
    CongSym(u, u');
    CongRefl(-1);
    CongMul(-1, -1, u, u');
    CongMul(-1, -1, u', u);
    if Cong(w, u) {
      CongTrans(w', w, u);
      CongTrans(w', u, u');
    }
    if Cong(w', u') {
      CongTrans(w, w', u');
      CongTrans(w, u', u);
    }
    if Cong(w, -u) {
      CongTrans(w', w, -u);
      CongTrans(w', -u, -u');
    }
    if Cong(w', -u') {
      CongTrans(w, w', -u');
      CongTrans(w, -u', -u);
    }
  }

  // The sign of the root

  /** The lowest bit of the limbs is the parity of the number. */
  lemma NegativeIsOdd(a: Limbs)
    ensures IsNegative(a) <==> Value(a) % 2 == 1
  {
    hide Value, Above;
    Nested(a);
    ParityOfLowest(a.n0, Above(a.n1, Above(a.n2, Above(a.n3, a.n4))));
  }

  lemma ParityOfLowest(d: int, higher: int)
    ensures Above(d, higher) % 2 == d % 2
  {
    var half := 0x4_0000_0000_0000 * higher;
    assert Above(d, higher) == d + 2 * half;
    TwiceAdded(d, half);
  }

  lemma TwiceAdded(d: int, half: int)
    ensures (d + 2 * half) % 2 == d % 2
  {
  }

  /** The root returned is the even one, when negating leaves canonical limbs. */
  lemma RootIsEven(u: Limbs, v: Limbs)
    requires Loose(u) && Loose(v)
    requires IsNegative(Turned(u, v)) ==> Canonical(Turned(u, v)) && Canonical(Neg(Turned(u, v)))
    ensures Value(SqrtRatioI(u, v).0) % 2 == 0
  {
    hide Value, Cong, Turned, Neg, Loose, Tight, Canonical, IsNegative;
    var t := Turned(u, v);
    NegativeIsOdd(t);
    ValueNonnegative(t);
    if IsNegative(t) {
      TurnedSound(u, v);
      TightIsLoose(t);
      NegExact(t);
      OppositeParity(Value(t), Value(Neg(t))) by {
        CanonicalBounds(t);
        CanonicalBounds(Neg(t));
      }
    }
  }

  lemma CanonicalBounds(a: Limbs)
    requires Canonical(a)
    ensures 0 <= Value(a) < P
  {
    ValueNonnegative(a);
  }

  lemma OppositeParity(x: int, y: int)
    requires 0 <= x < P && 0 <= y < P && Cong(y, -x) && x % 2 == 1
    ensures y == P - x && y % 2 == 0
  {
    hide Cong;
    var k := CongWitness(y, -x);
    assert k == 1;
  }

  /** The constant is the even square root of -1. */
  lemma SqrtM1IsEvenRoot()
    ensures Canonical(SQRT_M1) && Value(SQRT_M1) % 2 == 0 && Cong(Value(SQRT_M1) * Value(SQRT_M1), -1)
  {
    SqrtM1Squares();
  }
}
