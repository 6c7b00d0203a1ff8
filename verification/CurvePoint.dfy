/** The square root of a ratio and the curve-point test of curve25519.cpp. */
module CurvePoint {
  import opened Words
  import opened LittleEndian
  import opened Powers
  import opened Modular
  import opened FieldLimbs
  import opened FieldProofs
  import opened PowerChain
  import opened ByteDecoding

  /** The candidate root and what v times its square is. */
  function Candidate(u: Limbs, v: Limbs): Limbs {
    var v3 := Mul(Square(v), v);
    var v7 := Mul(Square(v3), v);
    Mul(Mul(u, v3), PowP58(Mul(u, v7)))
  }

  function Check(u: Limbs, v: Limbs): Limbs {
    Mul(v, Square(Candidate(u, v)))
  }

  predicate CorrectSign(u: Limbs, v: Limbs) {
    Check(u, v) == u
  }

  predicate FlippedSign(u: Limbs, v: Limbs) {
    Check(u, v) == Neg(u)
  }

  predicate FlippedSignI(u: Limbs, v: Limbs) {
    Check(u, v) == Mul(Neg(u), SQRT_M1)
  }

  /** The root before its sign is normalised. */
  function Turned(u: Limbs, v: Limbs): Limbs {
    if FlippedSign(u, v) || FlippedSignI(u, v) then Mul(SQRT_M1, Candidate(u, v)) else Candidate(u, v)
  }

  /** `sqrt_ratio_i`: the root, and the flag was_nonzero_square. */
  function SqrtRatioI(u: Limbs, v: Limbs): (Limbs, bool) {
    var r := Turned(u, v);
    (if IsNegative(r) then Neg(r) else r, CorrectSign(u, v) || FlippedSign(u, v))
  }

  function Numerator(y: Limbs): Limbs {
    Sub(Square(y), ONE)
  }

  function Denominator(y: Limbs): Limbs {
    Add(Mul(Square(y), EDWARDS_D), ONE)
  }

  predicate IsYPointValid(repr: seq<byte>)
    requires |repr| == 32
  {
    var y := FromBytes(repr);
    SqrtRatioI(Numerator(y), Denominator(y)).1
  }

  // The exponent identity, without P being prime

  /** v (u v^3 w)^2 with w = (u v^7)^e is u (u v^7)^(2e + 1). */
  lemma RootIdentity(u: int, v: int, v3: int, v7: int, e: nat)
    requires v3 == v * v * v && v7 == v3 * v3 * v
    ensures var r := u * v3 * Pow(u * v7, e);
            v * (r * r) == u * Pow(u * v7, 2 * e + 1)
  {
    var b := u * v7;
    var w := Pow(b, e);
    var r := u * v3 * w;
    PowAdd(b, e, e);
    assert Pow(b, 2 * e + 1) == b * (w * w);
    Rearrange(u, v, v3, w);
  }

  lemma Rearrange(u: int, v: int, v3: int, w: int)
    ensures v * ((u * v3 * w) * (u * v3 * w)) == u * (u * (v3 * v3 * v) * (w * w))
  {
    var a := u * v3;
    assert (a * w) * (a * w) == (a * a) * (w * w);
    assert a * a == u * (u * (v3 * v3));
    assert v * ((a * a) * (w * w)) == (v * (a * a)) * (w * w);
    assert v * (u * (u * (v3 * v3))) == u * (u * (v3 * v3 * v));
  }

  /** u v^7, the base of the exponentiation. */
  function PowerBase(u: int, v: int): int {
    u * (v * v * v * (v * v * v) * v)
  }

  /** The candidate stands for u v^3 (u v^7)^((P - 5) / 8). */
  lemma CandidateStands(u: Limbs, v: Limbs)
    requires Loose(u) && Loose(v)
    ensures var (a, b) := (Value(u), Value(v));
            Stands(Candidate(u, v), a * (b * b * b) * Pow(PowerBase(a, b), (P - 5) / 8))
  {
    hide Value, Mul, Square, PowP58, Loose, Tight, Cong, Pow;
    var (a, b) := (Value(u), Value(v));
    CongRefl(a);
    CongRefl(b);
    SquareStands(v, b);
    TightIsLoose(Square(v));
    MulStands(Square(v), v, b * b, b);
    var v3 := Mul(Square(v), v);
    TightIsLoose(v3);
    SquareStands(v3, b * b * b);
    TightIsLoose(Square(v3));
    MulStands(Square(v3), v, b * b * b * (b * b * b), b);
    var v7 := Mul(Square(v3), v);
    TightIsLoose(v7);
    MulStands(u, v7, a, b * b * b * (b * b * b) * b);
    var uv7 := Mul(u, v7);
    TightIsLoose(uv7);
    PowP58Correct(uv7);
    PowCong(Value(uv7), PowerBase(a, b), (P - 5) / 8);
    CongTrans(Value(PowP58(uv7)), Pow(Value(uv7), (P - 5) / 8), Pow(PowerBase(a, b), (P - 5) / 8));
    MulStands(u, v3, a, b * b * b);
    TightIsLoose(Mul(u, v3));
    TightIsLoose(PowP58(uv7));
    MulStands(Mul(u, v3), PowP58(uv7), a * (b * b * b), Pow(PowerBase(a, b), (P - 5) / 8));
  }

  /** The check stands for v times the square of the candidate. */
  lemma CheckIsSquareTimesV(u: Limbs, v: Limbs)
    requires Loose(u) && Loose(v)
    ensures Tight(Candidate(u, v))
    ensures Stands(Check(u, v), Value(v) * (Value(Candidate(u, v)) * Value(Candidate(u, v))))
  {
    hide Value, Mul, Square, Loose, Tight, Cong, Pow, Candidate;
    CandidateStands(u, v);
    var r := Candidate(u, v);
    CongRefl(Value(r));
    CongIntro(Value(v), Value(v), 0);
    TightIsLoose(r);
    SquareStands(r, Value(r));
    TightIsLoose(Square(r));
    MulStands(v, Square(r), Value(v), Value(r) * Value(r));
  }

  lemma SquareOfCandidate(c: int, a: int, b: int, r: int, e: nat)
    requires Cong(c, b * (r * r))
    requires Cong(r, a * (b * b * b) * Pow(PowerBase(a, b), e))
    ensures Cong(c, a * Pow(PowerBase(a, b), 2 * e + 1))
  {
    hide Cong, Pow;
    CongRefl(b);
    var s := a * (b * b * b) * Pow(PowerBase(a, b), e);
    CongMul(r, s, r, s);
    CongMul(b, b, r * r, s * s);
    RootIdentity(a, b, b * b * b, b * b * b * (b * b * b) * b, e);
    CongTrans(c, b * (r * r), b * (s * s));
  }

  /** The check stands for u (u v^7)^((P - 1) / 4), for all u and v; P is not
      assumed to be prime. */
  lemma CheckIsEulerPower(u: Limbs, v: Limbs)
    requires Loose(u) && Loose(v)
    ensures Stands(Check(u, v), Value(u) * Pow(PowerBase(Value(u), Value(v)), (P - 1) / 4))
  {
    hide Value, Cong, Pow, Tight, Candidate, Check, PowerBase;
    CandidateStands(u, v);
    CheckIsSquareTimesV(u, v);
    SquareOfCandidate(Value(Check(u, v)), Value(u), Value(v), Value(Candidate(u, v)), (P - 5) / 8);
    assert 2 * ((P - 5) / 8) + 1 == (P - 1) / 4;
  }

  /** Multiplying by the square root of -1 turns the sign of a square. */
  lemma TurnedSquare(r: int, i: int, t: int)
    requires Cong(i * i, -1) && Cong(t, i * r)
    ensures Cong(t * t, -(r * r))
  {
    hide Cong;
    CongRefl(r * r);
    CongMul(t, i * r, t, i * r);
    assert (i * r) * (i * r) == (i * i) * (r * r);
    CongMul(i * i, -1, r * r, r * r);
    CongTrans(t * t, (i * r) * (i * r), -(r * r));
  }

  lemma TurnedProduct(c: int, v: int, rr: int, tt: int)
    requires Cong(c, v * rr) && Cong(tt, -rr)
    ensures Cong(v * tt, -c)
  {
    hide Cong;
    CongRefl(v);
    CongRefl(-1);
    CongMul(v, v, tt, -rr);
    assert v * -rr == -(v * rr);
    CongMul(-1, -1, c, v * rr);
    CongSym(-c, -(v * rr));
    CongTrans(v * tt, -(v * rr), -c);
  }

  lemma NegatedSquare(t: int, r: int)
    requires Cong(t, -r)
    ensures Cong(t * t, r * r)
  {
    hide Cong;
    CongMul(t, -r, t, -r);
    assert -r * -r == r * r;
  }

  lemma SameProduct(v: int, tt: int, rr: int, w: int)
    requires Cong(tt, rr) && Cong(v * rr, w)
    ensures Cong(v * tt, w)
  {
    hide Cong;
    CongRefl(v);
    CongMul(v, v, tt, rr);
    CongTrans(v * tt, v * rr, w);
  }

  /** If u is congruent to -u i, then multiplying by i shows it congruent to -u. */
  lemma OwnNegative(u: int, i: int)
    requires Cong(i * i, -1) && Cong(u, -(u * i))
    ensures Cong(u, -u)
  {
    hide Cong;
    CongRefl(i);
    CongRefl(u);
    CongRefl(-1);
    CongMul(u, -(u * i), i, i);
    CongMul(u, u, i * i, -1);
    Reassociate(u, i);
    CongMul(-1, -1, u * (i * i), -u);
    CongTrans(u * i, -(u * (i * i)), u);
    CongMul(-1, -1, u * i, u);
    CongTrans(u, -(u * i), -u);
  }

  lemma Reassociate(u: int, i: int)
    ensures -(u * i) * i == -(u * (i * i))
    ensures -1 * (u * (i * i)) == -(u * (i * i))
  {
    MulAssoc(u, i, i);
  }

  /** When both the plain comparison and one of the turned ones succeed, u is
      congruent to -u, so turning the root does no harm. */
  lemma BothSigns(c: int, u: int, i: int)
    requires Cong(i * i, -1)
    requires Cong(c, u) && (Cong(c, -u) || Cong(c, -(u * i)))
    ensures Cong(-c, u)
  {
    hide Cong;
    CongRefl(-1);
    CongSym(c, u);
    if Cong(c, -u) {
      CongTrans(u, c, -u);
    } else {
      CongTrans(u, c, -(u * i));
      OwnNegative(u, i);
    }
    CongMul(-1, -1, c, u);
    CongSym(u, -u);
    CongTrans(-c, -u, u);
  }

  // Soundness of the root

  lemma SqrtM1Squares()
    ensures Tight(SQRT_M1)
    ensures Cong(Value(SQRT_M1) * Value(SQRT_M1), -1)
  {
    var k := (Value(SQRT_M1) * Value(SQRT_M1) + 1) / P;
    CongIntro(Value(SQRT_M1) * Value(SQRT_M1), -1, k);
  }

  /** What each successful comparison says about the value of the check. */
  lemma ComparisonsSound(u: Limbs, v: Limbs)
    requires Loose(u) && Loose(v)
    ensures var (c, a, i) := (Value(Check(u, v)), Value(u), Value(SQRT_M1));
            && (CorrectSign(u, v) ==> Cong(c, a))
            && (FlippedSign(u, v) ==> Cong(c, -a))
            && (FlippedSignI(u, v) ==> Cong(c, -(a * i)))
  {
    hide Candidate, Check, Value, Mul, Neg, Loose, Tight, Cong;
    var (a, i) := (Value(u), Value(SQRT_M1));
    SqrtM1Squares();
    CongRefl(i);
    CongRefl(a);
    TightIsLoose(SQRT_M1);
    NegStands(u, a);
    TightIsLoose(Neg(u));
    MulStands(Neg(u), SQRT_M1, -a, i);
    assert -a * i == -(a * i);
  }

  /** v times the squares of the candidate and of its turned form. */
  lemma SquaresOfRoots(u: Limbs, v: Limbs)
    requires Loose(u) && Loose(v)
    ensures var (r, t, c, b) := (Candidate(u, v), Mul(SQRT_M1, Candidate(u, v)), Value(Check(u, v)), Value(v));
            && Tight(r) && Tight(t)
            && Cong(b * (Value(r) * Value(r)), c)
            && Cong(b * (Value(t) * Value(t)), -c)
  {
    hide Candidate, Check, Value, Mul, Loose, Tight, Cong;
    var (b, i) := (Value(v), Value(SQRT_M1));
    var r := Candidate(u, v);
    var c := Check(u, v);
    CheckIsSquareTimesV(u, v);
    SqrtM1Squares();
    CongRefl(i);
    CongRefl(Value(r));
    CongSym(Value(c), b * (Value(r) * Value(r)));
    TightIsLoose(SQRT_M1);
    TightIsLoose(r);
    MulStands(SQRT_M1, r, i, Value(r));
    var t := Value(Mul(SQRT_M1, r));
    TurnedSquare(Value(r), i, t);
    TurnedProduct(Value(c), b, Value(r) * Value(r), t * t);
  }

  /** The case analysis over the three comparisons, several of which may hold at once. */
  lemma RootCases(c: int, a: int, i: int, plain: int, turned: int, correct: bool, flipped: bool, flippedI: bool)
    requires Cong(i * i, -1)
    requires Cong(plain, c) && Cong(turned, -c)
    requires correct ==> Cong(c, a)
    requires flipped ==> Cong(c, -a)
    requires flippedI ==> Cong(c, -(a * i))
    ensures var w := if flipped || flippedI then turned else plain;
            && (correct || flipped ==> Cong(w, a))
            && (!correct && !flipped && flippedI ==> Cong(w, a * i))
  {
    hide Cong;
    CongRefl(-1);
    if correct && (flipped || flippedI) {
      BothSigns(c, a, i);
      CongTrans(turned, -c, a);
    } else if correct {
      CongTrans(plain, c, a);
    } else if flipped {
      CongMul(-1, -1, c, -a);
      CongTrans(turned, -c, a);
    } else if flippedI {
      CongMul(-1, -1, c, -(a * i));
      CongTrans(turned, -c, a * i);
    }
  }

  /** v times the square of the root, before its sign is normalised, by which
      of the three limb comparisons succeeded. */
  lemma TurnedSound(u: Limbs, v: Limbs)
    requires Loose(u) && Loose(v)
    ensures Tight(Turned(u, v))
    ensures var w := Value(v) * (Value(Turned(u, v)) * Value(Turned(u, v)));
            && (CorrectSign(u, v) || FlippedSign(u, v) ==> Cong(w, Value(u)))
            && (!CorrectSign(u, v) && !FlippedSign(u, v) && FlippedSignI(u, v) ==> Cong(w, Value(u) * Value(SQRT_M1)))
  {
    hide CorrectSign, FlippedSign, FlippedSignI, Candidate, Check, Value, Mul, Loose, Tight, Cong;
    var (r, t) := (Candidate(u, v), Mul(SQRT_M1, Candidate(u, v)));
    SqrtM1Squares();
    ComparisonsSound(u, v);
    SquaresOfRoots(u, v);
    RootCases(Value(Check(u, v)), Value(u), Value(SQRT_M1),
              Value(v) * (Value(r) * Value(r)), Value(v) * (Value(t) * Value(t)),
              CorrectSign(u, v), FlippedSign(u, v), FlippedSignI(u, v));
  }

  /** Whenever `sqrt_ratio_i` sets its flag, the returned r satisfies v r^2 = u
      modulo P, whichever of the three comparisons held, and after the
      conditional turn and negation. When only the third held it satisfies
      v r^2 = u sqrt(-1). */
  lemma SqrtRatioSound(u: Limbs, v: Limbs)
    requires Loose(u) && Loose(v)
    ensures var (r, ok) := SqrtRatioI(u, v);
            && Tight(r)
            && (ok ==> Cong(Value(v) * (Value(r) * Value(r)), Value(u)))
            && (!ok && FlippedSignI(u, v) ==> Cong(Value(v) * (Value(r) * Value(r)), Value(u) * Value(SQRT_M1)))
  {
    hide Turned, Value, Neg, CorrectSign, FlippedSign, FlippedSignI, Loose, Tight, Cong;
    TurnedSound(u, v);
    var t := Turned(u, v);
    var (r, ok) := SqrtRatioI(u, v);
    var w := Value(v) * (Value(t) * Value(t));
    if IsNegative(t) {
      TightIsLoose(t);
      NegExact(t);
      NegatedSquare(Value(r), Value(t));
      if ok {
        SameProduct(Value(v), Value(r) * Value(r), Value(t) * Value(t), Value(u));
      } else if FlippedSignI(u, v) {
        SameProduct(Value(v), Value(r) * Value(r), Value(t) * Value(t), Value(u) * Value(SQRT_M1));
      }
    }
  }

  // The curve-point test

  lemma ConstantsTight()
    ensures Tight(ONE) && Tight(EDWARDS_D) && Tight(SQRT_M1) && Value(ONE) == 1
  {
  }

  /** The constant is d = -121665/121666 of section 5.1 of RFC 8032. */
  lemma EdwardsD()
    ensures Cong(121666 * Value(EDWARDS_D), -121665)
  {
    CongIntro(121666 * Value(EDWARDS_D), -121665, (121666 * Value(EDWARDS_D) + 121665) / P);
  }

  lemma NumeratorStands(y: Limbs)
    requires Loose(y)
    ensures Stands(Numerator(y), Value(y) * Value(y) - 1)
  {
    hide Value, Square, Sub, Tight, Loose, Cong;
    CongIntro(Value(y), Value(y), 0);
    CongIntro(1, 1, 0);
    ConstantsTight();
    SquareStands(y, Value(y));
    TightIsLoose(Square(y));
    TightIsLoose(ONE);
    SubExact(Square(y), ONE);
    CongAdd(Value(Square(y)), Value(y) * Value(y), 1, 1);
    CongTrans(Value(Numerator(y)), Value(Square(y)) - 1, Value(y) * Value(y) - 1);
  }

  lemma DenominatorStands(y: Limbs)
    requires Loose(y)
    ensures Loose(Denominator(y))
    ensures Cong(Value(Denominator(y)), Value(EDWARDS_D) * (Value(y) * Value(y)) + 1)
  {
    hide Value, Square, Mul, Add, Tight, Loose, Cong;
    var (v, d) := (Value(y), Value(EDWARDS_D));
    CongIntro(v, v, 0);
    CongIntro(d, d, 0);
    CongIntro(1, 1, 0);
    ConstantsTight();
    SquareStands(y, v);
    TightIsLoose(Square(y));
    TightIsLoose(EDWARDS_D);
    TightIsLoose(ONE);
    var m := Mul(Square(y), EDWARDS_D);
    MulStands(Square(y), EDWARDS_D, v * v, d);
    TightIsLoose(m);
    AddExact(m, ONE);
    CongAdd(Value(m), v * v * d, 1, 1);
    assert v * v * d == d * (v * v);
  }

  /** The curve equation -x^2 + y^2 = 1 + d x^2 y^2 of section 5.1 of RFC 8032. */
  predicate OnCurve(x: int, y: int) {
    (y * y - x * x - (1 + Value(EDWARDS_D) * ((x * x) * (y * y)))) % P == 0
  }

  lemma OnCurveIs(x: int, y: int)
    requires Cong(y * y - x * x, 1 + Value(EDWARDS_D) * ((x * x) * (y * y)))
    ensures OnCurve(x, y)
  {
    hide Value, Cong;
    CongIsRemainder(y * y - x * x, 1 + Value(EDWARDS_D) * ((x * x) * (y * y)));
  }

  /** From the ratio to the equation; xx and yy are the squares of the coordinates. */
  lemma CurveEquation(xx: int, yy: int, u: int, v: int, d: int)
    requires Cong(u, yy - 1) && Cong(v, d * yy + 1) && Cong(v * xx, u)
    ensures Cong(yy - xx, 1 + d * (xx * yy))
  {
    hide Cong;
    var j := CongWitness(u, yy - 1);
    var k := CongWitness(v, d * yy + 1);
    var m := CongWitness(v * xx, u);
    assert (d * yy + 1 + k * P) * xx == d * (xx * yy) + xx + k * xx * P;
    CongIntro(yy - xx, 1 + d * (xx * yy), k * xx - j - m);
  }

  /** Soundness of the test: 32 bytes it accepts have an x that puts (x, y) on
      the curve, where y is their little-endian value without its top bit. */
  lemma CurveTestSound(repr: seq<byte>) returns (x: int)
    requires |repr| == 32 && IsYPointValid(repr)
    ensures OnCurve(x, FromLE(repr) % 0x8000_0000_0000_0000_0000_0000_0000_0000_0000_0000_0000_0000_0000_0000_0000_0000)
  {
    hide FromBytes, FromLE, Value, Numerator, Denominator, Tight, Cong, SqrtRatioI, OnCurve;
    var y := FromBytes(repr);
    DecodedTight(repr);
    TightIsLoose(y);
    NumeratorStands(y);
    DenominatorStands(y);
    var (u, v) := (Numerator(y), Denominator(y));
    TightIsLoose(u);
    SqrtRatioSound(u, v);
    x := Value(SqrtRatioI(u, v).0);
    CurveEquation(x * x, Value(y) * Value(y), Value(u), Value(v), Value(EDWARDS_D));
    OnCurveIs(x, Value(y));
  }

  lemma DecodedTight(repr: seq<byte>)
    requires |repr| == 32
    ensures Tight(FromBytes(repr))
    ensures Value(FromBytes(repr))
         == FromLE(repr) % 0x8000_0000_0000_0000_0000_0000_0000_0000_0000_0000_0000_0000_0000_0000_0000_0000
  {
    hide FromBytes;
    FromBytesExact(repr);
  }
}
