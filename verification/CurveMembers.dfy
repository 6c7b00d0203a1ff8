/** The curve test and the curve: with P prime, having a point is meeting the
    power criterion, so on canonical limbs the test accepts exactly the ordinates
    of curve points. */
module CurveMembers {
  import opened Words
  import opened LittleEndian
  import opened Powers
  import opened Modular
  import opened Primes
  import opened PrimeField
  import opened FieldLimbs
  import opened CurvePoint
  import opened CanonicalForm
  import opened CurveAnswers

  /** The base of the power is a square when u / v has a root. */
  lemma BaseIsSquare(u: int, v: int, x: int)
    requires Cong(v * (x * x), u)
    ensures var z := v * v * (v * v) * x; Cong(PowerBase(u, v), z * z)
  {
    hide Cong;
    var v7 := v * v * v * (v * v * v) * v;
    var z := v * v * (v * v) * x;
    CongSym(v * (x * x), u);
    CongRefl(v7);
    CongMul(u, v * (x * x), v7, v7);
    SeventhTimes(v, x);
  }

  lemma SeventhTimes(v: int, x: int)
    ensures v * (x * x) * (v * v * v * (v * v * v) * v) == v * v * (v * v) * x * (v * v * (v * v) * x)
  {
    var (a, w) := (v * v * v, v * v * (v * v));
    assert a * v == w;
    SquareOfProduct(a, v);
    SquareOfProduct(w, x);
    Reordered(v, x, a * a);
  }

  lemma SquareOfProduct(a: int, b: int)
    ensures a * a * b * b == a * b * (a * b)
  {
  }

  lemma Reordered(v: int, x: int, s: int)
    ensures v * (x * x) * (s * v) == s * v * v * x * x
  {
  }

  lemma SquaredPower(z: int)
    ensures Pow(z * z, (P - 1) / 4) == Pow(z, (P - 1) / 2)
  {
    hide Pow;
    PowPow(z, 2, (P - 1) / 4);
    SquareIs(z);
    assert 2 * ((P - 1) / 4) == (P - 1) / 2;
  }

  lemma SquareIs(z: int)
    ensures Pow(z, 2) == z * z
  {
    assert Pow(z, 1) == z * Pow(z, 0);
  }

  /** With P prime, u / v with a root meets the power criterion. */
  lemma RootMeetsCriterion(u: int, v: int, x: int)
    requires IsPrime(P) && Cong(v * (x * x), u)
    ensures Cong(EulerValue(u, v), u) || Cong(EulerValue(u, v), -u)
  {
    hide Cong, IsPrime, Pow, PowerBase;
    var z := v * v * (v * v) * x;
    if Cong(z, 0) {
      ZeroRoot(u, v, x);
      CongRefl(Pow(PowerBase(u, v), (P - 1) / 4));
      CongMul(u, 0, Pow(PowerBase(u, v), (P - 1) / 4), Pow(PowerBase(u, v), (P - 1) / 4));
      CongSym(u, 0);
      CongTrans(EulerValue(u, v), 0, u);
    } else {
      BaseIsSquare(u, v, x);
      PowCong(PowerBase(u, v), z * z, (P - 1) / 4);
      SquaredPower(z);
      HalfPower(z);
      var s := if Cong(Pow(z, (P - 1) / 2), 1) then 1 else -1;
      CongTrans(Pow(PowerBase(u, v), (P - 1) / 4), Pow(z, (P - 1) / 2), s);
      CongRefl(u);
      CongMul(u, u, Pow(PowerBase(u, v), (P - 1) / 4), s);
      assert u * 1 == u && u * -1 == -u;
    }
  }

  lemma ZeroRoot(u: int, v: int, x: int)
    requires IsPrime(P) && Cong(v * (x * x), u) && Cong(v * v * (v * v) * x, 0)
    ensures Cong(u, 0)
  {
    hide Cong, IsPrime;
    NoZeroDivisors(v * v * (v * v), x);
    if Cong(x, 0) {
      CongMul(x, 0, x, 0);
      CongRefl(v);
      CongMul(v, v, x * x, 0);
    } else {
      NoZeroDivisors(v * v, v * v);
      NoZeroDivisors(v, v);
      CongRefl(x * x);
      CongMul(v, 0, x * x, x * x);
    }
    CongSym(v * (x * x), u);
    CongTrans(u, v * (x * x), 0);
  }

  /** A curve point is a root of its ratio. */
  lemma PointIsRoot(x: int, y: int)
    ensures OnCurve(x, y) <==> Cong(DenominatorOf(y) * (x * x), NumeratorOf(y))
  {
    hide Value, Cong;
    var (d, xx, yy) := (Value(EDWARDS_D), x * x, y * y);
    CongIsRemainder(yy - xx, 1 + d * (xx * yy));
    Rearranged(d, xx, yy);
    if OnCurve(x, y) {
      var k := CongWitness(yy - xx, 1 + d * (xx * yy));
      CongIntro(DenominatorOf(y) * xx, NumeratorOf(y), -k);
    }
    if Cong(DenominatorOf(y) * xx, NumeratorOf(y)) {
      var k := CongWitness(DenominatorOf(y) * xx, NumeratorOf(y));
      CongIntro(yy - xx, 1 + d * (xx * yy), -k);
    }
  }

  lemma Rearranged(d: int, xx: int, yy: int)
    ensures (d * yy + 1) * xx - (yy - 1) == -(yy - xx - (1 + d * (xx * yy)))
  {
    assert (d * yy + 1) * xx == d * (xx * yy) + xx;
  }

  /** Every curve point's ordinate is accepted, when the limbs compared are
      canonical and P is prime; and nothing else ever is. */
  lemma AcceptsThePoints(repr: seq<byte>)
    requires |repr| == 32
    ensures var (u, v) := Compared(repr);
            IsPrime(P) && Canonical(Check(u, v)) && Canonical(u) && Canonical(Neg(u)) ==>
              (IsYPointValid(repr) <==> exists x :: OnCurve(x, Ordinate(repr)))
    ensures IsYPointValid(repr) ==> exists x :: OnCurve(x, Ordinate(repr))
  {
    hide IsYPointValid, Cong, EulerValue, Canonical, Check, Neg, NumeratorOf, DenominatorOf, OnCurve, IsPrime, FromLE,
      Compared;
    var (u, v) := Compared(repr);
    var y := Ordinate(repr);
    if IsYPointValid(repr) {
      var x := CurveTestSound(repr);
      assert OnCurve(x, y);
    }
    if x :| IsPrime(P) && Canonical(Check(u, v)) && Canonical(u) && Canonical(Neg(u)) && OnCurve(x, y) {
      PointIsRoot(x, y);
      RootMeetsCriterion(NumeratorOf(y), DenominatorOf(y), x);
      AcceptedIff(repr);
    }
  }
}
