/** The FieldElement object: five limbs in a fixed array, some methods updating
    them in place. The operand of a multiplication, squaring, subtraction or
    negation must have limbs below 2^54; that the curve test, which asks nothing
    of its 32 bytes, verifies against these requirements is the end-to-end bound
    on its limbs. */
module FieldElements {
  import opened Words
  import opened FieldLimbs
  import opened FieldProofs
  import opened CurvePoint

  class FieldElement {
    const nums: array<u64>

    ghost predicate Valid() {
      nums.Length == 5
    }

    function Contents(): Limbs
      requires Valid()
      reads nums
    {
      Limbs(nums[0], nums[1], nums[2], nums[3], nums[4])
    }

    constructor (l: Limbs)
      ensures Valid() && fresh(nums) && Contents() == l
    {
      nums := new u64[5];
      new;
      nums[0], nums[1], nums[2], nums[3], nums[4] := l.n0, l.n1, l.n2, l.n3, l.n4;
    }

    constructor Decode(bytes: seq<byte>)
      requires |bytes| == 32
      ensures Valid() && fresh(nums) && Contents() == FromBytes(bytes)
      ensures Tight(Contents()) && Loose(Contents())
    {
      nums := new u64[5];
      new;
      hide FromBytes;
      var l := FromBytes(bytes);
      DecodedTight(bytes);
      nums[0], nums[1], nums[2], nums[3], nums[4] := l.n0, l.n1, l.n2, l.n3, l.n4;
    }

    method Store(l: Limbs)
      requires Valid()
      modifies nums
      ensures Contents() == l
    {
      nums[0], nums[1], nums[2], nums[3], nums[4] := l.n0, l.n1, l.n2, l.n3, l.n4;
    }

    /** `operator=`. */
    method Assign(other: FieldElement)
      requires Valid() && other.Valid()
      modifies nums
      ensures Contents() == old(other.Contents())
    {
      for i := 0 to 5
        invariant forall j :: 0 <= j < i ==> nums[j] == old(other.nums[j])
        invariant forall j :: i <= j < 5 ==> nums[j] == old(nums[j])
        invariant other.nums != nums ==> forall j :: 0 <= j < 5 ==> other.nums[j] == old(other.nums[j])
      {
        nums[i] := other.nums[i];
      }
    }

    /** `reduce`, in place. */
    method Reduce()
      requires Valid()
      modifies nums
      ensures Contents() == FieldLimbs.Reduce(old(Contents()))
      ensures Tight(Contents())
    {
      hide Low51, High51, Wrap64, Tight, Value;
      ReduceExact(Contents());
      var c0, c1, c2, c3, c4 := High51(nums[0]), High51(nums[1]), High51(nums[2]), High51(nums[3]), High51(nums[4]);
      nums[0] := Low51(nums[0]);
      nums[1] := Low51(nums[1]);
      nums[2] := Low51(nums[2]);
      nums[3] := Low51(nums[3]);
      nums[4] := Low51(nums[4]);
      nums[0] := Wrap64(nums[0] + Wrap64(c4 * 19));
      nums[1] := Wrap64(nums[1] + c0);
      nums[2] := Wrap64(nums[2] + c1);
      nums[3] := Wrap64(nums[3] + c2);
      nums[4] := Wrap64(nums[4] + c3);
    }

    method ConditionalAssign(other: FieldElement, condition: bool)
      requires Valid() && other.Valid()
      modifies nums
      ensures Contents() == if condition then old(other.Contents()) else old(Contents())
    {
      if condition {
        Assign(other);
      }
    }

    method ConditionalNegate(condition: bool)
      requires Valid() && Loose(Contents())
      modifies nums
      ensures Contents() == if condition then Neg(old(Contents())) else old(Contents())
    {
      if condition {
        var negated := Negate();
        Assign(negated);
      }
    }

    /** `operator-()`: 16 P minus this, then `reduce`. */
    method Negate() returns (r: FieldElement)
      requires Valid() && Loose(Contents())
      ensures r.Valid() && fresh(r) && fresh(r.nums)
      ensures r.Contents() == Neg(Contents())
      ensures Tight(r.Contents()) && Loose(r.Contents())
    {
      hide Wrap64, FieldLimbs.Reduce;
      r := new FieldElement(Limbs(
                              Wrap64(36028797018963664 - nums[0]),
                              Wrap64(36028797018963952 - nums[1]),
                              Wrap64(36028797018963952 - nums[2]),
                              Wrap64(36028797018963952 - nums[3]),
                              Wrap64(36028797018963952 - nums[4])));
      r.Reduce();
    }

    /** `operator-(other)`. */
    method Subtract(other: FieldElement) returns (r: FieldElement)
      requires Valid() && Loose(Contents()) && other.Valid() && Loose(other.Contents())
      ensures r.Valid() && fresh(r) && fresh(r.nums)
      ensures r.Contents() == Sub(Contents(), other.Contents())
      ensures Tight(r.Contents()) && Loose(r.Contents())
    {
      hide Wrap64, FieldLimbs.Reduce;
      r := new FieldElement(Limbs(
                              Wrap64(Wrap64(nums[0] + 36028797018963664) - other.nums[0]),
                              Wrap64(Wrap64(nums[1] + 36028797018963952) - other.nums[1]),
                              Wrap64(Wrap64(nums[2] + 36028797018963952) - other.nums[2]),
                              Wrap64(Wrap64(nums[3] + 36028797018963952) - other.nums[3]),
                              Wrap64(Wrap64(nums[4] + 36028797018963952) - other.nums[4])));
      r.Reduce();
    }

    /** `operator+`; it does not carry. */
    method Plus(other: FieldElement) returns (r: FieldElement)
      requires Valid() && Tight(Contents()) && other.Valid() && Tight(other.Contents())
      ensures r.Valid() && fresh(r) && fresh(r.nums)
      ensures r.Contents() == Add(Contents(), other.Contents()) && Loose(r.Contents())
    {
      hide Add;
      AddExact(Contents(), other.Contents());
      r := new FieldElement(Add(Contents(), other.Contents()));
    }

    method Multiply(other: FieldElement) returns (r: FieldElement)
      requires Valid() && Loose(Contents()) && other.Valid() && Loose(other.Contents())
      ensures r.Valid() && fresh(r) && fresh(r.nums)
      ensures r.Contents() == Mul(Contents(), other.Contents())
      ensures Tight(r.Contents()) && Loose(r.Contents())
    {
      hide Mul;
      MulExact(Contents(), other.Contents());
      r := new FieldElement(Mul(Contents(), other.Contents()));
    }

    /** `pow2k`: every squaring in the loop starts from limbs below 2^54. */
    method Pow2k(k: nat) returns (r: FieldElement)
      requires Valid() && Loose(Contents())
      ensures r.Valid() && fresh(r) && fresh(r.nums)
      ensures r.Contents() == FieldLimbs.Pow2k(Contents(), k)
      ensures Loose(r.Contents()) && (k > 0 ==> Tight(r.Contents()))
    {
      hide CarryChain, SquareColumns, Tight, Loose, Value;
      r := new FieldElement(Contents());
      var i := k;
      while i > 0
        invariant 0 <= i <= k
        invariant FieldLimbs.Pow2k(r.Contents(), i) == FieldLimbs.Pow2k(Contents(), k)
        invariant Loose(r.Contents()) && (i < k ==> Tight(r.Contents()))
      {
        SquaringExact(r.Contents());
        TightIsLoose(CarryChain(SquareColumns(r.Contents())));
        r.Store(CarryChain(SquareColumns(r.Contents())));
        i := i - 1;
      }
    }

    method Square() returns (r: FieldElement)
      requires Valid() && Loose(Contents())
      ensures r.Valid() && fresh(r) && fresh(r.nums)
      ensures r.Contents() == FieldLimbs.Square(Contents())
      ensures Tight(r.Contents()) && Loose(r.Contents())
    {
      r := Pow2k(1);
    }

    /** `pow22501`: x^11 and x^(2^250 - 1). */
    method Pow22501() returns (t3: FieldElement, t19: FieldElement)
      requires Valid() && Loose(Contents())
      ensures t3.Valid() && fresh(t3) && fresh(t3.nums) && t19.Valid() && fresh(t19) && fresh(t19.nums)
      ensures (t3.Contents(), t19.Contents()) == FieldLimbs.Pow22501(Contents())
      ensures Tight(t3.Contents()) && Tight(t19.Contents()) && Loose(t19.Contents())
    {
      hide Mul, FieldLimbs.Square, FieldLimbs.Pow2k, Tight, Loose;
      var t0 := Square();
      var t1 := t0.Square();
      t1 := t1.Square();
      var t2 := Multiply(t1);
      t3 := t0.Multiply(t2);
      var t4 := t3.Square();
      var t5 := t2.Multiply(t4);
      var t6 := t5.Pow2k(5);
      var t7 := t6.Multiply(t5);
      var t8 := t7.Pow2k(10);
      var t9 := t8.Multiply(t7);
      var t10 := t9.Pow2k(20);
      var t11 := t10.Multiply(t9);
      var t12 := t11.Pow2k(10);
      var t13 := t12.Multiply(t7);
      var t14 := t13.Pow2k(50);
      var t15 := t14.Multiply(t13);
      var t16 := t15.Pow2k(100);
      var t17 := t16.Multiply(t15);
      var t18 := t17.Pow2k(50);
      t19 := t18.Multiply(t13);
    }

    method PowP58() returns (r: FieldElement)
      requires Valid() && Loose(Contents())
      ensures r.Valid() && fresh(r) && fresh(r.nums)
      ensures r.Contents() == FieldLimbs.PowP58(Contents())
      ensures Tight(r.Contents()) && Loose(r.Contents())
    {
      hide Mul, FieldLimbs.Pow22501, FieldLimbs.Pow2k, Tight, Loose;
      var dummy, t19 := Pow22501();
      var t20 := t19.Pow2k(2);
      r := Multiply(t20);
    }
  }

  /** The first half of `sqrt_ratio_i`: u v^3 (u v^7)^((P - 5) / 8). */
  method CandidateRoot(u: FieldElement, v: FieldElement) returns (r: FieldElement)
    requires u.Valid() && Loose(u.Contents()) && v.Valid() && Loose(v.Contents())
    ensures r.Valid() && fresh(r) && fresh(r.nums)
    ensures r.Contents() == Candidate(u.Contents(), v.Contents()) && Loose(r.Contents())
  {
    hide Mul, Square, PowP58, Tight, Loose;
    var v3 := v.Square();
    v3 := v3.Multiply(v);
    var v7 := v3.Square();
    v7 := v7.Multiply(v);
    var left := u.Multiply(v3);
    var right := u.Multiply(v7);
    right := right.PowP58();
    r := left.Multiply(right);
  }

  /** The three comparisons of `sqrt_ratio_i`, limb by limb. */
  method CheckRoot(u: FieldElement, v: FieldElement, r: FieldElement, i: FieldElement)
    returns (correctSign: bool, flippedSign: bool, flippedSignI: bool)
    requires u.Valid() && Loose(u.Contents()) && v.Valid() && Loose(v.Contents())
    requires r.Valid() && Loose(r.Contents()) && i.Valid() && Loose(i.Contents())
    ensures var check := Mul(v.Contents(), Square(r.Contents()));
            && correctSign == (check == u.Contents())
            && flippedSign == (check == Neg(u.Contents()))
            && flippedSignI == (check == Mul(Neg(u.Contents()), i.Contents()))
  {
    hide Mul, Square, Neg, Tight, Loose;
    var check := r.Square();
    check := v.Multiply(check);
    var negU := u.Negate();
    var negUI := negU.Multiply(i);
    correctSign := check.Contents() == u.Contents();
    flippedSign := check.Contents() == negU.Contents();
    flippedSignI := check.Contents() == negUI.Contents();
  }

  /** `sqrt_ratio_i`; the root is turned and negated in place. */
  method SqrtRatio(u: FieldElement, v: FieldElement) returns (r: FieldElement, wasNonzeroSquare: bool)
    requires u.Valid() && Loose(u.Contents()) && v.Valid() && Loose(v.Contents())
    ensures r.Valid() && fresh(r) && fresh(r.nums)
    ensures (r.Contents(), wasNonzeroSquare) == SqrtRatioI(u.Contents(), v.Contents())
  {
    hide Mul, Square, Candidate, Neg, Tight, Loose, IsNegative;
    ConstantsTight();
    TightIsLoose(SQRT_M1);
    r := CandidateRoot(u, v);
    var i := new FieldElement(SQRT_M1);
    var correctSign, flippedSign, flippedSignI := CheckRoot(u, v, r, i);
    var rPrime := i.Multiply(r);
    r.ConditionalAssign(rPrime, flippedSign || flippedSignI);
    var rIsNegative := IsNegative(r.Contents());
    r.ConditionalNegate(rIsNegative);
    wasNonzeroSquare := correctSign || flippedSign;
  }

  /** `is_y_point_valid`, for any 32 bytes. */
  method CurveTest(repr: seq<byte>) returns (isValidYPoint: bool)
    requires |repr| == 32
    ensures isValidYPoint == IsYPointValid(repr)
  {
    hide Mul, Square, Sub, Add, Tight, Loose, SqrtRatioI, FromBytes;
    ConstantsTight();
    TightIsLoose(ONE);
    TightIsLoose(EDWARDS_D);
    var y := new FieldElement.Decode(repr);
    var one := new FieldElement(ONE);
    var d := new FieldElement(EDWARDS_D);
    var yy := y.Square();
    var u := yy.Subtract(one);
    var v := yy.Multiply(d);
    v := v.Plus(one);
    var x;
    x, isValidYPoint := SqrtRatio(u, v);
  }
}
