/** When comparing elements limb by limb decides their congruence, and which
    byte strings are decoded to such elements. */
module CanonicalForm {
  import opened Words
  import opened Modular
  import opened LittleEndian
  import opened FieldLimbs
  import opened FieldProofs
  import opened ByteDecoding
  import opened CurvePoint

  const TWO_255: int := 0x8000_0000_0000_0000_0000_0000_0000_0000_0000_0000_0000_0000_0000_0000_0000_0000

  predicate Digits51(a: Limbs) {
    && a.n0 < 0x8_0000_0000_0000
    && a.n1 < 0x8_0000_0000_0000
    && a.n2 < 0x8_0000_0000_0000
    && a.n3 < 0x8_0000_0000_0000
    && a.n4 < 0x8_0000_0000_0000
  }

  /** The limbs are the radix-2^51 digits of a number below P. */
  predicate Canonical(a: Limbs) {
    Digits51(a) && Value(a) < P
  }

  // Canonical representatives

  /** The digits of a number below 2^255. */
  function DigitsOf(v: nat): Limbs {
    var (q0, q1) := (High51(v), High51(High51(v)));
    var (q2, q3) := (High51(q1), High51(High51(q1)));
    Limbs(Low51(v), Low51(q0), Low51(q1), Low51(q2), Low51(q3))
  }

  lemma DigitsOfExact(v: nat)
    requires v < TWO_255
    ensures Digits51(DigitsOf(v)) && Value(DigitsOf(v)) == v
  {
    hide Low51, High51;
    var (q0, q1) := (High51(v), High51(High51(v)));
    var (q2, q3) := (High51(q1), High51(High51(q1)));
    OneDigit(v);
    OneDigit(q0);
    OneDigit(q1);
    OneDigit(q2);
    OneDigit(q3);
  }

  lemma OneDigit(x: nat)
    ensures x == Low51(x) + 0x8_0000_0000_0000 * High51(x)
    ensures 0 <= Low51(x) < 0x8_0000_0000_0000
    ensures x < 0x8_0000_0000_0000 ==> High51(x) == 0
  {
    Split51(x);
  }

  /** Digits below 2^51 are determined by the number. */
  lemma DigitsUnique(a: Limbs, b: Limbs)
    requires Digits51(a) && Digits51(b) && Value(a) == Value(b)
    ensures a == b
  {
    hide Value;
    var (a3, b3) := (Above(a.n3, a.n4), Above(b.n3, b.n4));
    var (a2, b2) := (Above(a.n2, a3), Above(b.n2, b3));
    var (a1, b1) := (Above(a.n1, a2), Above(b.n1, b2));
    Nested(a);
    Nested(b);
    LowestDigit(a.n0, a1, b.n0, b1);
    LowestDigit(a.n1, a2, b.n1, b2);
    LowestDigit(a.n2, a3, b.n2, b3);
    LowestDigit(a.n3, a.n4, b.n3, b.n4);
  }

  function Above(d: int, higher: int): int {
    d + 0x8_0000_0000_0000 * higher
  }

  lemma Nested(a: Limbs)
    ensures Value(a) == Above(a.n0, Above(a.n1, Above(a.n2, Above(a.n3, a.n4))))
  {
  }

  lemma LowestDigit(d: int, x: int, e: int, y: int)
    requires 0 <= d < 0x8_0000_0000_0000 && 0 <= e < 0x8_0000_0000_0000
    requires Above(d, x) == Above(e, y)
    ensures d == e && x == y
  {
  }

  lemma SmallCongruent(x: int, y: int)
    requires 0 <= x < P && 0 <= y < P && Cong(x, y)
    ensures x == y
  {
    hide Cong;
    var k := CongWitness(x, y);
    assert k == 0;
  }

  lemma ValueNonnegative(a: Limbs)
    ensures Value(a) >= 0
  {
  }

  lemma CanonicalDecides(a: Limbs, b: Limbs)
    requires Canonical(a) && Canonical(b)
    ensures a == b <==> Cong(Value(a), Value(b))
  {
    hide Value, Cong, Digits51;
    ValueNonnegative(a);
    ValueNonnegative(b);
    CongRefl(Value(a));
    if Cong(Value(a), Value(b)) {
      SmallCongruent(Value(a), Value(b));
      DigitsUnique(a, b);
    }
  }

  /** The canonical element an element is congruent to. */
  function Representative(a: Limbs): Limbs {
    ValueNonnegative(a);
    DigitsOf(Value(a) % P)
  }

  lemma RepresentativeStands(a: Limbs)
    ensures Canonical(Representative(a)) && Cong(Value(a), Value(Representative(a)))
  {
    hide Value, Cong, DigitsOf, Digits51;
    ValueNonnegative(a);
    var (q, r) := (Value(a) / P, Value(a) % P);
    DigitsOfExact(r);
    CongIntro(Value(a), r, q);
  }

  /** Comparing an element limb by limb with canonical elements decides congruence
      exactly when the element is canonical itself. */
  lemma LimbEqualityDecidesIff(a: Limbs)
    ensures (forall b: Limbs | Canonical(b) :: a == b <==> Cong(Value(a), Value(b))) <==> Canonical(a)
  {
    hide Canonical, Cong, Value, Representative;
    if Canonical(a) {
      forall b: Limbs | Canonical(b) ensures a == b <==> Cong(Value(a), Value(b)) {
        CanonicalDecides(a, b);
      }
    } else {
      RepresentativeStands(a);
    }
  }

  // An element the curve test compares that is not canonical

  lemma OneMinusOne()
    ensures Sub(ONE, ONE)
         == Limbs(2251799813685229, 2251799813685247, 2251799813685247, 2251799813685247, 2251799813685247)
  {
    hide Sub, Reduce, Wrap64;
    var d := SubLimbs(ONE, ONE);
    ReduceLimbs(d);
    assert Low51(36028797018963664) == 2251799813684944 && High51(36028797018963664) == 15;
    assert Low51(36028797018963952) == 2251799813685232 && High51(36028797018963952) == 15;
  }

  lemma OneSquared()
    ensures Square(ONE) == ONE
  {
    hide SquareColumns, CarryChain;
    OneColumns(ONE);
    OneCarried();
    assert Square(ONE) == Pow2k(CarryChain(SquareColumns(ONE)), 0);
  }

  lemma OneColumns(a: Limbs)
    requires a == ONE
    ensures SquareColumns(a) == Columns(1, 0, 0, 0, 0)
  {
  }

  lemma OneCarried()
    ensures CarryChain(Columns(1, 0, 0, 0, 0)) == ONE
  {
    hide CarryInto, FoldCarry;
    NoCarry(0, 1);
    NoCarry(0, 0);
    OneFolded();
  }

  lemma NoCarry(c: u128, from: u128)
    requires c == 0 && from <= 1
    ensures CarryInto(c, from) == 0
  {
  }

  lemma OneFolded()
    ensures FoldCarry(1, 0, 0, 0, 0) == ONE
  {
    hide Wrap64, Low51, High51;
    assert Low51(1) == 1 && High51(1) == 0 && Low51(0) == 0 && High51(0) == 0 by {
      OneDigit(1);
      OneDigit(0);
    }
    FitsWord(0);
    FitsWord(1);
  }

  /** For y = 1 the numerator the curve test compares with has the limbs of P: it
      is congruent to 0, and not equal to it limb by limb. */
  lemma LimbEqualityIncomplete()
    ensures Numerator(ONE) == Sub(ONE, ONE) == DigitsOf(P) && !Canonical(Numerator(ONE))
    ensures Numerator(ONE) != ZERO && Cong(Value(Numerator(ONE)), Value(ZERO))
  {
    hide Sub, Square, Cong, DigitsOf;
    OneSquared();
    OneMinusOne();
    CongIntro(P, 0, 1);
    DigitsOfExact(P);
    DigitsUnique(Sub(ONE, ONE), DigitsOf(P));
  }

  // Decoded elements

  /** The decoder gives a canonical element exactly for the numbers below P. */
  lemma DecodedCanonicalIff(b: seq<byte>)
    requires |b| == 32
    ensures Canonical(FromBytes(b)) <==> FromLE(b) % TWO_255 < P
  {
    hide FromBytes, FromLE, Value;
    FromBytesExact(b);
  }

  /** Every number from P up to 2^255 - 1 is accepted, decoded as it is, and not
      recognised as the element of the number reduced by P. */
  lemma UnreducedDecoded(y: nat)
    requires P <= y < TWO_255
    ensures FromBytes(ToLE(y, 32)) == DigitsOf(y) && !Canonical(FromBytes(ToLE(y, 32)))
    ensures FromBytes(ToLE(y, 32)) != FromBytes(ToLE(y - P, 32))
    ensures Cong(Value(FromBytes(ToLE(y, 32))), Value(FromBytes(ToLE(y - P, 32))))
  {
    hide FromBytes, FromLE, ToLE, Value, Cong, DigitsOf;
    DecodesTo(y);
    DecodesTo(y - P);
    DigitsOfExact(y);
    DigitsOfExact(y - P);
    CongIntro(y, y - P, 1);
  }

  lemma LastPower()
    ensures Pow256(32) == 2 * TWO_255
  {
    hide Pow256;
    Powers256();
    Pow256Add(31, 1);
  }

  lemma DecodesTo(y: nat)
    requires y < TWO_255
    ensures FromBytes(ToLE(y, 32)) == DigitsOf(y)
  {
    hide FromBytes, FromLE, ToLE, Value, DigitsOf, Pow256;
    FromToLE(y, 32);
    LastPower();
    ModUnique(y, Pow256(32), 0, y);
    ModUnique(y, TWO_255, 0, y);
    FromBytesExact(ToLE(y, 32));
    DigitsOfExact(y);
    DigitsUnique(FromBytes(ToLE(y, 32)), DigitsOf(y));
  }

  /** The 32 bytes of P itself are decoded to the limbs of P. */
  lemma PrimeDecoded()
    ensures FromBytes(ToLE(P, 32)) == DigitsOf(P) == Numerator(ONE)
  {
    hide FromBytes, ToLE, DigitsOf, Numerator, Sub;
    DecodesTo(P);
    LimbEqualityIncomplete();
  }
}
