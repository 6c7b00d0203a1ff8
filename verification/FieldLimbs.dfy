/** Arithmetic on field elements written as five 64-bit limbs in radix 2^51,
    with every 64-bit and 128-bit operation truncated as the machine does.
    The functions are total: what the truncations may cost is the subject of
    FieldProofs. */
module FieldLimbs {
  import opened Words

  datatype Limbs = Limbs(n0: u64, n1: u64, n2: u64, n3: u64, n4: u64)

  datatype Columns = Columns(c0: u128, c1: u128, c2: u128, c3: u128, c4: u128)

  const ZERO := Limbs(0, 0, 0, 0, 0)
  const ONE := Limbs(1, 0, 0, 0, 0)
  const EDWARDS_D :=
    Limbs(929955233495203, 466365720129213, 1662059464998953, 2033849074728123, 1442794654840575)
  const SQRT_M1 :=
    Limbs(1718705420411056, 234908883556509, 2233514472574048, 2117202627021982, 765476049583133)

  /** The integer that five radix-2^51 digits stand for. */
  function Radix51(d0: int, d1: int, d2: int, d3: int, d4: int): int {
    d0
    + 0x8_0000_0000_0000 * d1
    + 0x40_0000_0000_0000_0000_0000_0000 * d2
    + 0x200_0000_0000_0000_0000_0000_0000_0000_0000_0000 * d3
    + 0x1000_0000_0000_0000_0000_0000_0000_0000_0000_0000_0000_0000_0000 * d4
  }

  function Value(a: Limbs): int {
    Radix51(a.n0, a.n1, a.n2, a.n3, a.n4)
  }

  /** The most an operand of a multiplication may hold in a limb: less than 2^54. */
  predicate Loose(a: Limbs) {
    && a.n0 < 0x40_0000_0000_0000
    && a.n1 < 0x40_0000_0000_0000
    && a.n2 < 0x40_0000_0000_0000
    && a.n3 < 0x40_0000_0000_0000
    && a.n4 < 0x40_0000_0000_0000
  }

  /** What a multiplication or a reduction leaves in a limb: less than 2^52. */
  predicate Tight(a: Limbs) {
    && a.n0 < 0x10_0000_0000_0000
    && a.n1 < 0x10_0000_0000_0000
    && a.n2 < 0x10_0000_0000_0000
    && a.n3 < 0x10_0000_0000_0000
    && a.n4 < 0x10_0000_0000_0000
  }

  function Low51(x: int): u64 {
    x % 0x8_0000_0000_0000
  }

  function High51(x: nat): nat {
    x / 0x8_0000_0000_0000
  }

  /** The 128-bit coefficients of a product, limbs above 2^255 folded back times 19. */
  function ProductColumns(a: Limbs, b: Limbs): Columns {
    var b1_19 := Wrap64(b.n1 * 19);
    var b2_19 := Wrap64(b.n2 * 19);
    var b3_19 := Wrap64(b.n3 * 19);
    var b4_19 := Wrap64(b.n4 * 19);
    Columns(
      Wrap128(a.n0 * b.n0 + a.n4 * b1_19 + a.n3 * b2_19 + a.n2 * b3_19 + a.n1 * b4_19),
      Wrap128(a.n1 * b.n0 + a.n0 * b.n1 + a.n4 * b2_19 + a.n3 * b3_19 + a.n2 * b4_19),
      Wrap128(a.n2 * b.n0 + a.n1 * b.n1 + a.n0 * b.n2 + a.n4 * b3_19 + a.n3 * b4_19),
      Wrap128(a.n3 * b.n0 + a.n2 * b.n1 + a.n1 * b.n2 + a.n0 * b.n3 + a.n4 * b4_19),
      Wrap128(a.n4 * b.n0 + a.n3 * b.n1 + a.n2 * b.n2 + a.n1 * b.n3 + a.n0 * b.n4))
  }

  /** The coefficients of a square, with the symmetric terms added once and doubled. */
  function SquareColumns(a: Limbs): Columns {
    var a3_19 := Wrap64(a.n3 * 19);
    var a4_19 := Wrap64(a.n4 * 19);
    Columns(
      Wrap128(a.n0 * a.n0 + 2 * (a.n1 * a4_19 + a.n2 * a3_19)),
      Wrap128(a.n3 * a3_19 + 2 * (a.n0 * a.n1 + a.n2 * a4_19)),
      Wrap128(a.n1 * a.n1 + 2 * (a.n0 * a.n2 + a.n4 * a3_19)),
      Wrap128(a.n4 * a4_19 + 2 * (a.n0 * a.n3 + a.n1 * a.n2)),
      Wrap128(a.n2 * a.n2 + 2 * (a.n0 * a.n4 + a.n1 * a.n3)))
  }

  /** The carry out of one coefficient, cast to 64 bits, added to the next. */
  function CarryInto(c: u128, from: u128): u128 {
    Wrap128(c + Wrap64(High51(from)))
  }

  /** The end of the carry chain: the carry out of the top limb re-enters at
      the bottom times 19. */
  function FoldCarry(c0: u128, c1: u128, c2: u128, c3: u128, c4: u128): Limbs {
    var carry := Wrap64(High51(c4));
    var out0 := Wrap64(Low51(c0) + Wrap64(carry * 19));
    Limbs(Low51(out0), Wrap64(Low51(c1) + High51(out0)), Low51(c2), Low51(c3), Low51(c4))
  }

  /** The carry chain that turns coefficients into limbs. */
  function CarryChain(c: Columns): Limbs {
    var c1 := CarryInto(c.c1, c.c0);
    var c2 := CarryInto(c.c2, c1);
    var c3 := CarryInto(c.c3, c2);
    var c4 := CarryInto(c.c4, c3);
    FoldCarry(c.c0, c1, c2, c3, c4)
  }

  function Mul(a: Limbs, b: Limbs): Limbs {
    CarryChain(ProductColumns(a, b))
  }

  /** `pow2k`: k successive squarings. */
  function Pow2k(a: Limbs, k: nat): Limbs
    decreases k, a
  {
    if k == 0 then a else Pow2k(CarryChain(SquareColumns(a)), k - 1)
  }

  function Square(a: Limbs): Limbs {
    Pow2k(a, 1)
  }

  /** One parallel round of carries. */
  function Reduce(a: Limbs): Limbs {
    Limbs(
      Wrap64(Low51(a.n0) + Wrap64(High51(a.n4) * 19)),
      Wrap64(Low51(a.n1) + High51(a.n0)),
      Wrap64(Low51(a.n2) + High51(a.n1)),
      Wrap64(Low51(a.n3) + High51(a.n2)),
      Wrap64(Low51(a.n4) + High51(a.n3)))
  }

  function Neg(a: Limbs): Limbs {
    Reduce(Limbs(
             Wrap64(36028797018963664 - a.n0),
             Wrap64(36028797018963952 - a.n1),
             Wrap64(36028797018963952 - a.n2),
             Wrap64(36028797018963952 - a.n3),
             Wrap64(36028797018963952 - a.n4)))
  }

  function Sub(a: Limbs, b: Limbs): Limbs {
    Reduce(Limbs(
             Wrap64(Wrap64(a.n0 + 36028797018963664) - b.n0),
             Wrap64(Wrap64(a.n1 + 36028797018963952) - b.n1),
             Wrap64(Wrap64(a.n2 + 36028797018963952) - b.n2),
             Wrap64(Wrap64(a.n3 + 36028797018963952) - b.n3),
             Wrap64(Wrap64(a.n4 + 36028797018963952) - b.n4)))
  }

  function Add(a: Limbs, b: Limbs): Limbs {
    Limbs(
      Wrap64(a.n0 + b.n0), Wrap64(a.n1 + b.n1), Wrap64(a.n2 + b.n2),
      Wrap64(a.n3 + b.n3), Wrap64(a.n4 + b.n4))
  }

  predicate IsNegative(a: Limbs) {
    a.n0 % 2 == 1
  }

  /** `pow22501`: the two powers of the shared prefix of the addition chain. */
  function Pow22501(x: Limbs): (Limbs, Limbs) {
    var t0 := Square(x);
    var t1 := Square(Square(t0));
    var t2 := Mul(x, t1);
    var t3 := Mul(t0, t2);
    var t4 := Square(t3);
    var t5 := Mul(t2, t4);
    var t6 := Pow2k(t5, 5);
    var t7 := Mul(t6, t5);
    var t8 := Pow2k(t7, 10);
    var t9 := Mul(t8, t7);
    var t10 := Pow2k(t9, 20);
    var t11 := Mul(t10, t9);
    var t12 := Pow2k(t11, 10);
    var t13 := Mul(t12, t7);
    var t14 := Pow2k(t13, 50);
    var t15 := Mul(t14, t13);
    var t16 := Pow2k(t15, 100);
    var t17 := Mul(t16, t15);
    var t18 := Pow2k(t17, 50);
    (t3, Mul(t18, t13))
  }

  function PowP58(x: Limbs): Limbs {
    Mul(x, Pow2k(Pow22501(x).1, 2))
  }

  /** A byte shifted left inside a 64-bit word; `weight` is the power of two. */
  function Shifted(x: byte, weight: nat): u64 {
    Wrap64(x * weight)
  }

  /** The bits that start in limb 0, and likewise below: each takes the carry
      out of the one before, cast to a byte. */
  function Word0(b: seq<byte>): u64
    requires |b| == 32
  {
    Wrap64(b[0] as int + Shifted(b[1], 0x100) + Shifted(b[2], 0x1_0000) + Shifted(b[3], 0x100_0000)
           + Shifted(b[4], 0x1_0000_0000) + Shifted(b[5], 0x100_0000_0000) + Shifted(b[6], 0x1_0000_0000_0000))
  }

  function Word1(b: seq<byte>): u64
    requires |b| == 32
  {
    Wrap64(Wrap8(High51(Word0(b))) as int + Shifted(b[7], 0x20) + Shifted(b[8], 0x2000) + Shifted(b[9], 0x20_0000)
           + Shifted(b[10], 0x2000_0000) + Shifted(b[11], 0x20_0000_0000) + Shifted(b[12], 0x2000_0000_0000))
  }

  function Word2(b: seq<byte>): u64
    requires |b| == 32
  {
    Wrap64(Wrap8(High51(Word1(b))) as int + Shifted(b[13], 0x4) + Shifted(b[14], 0x400) + Shifted(b[15], 0x4_0000)
           + Shifted(b[16], 0x400_0000) + Shifted(b[17], 0x4_0000_0000) + Shifted(b[18], 0x400_0000_0000)
           + Shifted(b[19], 0x4_0000_0000_0000))
  }

  function Word3(b: seq<byte>): u64
    requires |b| == 32
  {
    Wrap64(Wrap8(High51(Word2(b))) as int + Shifted(b[20], 0x80) + Shifted(b[21], 0x8000) + Shifted(b[22], 0x80_0000)
           + Shifted(b[23], 0x8000_0000) + Shifted(b[24], 0x80_0000_0000) + Shifted(b[25], 0x8000_0000_0000))
  }

  function Word4(b: seq<byte>): u64
    requires |b| == 32
  {
    Wrap64(Wrap8(High51(Word3(b))) as int + Shifted(b[26], 0x10) + Shifted(b[27], 0x1000) + Shifted(b[28], 0x10_0000)
           + Shifted(b[29], 0x1000_0000) + Shifted(b[30], 0x10_0000_0000) + Shifted(b[31] % 128, 0x1000_0000_0000))
  }

  /** The decoder: 32 little-endian bytes, top bit dropped, cut into five 51-bit limbs. */
  function FromBytes(b: seq<byte>): Limbs
    requires |b| == 32
  {
    Limbs(Low51(Word0(b)), Low51(Word1(b)), Low51(Word2(b)), Low51(Word3(b)), Word4(b))
  }
}
