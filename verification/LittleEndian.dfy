/** Little-endian integers: what `encode_u16` .. `encode_s64` write and
    `decode_u16` .. `decode_s64` read. */
module LittleEndian {
  import opened Words
  import opened Powers
  import opened Positional

  /** The integer whose base-256 digits, least significant first, are the bytes. */
  function FromLE(b: seq<byte>): nat {
    FromDigitsNonneg(b, 256);
    FromDigits(b, 256)
  }

  function Pow256(n: nat): nat {
    PowPositive(256, n);
    Pow(256, n)
  }

  lemma FromLEBound(b: seq<byte>)
    ensures FromLE(b) < Pow256(|b|)
  {
    hide FromDigits, Pow;
    DigitsBelow(b, 256);
  }

  lemma {:induction false} FromLESplit(b: seq<byte>, n: nat)
    requires n <= |b|
    ensures FromLE(b) == FromLE(b[..n]) + Pow256(n) * FromLE(b[n..])
  {
    if n == 0 {
      assert b[0..] == b;
    } else {
      FromLESplit(b[1..], n - 1);
      assert b[..n][1..] == b[1..][..n - 1];
      assert b[1..][n - 1..] == b[n..];
      MulAssoc(256, Pow256(n - 1), FromLE(b[n..]));
    }
  }

  lemma Pow256Add(m: nat, n: nat)
    ensures Pow256(m + n) == Pow256(m) * Pow256(n)
  {
    PowAdd(256, m, n);
  }

  lemma SmallPow256()
    ensures Pow256(1) == 0x100 && Pow256(2) == 0x1_0000 && Pow256(3) == 0x100_0000
    ensures Pow256(4) == 0x1_0000_0000 && Pow256(8) == 0x1_0000_0000_0000_0000
  {
    assert Pow256(3) == 256 * Pow256(2) && Pow256(2) == 256 * Pow256(1) && Pow256(1) == 256 * Pow256(0);
    Pow256Add(2, 2);
    Pow256Add(4, 4);
  }

  /** The low `width` bytes of an integer in two's complement, least significant first. */
  function ToLE(n: int, width: nat): (b: seq<byte>)
    ensures |b| == width
    decreases width
  {
    if width == 0 then [] else [n % 256] + ToLE(n / 256, width - 1)
  }

  /** Writing and reading an integer keeps it modulo 256^width. */
  lemma {:induction false} FromToLE(n: int, width: nat)
    ensures Pow256(width) > 0 && FromLE(ToLE(n, width)) == n % Pow256(width)
    decreases width
  {
    if width != 0 {
      FromToLE(n / 256, width - 1);
      assert ToLE(n, width)[1..] == ToLE(n / 256, width - 1);
      ModShift(n, Pow256(width - 1));
    }
  }

  /** Byte i of an integer is its digit of weight 256^i. */
  lemma {:induction false} ToLEDigit(n: int, width: nat, i: nat)
    requires i < width
    ensures Pow256(i) > 0 && ToLE(n, width)[i] == n / Pow256(i) % 256
    decreases width
  {
    if i == 0 {
      assert Pow256(0) == 1;
    } else {
      ToLEDigit(n / 256, width - 1, i - 1);
      DivTwice(n, Pow256(i - 1));
    }
  }

  lemma DivTwice(n: int, p: int)
    requires p > 0
    ensures n / 256 / p == n / (256 * p)
  {
    var (q, r) := (n / 256 / p, n / 256 % p);
    assert n == (256 * p) * q + (256 * r + n % 256) by {
      assert n / 256 == p * q + r;
      assert 256 * (p * q) == (256 * p) * q;
    }
    DivUnique(n, 256 * p, q, 256 * r + n % 256);
  }

  lemma DivUnique(n: int, d: int, q: int, r: int)
    requires d > 0 && 0 <= r < d && n == d * q + r
    ensures n / d == q
  {
    var k := n / d - q;
    assert d * k == r - n % d;
    assert k >= 1 ==> d * k >= d;
    assert k <= -1 ==> d * k <= -d;
  }

  lemma ModShift(n: int, p: int)
    requires p > 0
    ensures n % (256 * p) == n % 256 + 256 * (n / 256 % p)
  {
    var (q, m) := (n / 256, n / 256 % p);
    var r := n % 256 + 256 * m;
    assert q == p * (q / p) + m;
    assert n == (256 * p) * (q / p) + r by {
      assert 256 * (p * (q / p)) == (256 * p) * (q / p);
    }
    ModUnique(n, 256 * p, q / p, r);
  }

  lemma ModUnique(n: int, d: int, q: int, r: int)
    requires d > 0 && 0 <= r < d && n == d * q + r
    ensures n % d == r
  {
    var k := n / d - q;
    assert d * k == r - n % d;
    assert k >= 1 ==> d * k >= d;
    assert k <= -1 ==> d * k <= -d;
  }

  /** `decode_u8` .. `decode_u64`: zero when the bytes are not there. */
  function DecodeUnsigned(b: seq<byte>, at: nat, width: nat): nat {
    if at + width > |b| then 0 else FromLE(b[at..at + width])
  }

  /** `decode_s8` .. `decode_s64`. */
  function DecodeSigned(b: seq<byte>, at: nat, width: nat): int {
    var u := DecodeUnsigned(b, at, width);
    if 2 * u < Pow256(width) then u else u - Pow256(width)
  }

  predicate FitsUnsigned(n: int, width: nat) {
    0 <= n < Pow256(width)
  }

  predicate FitsSigned(n: int, width: nat) {
    -1 * Pow256(width) <= 2 * n < Pow256(width)
  }

  lemma DecodesUnsigned(pre: seq<byte>, n: int, width: nat, rest: seq<byte>)
    requires FitsUnsigned(n, width)
    ensures DecodeUnsigned(pre + ToLE(n, width) + rest, |pre|, width) == n
  {
    var b := pre + ToLE(n, width) + rest;
    assert b[|pre|..|pre| + width] == ToLE(n, width);
    FromToLE(n, width);
    ModUnique(n, Pow256(width), 0, n);
  }

  lemma DecodesSigned(pre: seq<byte>, n: int, width: nat, rest: seq<byte>)
    requires FitsSigned(n, width) && width > 0
    ensures DecodeSigned(pre + ToLE(n, width) + rest, |pre|, width) == n
  {
    var b := pre + ToLE(n, width) + rest;
    assert b[|pre|..|pre| + width] == ToLE(n, width);
    FromToLE(n, width);
    if n >= 0 {
      ModUnique(n, Pow256(width), 0, n);
    } else {
      ModUnique(n, Pow256(width), -1, n + Pow256(width));
    }
  }
}
