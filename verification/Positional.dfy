/** Numbers as digit sequences in any base, and the change of base that keeps
    leading zeros, which base58 applies in both directions. */
module Positional {
  import opened Words
  import opened Powers

  /** The number whose base-b digits, least significant first, are ds. */
  function FromDigits(ds: seq<int>, b: int): int {
    if ds == [] then 0 else ds[0] + b * FromDigits(ds[1..], b)
  }

  function Rem(t: nat, b: int): (r: nat)
    requires 2 <= b
    ensures r < b
  {
    t % b
  }

  function Quot(t: nat, b: int): (q: nat)
    requires 2 <= b
    ensures t > 0 ==> q < t
  {
    QuotSmaller(t, b, t / b, t % b);
    t / b
  }

  lemma QuotSmaller(t: nat, b: int, q: int, r: int)
    requires 2 <= b && 0 <= r && t == r + b * q && 0 <= q
    ensures t > 0 ==> q < t
  {
    assert b * q >= 2 * q;
  }

  lemma QuotRem(t: nat, b: int)
    requires 2 <= b
    ensures t == Rem(t, b) + b * Quot(t, b)
  {
  }

  /** The digits of n, least significant first, without a leading zero. */
  function ToDigits(n: nat, b: int): (ds: seq<int>)
    requires 2 <= b
    ensures AreDigits(ds, b)
  {
    if n == 0 then [] else [Rem(n, b)] + ToDigits(Quot(n, b), b)
  }

  predicate AreDigits(ds: seq<int>, b: int) {
    forall i :: 0 <= i < |ds| ==> 0 <= ds[i] < b
  }

  lemma {:induction false} FromDigitsNonneg(ds: seq<int>, b: int)
    requires 2 <= b && AreDigits(ds, b)
    ensures 0 <= FromDigits(ds, b)
    ensures ds != [] && ds[|ds| - 1] != 0 ==> 1 <= FromDigits(ds, b)
  {
    if ds != [] {
      FromDigitsNonneg(ds[1..], b);
    }
  }

  /** Value of the digits of n. */
  lemma {:induction false} FromToDigits(n: nat, b: int)
    requires 2 <= b
    ensures FromDigits(ToDigits(n, b), b) == n
  {
    if n != 0 {
      FromToDigits(Quot(n, b), b);
      QuotRem(n, b);
      assert ToDigits(n, b)[1..] == ToDigits(Quot(n, b), b);
    }
  }

  /** The digits of n end in a nonzero digit. */
  lemma {:induction false} ToDigitsTop(n: nat, b: int)
    requires 2 <= b && n > 0
    ensures var ds := ToDigits(n, b); ds != [] && ds[|ds| - 1] != 0
  {
    QuotRem(n, b);
    if Quot(n, b) != 0 {
      ToDigitsTop(Quot(n, b), b);
    }
  }

  lemma DivMod(q: int, r: int, b: int)
    requires 2 <= b && 0 <= r < b
    ensures r + b * q >= 0 ==> Rem(r + b * q, b) == r && Quot(r + b * q, b) == q
  {
    var n := r + b * q;
    var k := n / b - q;
    assert b * k == r - n % b;
    assert k >= 1 ==> b * k >= b;
    assert k <= -1 ==> b * k <= -b;
  }

  /** Digits without a leading zero are the digits of their value. */
  lemma {:induction false} ToFromDigits(ds: seq<int>, b: int)
    requires 2 <= b && AreDigits(ds, b)
    requires ds != [] ==> ds[|ds| - 1] != 0
    ensures FromDigits(ds, b) >= 0 && ToDigits(FromDigits(ds, b), b) == ds
  {
    FromDigitsNonneg(ds, b);
    if ds != [] {
      ToFromDigits(ds[1..], b);
      DivMod(FromDigits(ds[1..], b), ds[0], b);
      assert ds == [ds[0]] + ds[1..];
    }
  }

  function Reverse(s: seq<int>): (r: seq<int>)
    ensures |r| == |s|
    ensures forall i :: 0 <= i < |s| ==> r[i] == s[|s| - 1 - i]
  {
    seq(|s|, i requires 0 <= i < |s| => s[|s| - 1 - i])
  }

  /** The number of zeros a digit string, most significant digit first, starts with. */
  function Lead(s: seq<int>): (z: nat)
    ensures z <= |s|
  {
    if s == [] || s[0] != 0 then 0 else 1 + Lead(s[1..])
  }

  lemma {:induction false} LeadSplits(s: seq<int>)
    ensures s[..Lead(s)] == Zeros(Lead(s))
    ensures Lead(s) < |s| ==> s[Lead(s)] != 0
  {
    if s != [] && s[0] == 0 {
      LeadSplits(s[1..]);
    }
  }

  lemma {:induction false} LeadOf(z: nat, t: seq<int>)
    requires t != [] ==> t[0] != 0
    ensures Lead(Zeros(z) + t) == z
  {
    var s := Zeros(z) + t;
    if z != 0 {
      assert s[1..] == Zeros(z - 1) + t;
      LeadOf(z - 1, t);
    } else {
      assert s == t;
    }
  }

  lemma {:induction false} TopZeros(ds: seq<int>, z: nat, b: int)
    ensures FromDigits(ds + Zeros(z), b) == FromDigits(ds, b)
  {
    if ds != [] {
      assert (ds + Zeros(z))[1..] == ds[1..] + Zeros(z);
      TopZeros(ds[1..], z, b);
    } else if z != 0 {
      assert (ds + Zeros(z))[1..] == [] + Zeros(z - 1);
      TopZeros([], z - 1, b);
    }
  }

  /** The number a digit string stands for, most significant digit first. */
  function Number(s: seq<int>, b: int): int {
    FromDigits(Reverse(s), b)
  }

  /** A digit appended is added to the base times the number. */
  lemma NumberStep(s: seq<int>, b: int)
    ensures Number([], b) == 0
    ensures s != [] ==> Number(s, b) == b * Number(s[..|s| - 1], b) + s[|s| - 1]
  {
    assert Reverse([]) == [];
    if s != [] {
      assert Reverse(s)[1..] == Reverse(s[..|s| - 1]);
    }
  }

  /** Change of base: as many zeros as the string starts with, then the digits
      of its number. */
  function Convert(s: seq<int>, from: int, to: int): (r: seq<int>)
    requires 2 <= from && 2 <= to && AreDigits(s, from)
    ensures AreDigits(r, to)
  {
    FromDigitsNonneg(Reverse(s), from);
    Zeros(Lead(s)) + Reverse(ToDigits(Number(s, from), to))
  }

  /** A string is its zeros followed by the digits of its number. */
  lemma Canonical(s: seq<int>, b: int)
    requires 2 <= b && AreDigits(s, b)
    ensures Convert(s, b, b) == s
  {
    var z := Lead(s);
    LeadSplits(s);
    var t := s[z..];
    assert s == Zeros(z) + t;
    assert Reverse(s) == Reverse(t) + Zeros(z);
    TopZeros(Reverse(t), z, b);
    ToFromDigits(Reverse(t), b);
    assert Reverse(Reverse(t)) == t;
  }

  lemma NumberOfDigits(z: nat, n: nat, b: int)
    requires 2 <= b
    ensures var s := Zeros(z) + Reverse(ToDigits(n, b));
            Lead(s) == z && Number(s, b) == n
  {
    var ds := ToDigits(n, b);
    var s := Zeros(z) + Reverse(ds);
    if n > 0 {
      ToDigitsTop(n, b);
    }
    LeadOf(z, Reverse(ds));
    assert Reverse(s) == ds + Zeros(z);
    TopZeros(ds, z, b);
    FromToDigits(n, b);
  }

  /** Converting to another base and back is the identity on all digit strings:
      change of base is a bijection between the strings over the two bases. */
  lemma ConvertRoundTrip(s: seq<int>, from: int, to: int)
    requires 2 <= from && 2 <= to && AreDigits(s, from)
    ensures Convert(Convert(s, from, to), to, from) == s
  {
    FromDigitsNonneg(Reverse(s), from);
    NumberOfDigits(Lead(s), Number(s, from), to);
    Canonical(s, from);
  }

  // Multiply-and-add in place

  /** One pass of the inner loops of base58: every digit times `mul` plus the
      carry, the carry left at the end written out as new digits. */
  function MulAdd(ds: seq<int>, mul: nat, carry: nat, b: int): seq<int>
    requires 2 <= b && AreDigits(ds, b)
  {
    if ds == [] then ToDigits(carry, b)
    else
      var t := ds[0] * mul + carry;
      [Rem(t, b)] + MulAdd(ds[1..], mul, Quot(t, b), b)
  }

  lemma {:induction false} MulAddValue(ds: seq<int>, mul: nat, carry: nat, b: int)
    requires 2 <= b && AreDigits(ds, b)
    ensures AreDigits(MulAdd(ds, mul, carry, b), b)
    ensures FromDigits(MulAdd(ds, mul, carry, b), b) == FromDigits(ds, b) * mul + carry
  {
    hide Rem, Quot;
    if ds == [] {
      FromToDigits(carry, b);
    } else {
      var t := ds[0] * mul + carry;
      MulAddValue(ds[1..], mul, Quot(t, b), b);
      QuotRem(t, b);
      assert MulAdd(ds, mul, carry, b)[1..] == MulAdd(ds[1..], mul, Quot(t, b), b);
      ShiftedSum(ds[0], FromDigits(ds[1..], b), mul, carry, Quot(t, b), Rem(t, b), b);
    }
  }

  lemma ShiftedSum(d: int, v: int, mul: int, carry: int, q: int, r: int, b: int)
    requires r + b * q == d * mul + carry
    ensures r + b * (v * mul + q) == (d + b * v) * mul + carry
  {
    assert b * (v * mul + q) == (b * v) * mul + b * q;
  }

  lemma {:induction false} MulAddTop(ds: seq<int>, mul: nat, carry: nat, b: int)
    requires 2 <= b && AreDigits(ds, b) && mul > 0
    requires ds != [] && ds[|ds| - 1] != 0
    ensures var r := MulAdd(ds, mul, carry, b); r != [] && r[|r| - 1] != 0
  {
    hide Rem, Quot;
    var t := ds[0] * mul + carry;
    if |ds| > 1 {
      MulAddTop(ds[1..], mul, Quot(t, b), b);
    } else {
      assert t > 0 by { assert ds[0] * mul >= mul; }
      assert MulAdd(ds[1..], mul, Quot(t, b), b) == ToDigits(Quot(t, b), b);
      QuotRem(t, b);
      if Quot(t, b) > 0 {
        ToDigitsTop(Quot(t, b), b);
      }
    }
  }

  /** What the buffers hold: the digits of n, or a single zero. */
  function Rep(n: nat, b: int): (r: seq<int>)
    requires 2 <= b
    ensures r != [] && AreDigits(r, b)
  {
    if n == 0 then [0] else ToDigitsTop(n, b); ToDigits(n, b)
  }

  /** A pass over the buffer for n leaves the buffer for n * mul + d. */
  lemma RepStep(n: nat, mul: nat, d: nat, b: int)
    requires 2 <= b && mul > 0
    ensures n * mul + d >= 0 && MulAdd(Rep(n, b), mul, d, b) == Rep(n * mul + d, b)
  {
    hide Rep, MulAdd;
    if n == 0 {
      RepOfZero(mul, d, b);
    } else {
      RepOfPositive(n, mul, d, b);
    }
  }

  lemma RepOfZero(mul: nat, d: nat, b: int)
    requires 2 <= b
    ensures 0 * mul + d == d && MulAdd(Rep(0, b), mul, d, b) == Rep(d, b)
  {
    hide Rem, Quot, ToDigits;
    assert Rep(0, b) == [0];
    ZeroTimes(mul, d, b);
    NoDigits(b);
  }

  lemma NoDigits(b: int)
    requires 2 <= b
    ensures ToDigits(0, b) == [] && Rem(0, b) == 0 && Quot(0, b) == 0
  {
  }

  lemma ZeroTimes(mul: nat, d: nat, b: int)
    requires 2 <= b
    ensures MulAdd([0], mul, d, b) == [Rem(d, b)] + ToDigits(Quot(d, b), b)
    ensures d > 0 ==> ToDigits(d, b) == [Rem(d, b)] + ToDigits(Quot(d, b), b)
  {
    hide Rem, Quot;
    var digits: seq<int> := [0];
    assert digits[1..] == [];
    assert MulAdd(digits[1..], mul, Quot(d, b), b) == ToDigits(Quot(d, b), b);
  }

  lemma RepOfPositive(n: nat, mul: nat, d: nat, b: int)
    requires 2 <= b && mul > 0 && n > 0
    ensures n * mul + d > 0 && MulAdd(Rep(n, b), mul, d, b) == Rep(n * mul + d, b)
  {
    hide FromDigits, ToDigits, MulAdd, AreDigits;
    var ds := Rep(n, b);
    ToDigitsTop(n, b);
    FromToDigits(n, b);
    MulAddValue(ds, mul, d, b);
    MulAddTop(ds, mul, d, b);
    ToFromDigits(MulAdd(ds, mul, d, b), b);
    MulAtLeast(n, mul);
  }

  /** Appending a digit to a string. */
  lemma NumberAppend(s: seq<int>, d: int, b: int)
    ensures Number(s + [d], b) == d + b * Number(s, b)
  {
    assert Reverse(s + [d])[1..] == Reverse(s);
  }

  // How many digits a number has

  lemma {:induction false} DigitsBelow(ds: seq<int>, b: int)
    requires 2 <= b && AreDigits(ds, b)
    ensures FromDigits(ds, b) < Pow(b, |ds|)
  {
    if ds != [] {
      DigitsBelow(ds[1..], b);
      Scale(FromDigits(ds[1..], b), Pow(b, |ds| - 1), b);
    }
  }

  lemma Scale(x: int, y: int, b: int)
    requires x < y && 2 <= b
    ensures b + b * x <= b * y
  {
    assert b * (x + 1) <= b * y;
  }

  lemma {:induction false} DigitsAbove(ds: seq<int>, b: int)
    requires 2 <= b && AreDigits(ds, b) && ds != [] && ds[|ds| - 1] != 0
    ensures Pow(b, |ds| - 1) <= FromDigits(ds, b)
  {
    if |ds| > 1 {
      DigitsAbove(ds[1..], b);
      PowPositive(b, |ds| - 2);
      MulLe(b, Pow(b, |ds| - 2), b, FromDigits(ds[1..], b));
    } else {
      assert Pow(b, 0) == 1;
      assert FromDigits(ds[1..], b) == 0;
    }
  }

  /** A number below b^k has at most k digits, one from b^(k-1) on at least k. */
  lemma DigitCount(n: nat, b: int, k: nat)
    requires 2 <= b
    ensures n < Pow(b, k) ==> |ToDigits(n, b)| <= k
    ensures k >= 1 && Pow(b, k - 1) <= n ==> |ToDigits(n, b)| >= k
  {
    var ds := ToDigits(n, b);
    FromToDigits(n, b);
    DigitsBelow(ds, b);
    if n > 0 {
      ToDigitsTop(n, b);
      DigitsAbove(ds, b);
    }
    if |ds| > k {
      PowMonoExp(b, k, |ds| - 1);
    }
    if |ds| < k {
      PowMonoExp(b, |ds|, k - 1);
    }
  }

  /** The number of a string is below b^m, m its length without leading zeros,
      and at least b^(m-1) when m is not zero. */
  lemma NumberBounds(s: seq<int>, b: int)
    requires 2 <= b && AreDigits(s, b)
    ensures var m := |s| - Lead(s);
            && 0 <= Number(s, b) < Pow(b, m)
            && (m >= 1 ==> Pow(b, m - 1) <= Number(s, b))
  {
    hide FromDigits, Pow, Lead;
    var z := Lead(s);
    var t := s[z..];
    LeadSplits(s);
    assert s == Zeros(z) + t;
    assert Reverse(s) == Reverse(t) + Zeros(z);
    TopZeros(Reverse(t), z, b);
    FromDigitsNonneg(Reverse(t), b);
    DigitsBelow(Reverse(t), b);
    if t != [] {
      DigitsAbove(Reverse(t), b);
    }
  }
}
