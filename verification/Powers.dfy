/** Integer powers. */
module Powers {
  function Pow(x: int, n: nat): int
    decreases n, x
  {
    if n == 0 then 1 else x * Pow(x, n - 1)
  }

  lemma {:induction false} PowAdd(x: int, m: nat, n: nat)
    ensures Pow(x, m + n) == Pow(x, m) * Pow(x, n)
  {
    if m != 0 {
      PowAdd(x, m - 1, n);
      MulAssoc(x, Pow(x, m - 1), Pow(x, n));
    }
  }

  lemma {:induction false} PowPow(x: int, m: nat, n: nat)
    ensures m * n >= 0
    ensures Pow(Pow(x, m), n) == Pow(x, m * n)
    decreases n
  {
    if n != 0 {
      PowPow(x, m, n - 1);
      assert m * n == m + m * (n - 1);
      PowAdd(x, m, m * (n - 1));
    } else {
      assert m * n == 0;
    }
  }

  lemma {:induction false} PowPositive(x: int, n: nat)
    requires 1 <= x
    ensures 1 <= Pow(x, n)
  {
    if n != 0 {
      PowPositive(x, n - 1);
      MulAtLeast(x, Pow(x, n - 1));
    }
  }

  lemma MulAtLeast(x: int, y: int)
    requires 1 <= x && 1 <= y
    ensures y <= x * y
  {
  }

  lemma MulAssoc(x: int, y: int, z: int)
    ensures (x * y) * z == x * (y * z)
  {
  }

  lemma MulLe(x: int, y: int, x': int, y': int)
    requires 0 <= x <= x' && 0 <= y <= y'
    ensures x * y <= x' * y'
  {
    assert x * y <= x' * y;
    assert x' * y <= x' * y';
  }

  lemma MulLt(x: int, y: int, x': int, y': int)
    requires 0 <= x < x' && 0 <= y <= y' && 0 < y'
    ensures x * y < x' * y'
  {
    MulLe(x, y, x, y');
    assert x * y' < x' * y';
  }

  lemma {:induction false} PowMonoBase(x: int, y: int, n: nat)
    requires 0 <= x <= y
    ensures 0 <= Pow(x, n) <= Pow(y, n)
  {
    if n != 0 {
      PowMonoBase(x, y, n - 1);
      MulLe(x, Pow(x, n - 1), y, Pow(y, n - 1));
      MulLe(0, 0, x, Pow(x, n - 1));
    }
  }

  lemma {:induction false} PowStrictBase(x: int, y: int, n: nat)
    requires 0 <= x < y && n > 0
    ensures Pow(x, n) < Pow(y, n)
  {
    PowMonoBase(x, y, n - 1);
    PowPositive(y, n - 1);
    MulLt(x, Pow(x, n - 1), y, Pow(y, n - 1));
  }

  lemma {:induction false} PowMonoExp(x: int, m: nat, n: nat)
    requires 1 <= x && m <= n
    ensures Pow(x, m) <= Pow(x, n)
  {
    PowAdd(x, m, n - m);
    PowPositive(x, m);
    PowPositive(x, n - m);
    MulLe(Pow(x, m), 1, Pow(x, m), Pow(x, n - m));
  }
}
