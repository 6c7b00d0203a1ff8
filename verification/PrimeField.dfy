/** What the primality of P gives: no zero divisors, Fermat's little theorem, and
    with it Euler's criterion for squares. */
module PrimeField {
  import opened Powers
  import opened Modular
  import opened Primes

  // No zero divisors

  lemma {:induction false} Euclid(a: nat, b: int)
    requires IsPrime(P) && 0 < a < P && Cong(a * b, 0)
    ensures Cong(b, 0)
    decreases a
  {
    hide Cong;
    if a > 1 {
      var (q, r) := (P / a, P % a);
      assert !Divides(a, P);
      var k := CongWitness(a * b, 0);
      RemainderTimes(a, b, q, r, k, P);
      CongIntro(r * b, 0, b - q * k);
      Euclid(r, b);
    }
  }

  lemma RemainderTimes(a: int, b: int, q: int, r: int, k: int, p: int)
    requires p == a * q + r && a * b == k * p
    ensures r * b == (b - q * k) * p
  {
    assert r * b == p * b - q * (a * b);
  }

  /** A product divisible by P has a factor divisible by P. */
  lemma NoZeroDivisors(a: int, b: int)
    requires IsPrime(P) && Cong(a * b, 0)
    ensures Cong(a, 0) || Cong(b, 0)
  {
    hide Cong, IsPrime;
    var r := a % P;
    CongIsRemainder(a, 0);
    if r != 0 {
      CongIntro(r, a, -(a / P));
      CongRefl(b);
      CongMul(r, a, b, b);
      CongTrans(r * b, a * b, 0);
      Euclid(r, b);
    }
  }

  // Products of distinct numbers

  function Prod(s: seq<int>): int {
    if s == [] then 1 else Prod(s[..|s| - 1]) * s[|s| - 1]
  }

  function Factorial(n: nat): int {
    if n == 0 then 1 else Factorial(n - 1) * n
  }

  /** Distinct numbers from 1 to m. */
  predicate DistinctUpTo(s: seq<int>, m: int) {
    && (forall i :: 0 <= i < |s| ==> 1 <= s[i] <= m)
    && forall i, j :: 0 <= i < j < |s| ==> s[i] != s[j]
  }

  function Without(s: seq<int>, i: nat): seq<int>
    requires i < |s|
  {
    s[..i] + s[i + 1..]
  }

  lemma WithoutLargest(s: seq<int>, m: int, i: nat)
    requires DistinctUpTo(s, m) && i < |s| && s[i] == m
    ensures DistinctUpTo(Without(s, i), m - 1)
  {
    var t := Without(s, i);
    assert forall k :: 0 <= k < |t| ==> t[k] == s[if k < i then k else k + 1];
  }

  lemma {:induction false} Pigeonhole(s: seq<int>, m: nat)
    requires DistinctUpTo(s, m)
    ensures |s| <= m
  {
    if s != [] {
      assert 1 <= s[0] <= m;
      if i :| 0 <= i < |s| && s[i] == m {
        WithoutLargest(s, m, i);
        Pigeonhole(Without(s, i), m - 1);
      } else {
        Pigeonhole(s, m - 1);
      }
    }
  }

  lemma {:induction false} ProdConcat(a: seq<int>, b: seq<int>)
    ensures Prod(a + b) == Prod(a) * Prod(b)
    decreases |b|
  {
    if b == [] {
      assert a + b == a;
    } else {
      var init := b[..|b| - 1];
      assert (a + b)[..|a + b| - 1] == a + init;
      ProdConcat(a, init);
      MulAssoc(Prod(a), Prod(init), b[|b| - 1]);
    }
  }

  lemma ProdWithout(s: seq<int>, i: nat)
    requires i < |s|
    ensures Prod(s) == Prod(Without(s, i)) * s[i]
  {
    hide Prod;
    var (a, b, x) := (s[..i], s[i + 1..], s[i]);
    assert s == a + [x] + b;
    ProdConcat(a + [x], b);
    ProdConcat(a, [x]);
    ProdConcat(a, b);
    ProdOne(x);
    Swap(Prod(a), x, Prod(b));
  }

  lemma ProdOne(x: int)
    ensures Prod([x]) == x
  {
    assert [x][..0] == [];
  }

  lemma Swap(a: int, x: int, b: int)
    ensures a * x * b == a * b * x
  {
  }

  /** n distinct numbers from 1 to n multiply to n!. */
  lemma {:induction false} ProdIsFactorial(s: seq<int>, n: nat)
    requires |s| == n && DistinctUpTo(s, n)
    ensures Prod(s) == Factorial(n)
  {
    hide Prod;
    if n == 0 {
      ProdEmpty();
    } else if i :| 0 <= i < |s| && s[i] == n {
      WithoutLargest(s, n, i);
      ProdIsFactorial(Without(s, i), n - 1);
      ProdWithout(s, i);
    } else {
      Pigeonhole(s, n - 1);
      assert false;
    }
  }

  lemma ProdEmpty()
    ensures Prod([]) == 1
  {
  }

  // Fermat's little theorem

  /** The remainders of z, 2 z, .., n z. */
  function Residues(z: int, n: nat): (s: seq<int>)
    ensures |s| == n
  {
    seq(n, i => z * (i + 1) % P)
  }

  lemma ResidueStands(z: int, i: int)
    ensures Cong(z * i % P, z * i) && 0 <= z * i % P < P
  {
    CongIntro(z * i % P, z * i, -(z * i / P));
  }

  lemma DifferentResidues(z: int, i: int, j: int)
    requires IsPrime(P) && !Cong(z, 0) && 0 < j - i < P
    ensures z * i % P != z * j % P
  {
    hide Cong, IsPrime;
    if z * i % P == z * j % P {
      ResidueStands(z, i);
      ResidueStands(z, j);
      CongAdd(z * j % P, z * j, z * i % P, z * i);
      CongSym(0, z * j - z * i);
      assert z * (j - i) == z * j - z * i;
      NoZeroDivisors(z, j - i);
      NotMultiple(j - i);
    }
  }

  lemma NotMultiple(n: int)
    requires 0 < n < P
    ensures !Cong(n, 0)
  {
    CongIsRemainder(n, 0);
  }

  lemma NonzeroResidue(z: int, i: int)
    requires IsPrime(P) && !Cong(z, 0) && 0 < i < P
    ensures 1 <= z * i % P
  {
    hide Cong, IsPrime;
    ResidueStands(z, i);
    if z * i % P == 0 {
      CongSym(0, z * i);
      NoZeroDivisors(z, i);
      NotMultiple(i);
    }
  }

  lemma ResiduesPermute(z: int)
    requires IsPrime(P) && !Cong(z, 0)
    ensures DistinctUpTo(Residues(z, P - 1), P - 1)
  {
    hide Cong, IsPrime;
    var s := Residues(z, P - 1);
    forall i | 0 <= i < |s| ensures 1 <= s[i] <= P - 1 {
      NonzeroResidue(z, i + 1);
    }
    forall i, j | 0 <= i < j < |s| ensures s[i] != s[j] {
      DifferentResidues(z, i + 1, j + 1);
    }
  }

  lemma {:induction false} ProdOfResidues(z: int, n: nat)
    ensures Cong(Prod(Residues(z, n)), Pow(z, n) * Factorial(n))
  {
    hide Cong;
    var s := Residues(z, n);
    if n == 0 {
      CongRefl(1);
    } else {
      assert s[..n - 1] == Residues(z, n - 1);
      ProdOfResidues(z, n - 1);
      ResidueStands(z, n);
      CongMul(Prod(s[..n - 1]), Pow(z, n - 1) * Factorial(n - 1), s[n - 1], z * n);
      Regroup(Pow(z, n - 1), Factorial(n - 1), z, n);
    }
  }

  lemma Regroup(a: int, f: int, z: int, n: int)
    ensures a * f * (z * n) == z * a * (f * n)
  {
    assert a * f * (z * n) == (a * z) * (f * n);
  }

  lemma {:induction false} FactorialNonzero(n: nat)
    requires IsPrime(P) && n < P
    ensures !Cong(Factorial(n), 0)
  {
    hide Cong, IsPrime;
    if n == 0 {
      NotMultiple(1);
    } else {
      FactorialNonzero(n - 1);
      NotMultiple(n);
      if Cong(Factorial(n), 0) {
        NoZeroDivisors(Factorial(n - 1), n);
      }
    }
  }

  /** Fermat's little theorem for P. */
  lemma Fermat(z: int)
    requires IsPrime(P) && !Cong(z, 0)
    ensures Cong(Pow(z, P - 1), 1)
  {
    hide Cong, IsPrime, Pow, Prod, Factorial, Residues;
    var (x, f) := (Pow(z, P - 1), Factorial(P - 1));
    ResiduesPermute(z);
    ProdIsFactorial(Residues(z, P - 1), P - 1);
    ProdOfResidues(z, P - 1);
    CongSym(f, x * f);
    CongRefl(f);
    CongAdd(x * f, f, f, f);
    assert x * f - f == (x - 1) * f;
    NoZeroDivisors(x - 1, f);
    FactorialNonzero(P - 1);
    FromDifference(x, 1);
  }

  lemma FromDifference(x: int, y: int)
    ensures Cong(x - y, 0) <==> Cong(x, y)
  {
    CongIsRemainder(x - y, 0);
    CongIsRemainder(x, y);
  }

  // Euler's criterion

  /** The power (P - 1) / 2 of anything but zero is 1 or -1. */
  lemma HalfPower(z: int)
    requires IsPrime(P) && !Cong(z, 0)
    ensures Cong(Pow(z, (P - 1) / 2), 1) || Cong(Pow(z, (P - 1) / 2), -1)
  {
    hide Cong, IsPrime, Pow;
    var h := Pow(z, (P - 1) / 2);
    Fermat(z);
    PowAdd(z, (P - 1) / 2, (P - 1) / 2);
    assert (P - 1) / 2 + (P - 1) / 2 == P - 1;
    FromDifference(h * h, 1);
    assert h * h - 1 == (h - 1) * (h - -1);
    NoZeroDivisors(h - 1, h - -1);
    FromDifference(h, 1);
    FromDifference(h, -1);
  }
}
