/** Congruence modulo the field prime of curve25519. Nothing here assumes that P is
    prime; what follows when it is, is the subject of PrimeField. */
module Modular {
  import opened Powers

  const P: int := 0x7fff_ffff_ffff_ffff_ffff_ffff_ffff_ffff_ffff_ffff_ffff_ffff_ffff_ffff_ffff_ffed

  /** P times k, by repeated addition: a term that stands for the witness of a congruence. */
  function Multiple(k: int): int
    decreases if k < 0 then -k else k
  {
    if k == 0 then 0 else if k > 0 then Multiple(k - 1) + P else Multiple(k + 1) - P
  }

  lemma {:induction false} MultipleIs(k: int)
    ensures Multiple(k) == k * P
    decreases if k < 0 then -k else k
  {
    if k > 0 {
      MultipleIs(k - 1);
    } else if k < 0 {
      MultipleIs(k + 1);
    }
  }

  ghost predicate Cong(x: int, y: int) {
    exists k :: x - y == Multiple(k)
  }

  lemma CongIntro(x: int, y: int, k: int)
    requires x == y + k * P
    ensures Cong(x, y)
  {
    MultipleIs(k);
    assert x - y == Multiple(k);
  }

  lemma CongWitness(x: int, y: int) returns (k: int)
    requires Cong(x, y)
    ensures x == y + k * P
  {
    k :| x - y == Multiple(k);
    MultipleIs(k);
  }

  /** The usual definition, by the remainder. */
  lemma CongIsRemainder(x: int, y: int)
    ensures Cong(x, y) <==> (x - y) % P == 0
  {
    if Cong(x, y) {
      var k := CongWitness(x, y);
      assert (x - y) % P == 0;
    }
    if (x - y) % P == 0 {
      CongIntro(x, y, (x - y) / P);
    }
  }

  lemma CongRefl(x: int)
    ensures Cong(x, x)
  {
    CongIntro(x, x, 0);
  }

  lemma CongTrans(x: int, y: int, z: int)
    requires Cong(x, y) && Cong(y, z)
    ensures Cong(x, z)
  {
    var j := CongWitness(x, y);
    var k := CongWitness(y, z);
    CongIntro(x, z, j + k);
  }

  lemma CongSym(x: int, y: int)
    requires Cong(x, y)
    ensures Cong(y, x)
  {
    var k := CongWitness(x, y);
    CongIntro(y, x, -k);
  }

  lemma CongAdd(x: int, x': int, y: int, y': int)
    requires Cong(x, x') && Cong(y, y')
    ensures Cong(x + y, x' + y')
    ensures Cong(x - y, x' - y')
  {
    var j := CongWitness(x, x');
    var k := CongWitness(y, y');
    CongIntro(x + y, x' + y', j + k);
    CongIntro(x - y, x' - y', j - k);
  }

  lemma CongMul(x: int, x': int, y: int, y': int)
    requires Cong(x, x') && Cong(y, y')
    ensures Cong(x * y, x' * y')
  {
    var j := CongWitness(x, x');
    var k := CongWitness(y, y');
    MulWitness(x', y', j, k, P);
    CongIntro(x * y, x' * y', x' * k + j * y' + j * k * P);
  }

  lemma MulWitness(x: int, y: int, j: int, k: int, m: int)
    ensures (x + j * m) * (y + k * m) == x * y + (x * k + j * y + j * k * m) * m
  {
  }

  lemma {:induction false} PowCong(x: int, y: int, n: nat)
    requires Cong(x, y)
    ensures Cong(Pow(x, n), Pow(y, n))
  {
    if n == 0 {
      CongRefl(1);
    } else {
      PowCong(x, y, n - 1);
      CongMul(x, y, Pow(x, n - 1), Pow(y, n - 1));
    }
  }
}
