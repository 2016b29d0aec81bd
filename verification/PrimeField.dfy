/** Arithmetic modulo the sharing prime. */
module PrimeField {
  import opened Integers
  import opened Residues
  import opened ModularInverse

  const PRIME: nat := 17012364981921935471

  ghost predicate IsPrime(p: nat)
  {
    p >= 2 && forall d: nat :: 2 <= d < p ==> !Divides(d, p)
  }

  /** Equal in the field. */
  ghost predicate Cong(a: int, b: int)
  {
    a % PRIME == b % PRIME
  }

  /** z is the field inverse of d. */
  ghost predicate IsInverse(d: int, z: int)
  {
    1 <= z < PRIME && (d * z) % PRIME == 1
  }

  /** The field inverse; zero where there is none. */
  ghost function Inverse(d: int): (z: nat)
    ensures (exists y :: IsInverse(d, y)) ==> IsInverse(d, z)
  {
    if exists y :: IsInverse(d, y) then var y :| IsInverse(d, y); y else 0
  }

  lemma CongAdd(a: int, a': int, b: int, b': int)
    requires Cong(a, a') && Cong(b, b')
    ensures Cong(a + b, a' + b')
  {
    ModAdd(a, b, PRIME);
    ModAdd(a', b', PRIME);
  }

  lemma CongSub(a: int, a': int, b: int, b': int)
    requires Cong(a, a') && Cong(b, b')
    ensures Cong(a - b, a' - b')
  {
    ModSub(a, b, PRIME);
    ModSub(a', b', PRIME);
  }

  lemma CongMul(a: int, a': int, b: int, b': int)
    requires Cong(a, a') && Cong(b, b')
    ensures Cong(a * b, a' * b')
  {
    ModMul(a, b, PRIME);
    ModMul(a', b', PRIME);
  }

  lemma CongResidue(a: int)
    ensures Cong(a % PRIME, a)
  {
  }

  /** Every element that is not zero has an inverse. */
  lemma NonZeroIsCoprime(d: nat)
    requires IsPrime(PRIME) && !Cong(d, 0)
    ensures Coprime(d, PRIME)
  {
    forall e: nat | e >= 2 && Divides(e, d) ensures !Divides(e, PRIME) {
      if Divides(e, PRIME) {
        var k: nat :| e * k == PRIME;
        assert k >= 1;
        MulLe(1, k, e);
        assert e == PRIME;
        var m: nat :| e * m == d;
        DivModIs(d, m, 0, PRIME);
      }
    }
  }

  /** Invertible factors cancel. */
  lemma CongCancel(a: int, b: int, d: int, z: int)
    requires Cong(d * a, d * b) && IsInverse(d, z)
    ensures Cong(a, b)
  {
    hide Cong;
    UndoFactor(a, d, z);
    UndoFactor(b, d, z);
    CongSame(z);
    CongMul(z, z, d * a, d * b);
    CongJoin(z * (d * a), z * (d * b), a, b);
  }

  lemma CongSame(a: int)
    ensures Cong(a, a)
  {
  }

  lemma CongJoin(a: int, b: int, a': int, b': int)
    requires Cong(a, b) && Cong(a, a') && Cong(b, b')
    ensures Cong(a', b')
  {
  }

  lemma UndoFactor(a: int, d: int, z: int)
    requires IsInverse(d, z)
    ensures Cong(z * (d * a), a)
  {
    hide Cong;
    CongOne(d * z);
    CongSame(a);
    CongMul(d * z, 1, a, a);
    MulSwap(z, d, a);
    assert (z * d) * a == (d * z) * a;
  }

  lemma CongOne(a: int)
    requires a % PRIME == 1
    ensures Cong(a, 1)
  {
  }

  /** The inverse is unique and multiplicative: the inverse of d * e, times e,
      is the inverse of d. */
  lemma InverseOfProduct(d: int, e: int, z: int, w: int)
    requires IsInverse(d * e, z) && IsInverse(d, w)
    ensures Cong(e * z, w)
  {
    hide Cong;
    CongOne((d * e) * z);
    CongOne(d * w);
    assert d * (e * z) == (d * e) * z by {
      MulSwap(d, e, z);
    }
    CongJoin(1, 1, d * (e * z), d * w) by {
      CongSame(1);
      CongFlip((d * e) * z, 1);
      CongFlip(d * w, 1);
    }
    CongCancel(e * z, w, d, w);
  }

  lemma CongFlip(a: int, b: int)
    requires Cong(a, b)
    ensures Cong(b, a)
  {
  }

  lemma InverseUnique(d: int, d': int, z: int, z': int)
    requires Cong(d, d') && IsInverse(d, z) && IsInverse(d', z')
    ensures z == z'
  {
    assert Cong(d * z', d' * z') by {
      CongSame(z');
      CongMul(d, d', z', z');
    }
    assert Cong(d * z, d * z');
    CongCancel(z, z', d, z);
    assert z % PRIME == z && z' % PRIME == z';
  }

  lemma RunEuclid(x: nat, n: nat, a: nat, b: nat, lx: nat, ux: nat, ly: nat, uy: nat, odd: bool, started: bool)
    returns (g: nat, lx': nat, ux': nat, ly': nat, uy': nat, odd': bool)
    requires n > 0
    requires Euclid(x, n, a, b, lx, ux, ly, uy, odd) && Ordered(started, n, a, b, lx, ux)
    ensures Euclid(x, n, g, 0, lx', ux', ly', uy', odd') && lx' <= ux'
    decreases b
  {
    if b == 0 {
      return a, lx, ux, ly, uy, odd;
    }
    DivTimesMod(a, b);
    DivNonNeg(a, b);
    var q, r := a / b, a % b;
    EuclidStep(x, n, a, b, lx, ux, ly, uy, odd, q, r);
    OrderedStep(started, n, a, b, lx, ux, q, r);
    g, lx', ux', ly', uy', odd' := RunEuclid(x, n, b, r, ux, lx + q * ux, uy, ly + q * uy, !odd, true);
  }

  lemma InverseExists(d: int)
    requires IsPrime(PRIME) && !Cong(d, 0)
    ensures IsInverse(d, Inverse(d))
  {
    hide Euclid;
    var x := d % PRIME;
    CongResidue(d);
    NonZeroIsCoprime(x);
    EuclidStart(x, PRIME);
    var g, lx, ux, ly, uy, odd := RunEuclid(x, PRIME, x, PRIME, 1, 0, 0, 1, true, false);
    EuclidEnd(x, PRIME, g, lx, ux, ly, uy, odd);
    InverseOf(x, PRIME, lx, ux, ly, uy, odd);
    var z := if odd then lx else PRIME - lx;
    CongSame(z);
    CongMul(x, d, z, z);
    assert IsInverse(d, z);
  }

  /** A product of elements that are not zero is not zero. */
  lemma NonZeroProduct(d: int, e: int)
    requires IsPrime(PRIME) && !Cong(d, 0) && !Cong(e, 0)
    ensures !Cong(d * e, 0)
  {
    if Cong(d * e, 0) {
      InverseExists(d);
      assert Cong(d * e, d * 0);
      CongCancel(e, 0, d, Inverse(d));
    }
  }
}
