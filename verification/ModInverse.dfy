/** The inverse modulo n by the extended Euclidean algorithm on unsigned
    integers: the signs of the cofactors alternate and are not stored. */
module ModularInverse {
  import opened Integers
  import opened Words
  import opened LongDivision
  import opened StackInt
  import opened IntArith

  ghost predicate Divides(d: nat, a: nat)
  {
    exists k: nat :: d * k == a
  }

  /** No number above 1 divides both. */
  ghost predicate Coprime(x: nat, n: nat)
  {
    forall d: nat :: d >= 2 && Divides(d, x) ==> !Divides(d, n)
  }

  /** What every round keeps. (lx, ux) are the stored cofactors, (ly, uy) the
      ones of the modulus that the code never computes. */
  ghost predicate Euclid(x: nat, n: nat, a: nat, b: nat, lx: nat, ux: nat, ly: nat, uy: nat, odd: bool)
  {
    && lx * b + ux * a == n
    && ly * b + uy * a == x
    && (odd ==> a == lx * x - ly * n && b == uy * n - ux * x)
    && (!odd ==> a == ly * n - lx * x && b == ux * x - uy * n)
  }

  lemma EuclidStart(x: nat, n: nat)
    ensures Euclid(x, n, x, n, 1, 0, 0, 1, true)
  {
  }

  lemma EuclidStep(x: nat, n: nat, a: nat, b: nat, lx: nat, ux: nat, ly: nat, uy: nat, odd: bool, q: nat, r: nat)
    requires Euclid(x, n, a, b, lx, ux, ly, uy, odd)
    requires a == q * b + r
    ensures q * ux >= 0 && q * uy >= 0
    ensures Euclid(x, n, b, r, ux, lx + q * ux, uy, ly + q * uy, !odd)
  {
    MulLe(0, q, ux);
    MulLe(0, q, uy);
    CombineStep(lx, ux, a, b, q, r);
    CombineStep(ly, uy, a, b, q, r);
    Distribute(x, lx, q * ux);
    Distribute(n, ly, q * uy);
    assert (q * ux) * x == q * (ux * x);
    assert (q * uy) * n == q * (uy * n);
    Distribute(q, ux * x, uy * n);
  }

  lemma CombineStep(l: int, u: int, a: int, b: int, q: int, r: int)
    requires a == q * b + r
    ensures u * r + (l + q * u) * b == l * b + u * a
  {
    Distribute(b, l, q * u);
    Distribute(u, q * b, r);
    assert (q * u) * b == u * (q * b) by {
      MulSwap(q, u, b);
      MulSwap(u, q, b);
    }
  }

  /** No cofactor exceeds n, so none overflows. */
  lemma CofactorsBounded(x: nat, n: nat, a: nat, b: nat, lx: nat, ux: nat, ly: nat, uy: nat, odd: bool)
    requires Euclid(x, n, a, b, lx, ux, ly, uy, odd) && a > 0
    ensures ux <= n
  {
    MulLe(1, a, ux);
    MulLe(0, lx, b);
    assert a * ux == ux * a;
  }

  /** At the end a divides both numbers, and it is a combination of them. */
  lemma EuclidEnd(x: nat, n: nat, a: nat, lx: nat, ux: nat, ly: nat, uy: nat, odd: bool)
    requires Euclid(x, n, a, 0, lx, ux, ly, uy, odd)
    ensures a == 1 <==> Coprime(x, n)
  {
    assert a * uy == x && a * ux == n by {
      assert a * uy == uy * a && a * ux == ux * a;
    }
    if a == 1 {
      forall d: nat | d >= 2 && Divides(d, x) ensures !Divides(d, n) {
        if Divides(d, n) {
          var k: nat, m: nat :| d * k == x && d * m == n;
          UnitCombination(d, k, m, lx, ly, if odd then 1 else -1);
        }
      }
    } else if a == 0 {
      assert 2 * 0 == x && 2 * 0 == n;
      assert Divides(2, x) && Divides(2, n);
    } else {
      assert Divides(a, x) && Divides(a, n);
    }
  }

  /** A number dividing both parts of a combination equal to 1 or -1 is 1. */
  lemma UnitCombination(d: nat, k: nat, m: nat, l: nat, l': nat, sign: int)
    requires d > 0 && (sign == 1 || sign == -1)
    requires l * (d * k) - l' * (d * m) == sign
    ensures d == 1
  {
    var t := l * k - l' * m;
    assert l * (d * k) == d * (l * k) && l' * (d * m) == d * (l' * m) by {
      MulSwap(l, d, k);
      MulSwap(l', d, m);
    }
    Distribute(d, l * k, l' * m);
    assert d * t == sign;
    if t >= 1 {
      MulLe(1, t, d);
    } else if t <= -1 {
      MulLe(t, -1, d);
    }
  }

  /** The inverse read off the final cofactor. */
  lemma InverseOf(x: nat, n: nat, lx: nat, ux: nat, ly: nat, uy: nat, odd: bool)
    requires n >= 2 && Euclid(x, n, 1, 0, lx, ux, ly, uy, odd) && lx <= ux
    ensures 1 <= lx < n
    ensures
      var z := if odd then lx else n - lx;
      (x * z) % n == 1
  {
    assert ux == n;
    assert lx != 0 && lx != n by {
      if lx == 0 {
        UnitCombination(n, 0, 1, 0, ly, if odd then 1 else -1);
      } else if lx == n {
        UnitCombination(n, x, 1, 1, ly, if odd then 1 else -1);
      }
    }
    if odd {
      assert x * lx == ly * n + 1 by {
        assert x * lx == lx * x;
      }
      DivModIs(x * lx, ly, 1, n);
    } else {
      assert x * (n - lx) == (x - ly) * n + 1 by {
        Distribute(x, n, lx);
        Distribute(n, x, ly);
        assert x * lx == lx * x;
      }
      DivModIs(x * (n - lx), x - ly, 1, n);
    }
  }

  /** Distinct objects that share no words. */
  predicate Apart(a: Int1024, b: Int1024)
  {
    a != b && a.words != b.words
  }

  /** After the first round the cofactors and remainders are in order. */
  ghost predicate Ordered(started: bool, n: nat, a: nat, b: nat, lx: nat, ux: nat)
  {
    if started then lx <= ux && b < a else lx == 1 && ux == 0 && b == n
  }

  lemma OrderedStep(started: bool, n: nat, a: nat, b: nat, lx: nat, ux: nat, q: nat, r: nat)
    requires Ordered(started, n, a, b, lx, ux) && b > 0
    requires a == q * b + r && r < b
    ensures q * ux >= 0 && Ordered(true, n, b, r, ux, lx + q * ux)
  {
    MulLe(0, q, ux);
    if q >= 1 {
      MulLe(1, q, ux);
    }
  }

  /** acc := acc + q * x, with no overflow. */
  method AddMultiple(acc: Int1024, q: Int1024, x: Int1024)
    requires acc.Valid() && q.Valid() && x.Valid() && Apart(acc, q) && Apart(acc, x)
    requires q.Value() * x.Value() >= 0 && acc.Value() + q.Value() * x.Value() < Capacity()
    modifies acc, acc.words
    ensures acc.Valid() && acc.Value() == old(acc.Value()) + q.Value() * x.Value()
  {
    hide Val, Pow, Trimmed;
    var tmp := Mul(q, x);
    SmallMod(q.Value() * x.Value(), Capacity());
    SmallMod(acc.Value() + q.Value() * x.Value(), Capacity());
    acc.Inc(tmp);
  }

  /** One division step, up to the exchange of the variables. */
  method Round(lastX: Int1024, X: Int1024, A: Int1024, B: Int1024,
               ghost vx: nat, ghost vn: nat, ghost ly: nat, ghost uy: nat, ghost odd: bool, ghost started: bool)
    returns (r: Int1024, ghost uy': nat)
    requires lastX.Valid() && X.Valid() && A.Valid() && B.Valid() && B.Value() > 0 && vn < Capacity()
    requires Apart(lastX, X) && Apart(lastX, A) && Apart(lastX, B)
    requires Euclid(vx, vn, A.Value(), B.Value(), lastX.Value(), X.Value(), ly, uy, odd)
    requires Ordered(started, vn, A.Value(), B.Value(), lastX.Value(), X.Value())
    modifies lastX, lastX.words
    ensures fresh(r) && fresh(r.words) && r.Valid() && r.Value() < B.Value() && lastX.Valid()
    ensures Euclid(vx, vn, B.Value(), r.Value(), X.Value(), lastX.Value(), uy, uy', !odd)
    ensures Ordered(true, vn, B.Value(), r.Value(), X.Value(), lastX.Value())
  {
    hide Val, Pow, Trimmed, Euclid, Ordered;
    var q;
    q, r := DivMod(A, B);
    ghost var a, b, lx, ux := A.Value(), B.Value(), lastX.Value(), X.Value();
    EuclidStep(vx, vn, a, b, lx, ux, ly, uy, odd, q.Value(), r.Value());
    OrderedStep(started, vn, a, b, lx, ux, q.Value(), r.Value());
    uy' := ly + q.Value() * uy;
    CofactorsBounded(vx, vn, b, r.Value(), ux, lx + q.Value() * ux, uy, uy', !odd);
    AddMultiple(lastX, q, X);
  }

  /** The inverse of x modulo n. Where the source panics because x and n share
      a factor, ok is false. */
  method ModInverse(x: Int1024, n: Int1024) returns (ok: bool, z: Int1024)
    requires x.Valid() && n.Valid()
    ensures fresh(z) && fresh(z.words)
    ensures ok <==> Coprime(x.Value(), n.Value())
    ensures ok && n.Value() >= 2 ==>
              z.Valid() && 1 <= z.Value() < n.Value() && (x.Value() * z.Value()) % n.Value() == 1
  {
    hide Val, Pow, Trimmed, Euclid, Ordered, Coprime, Divides;
    ghost var vx, vn := x.Value(), n.Value();
    BelowCapacity(n.words[..]);
    var lastX := new Int1024.FromUint(1);
    var A := new Int1024.Clone(x);
    var X := new Int1024.Zero();
    var N := new Int1024.Clone(n);
    var B := new Int1024.Clone(N);
    var odd := true;
    ghost var ly: nat, uy: nat, started := 0, 1, false;
    EuclidStart(vx, vn);
    assert Ordered(started, vn, vx, vn, 1, 0) by {
      OrderedStart(vn, vx);
    }
    while !B.IsZero()
      invariant fresh(lastX) && fresh(lastX.words) && fresh(X) && fresh(X.words) && fresh(N) && fresh(N.words)
      invariant fresh(A) && fresh(A.words) && fresh(B) && fresh(B.words)
      invariant lastX.Valid() && X.Valid() && A.Valid() && B.Valid() && N.Valid() && N.Value() == vn
      invariant Apart(lastX, X) && Apart(lastX, A) && Apart(lastX, B) && Apart(lastX, N)
      invariant Apart(X, A) && Apart(X, B) && Apart(X, N)
      invariant Euclid(vx, vn, A.Value(), B.Value(), lastX.Value(), X.Value(), ly, uy, odd)
      invariant Ordered(started, vn, A.Value(), B.Value(), lastX.Value(), X.Value())
      decreases B.Value()
    {
      B.EqualsWordIs(0);
      ghost var uy';
      var r;
      r, uy' := Round(lastX, X, A, B, vx, vn, ly, uy, odd, started);
      ly, uy, started := uy, uy', true;
      lastX, X, A, B := X, lastX, B, r;
      odd := !odd;
    }
    B.EqualsWordIs(0);
    A.EqualsWordIs(1);
    ok, z := ReadInverse(A, lastX, N, odd, X.Value(), vx, vn, ly, uy, started);
  }

  lemma OrderedStart(n: nat, x: nat)
    ensures Ordered(false, n, x, n, 1, 0)
  {
  }

  /** The end of the algorithm: check the divisor, make the result positive. */
  method ReadInverse(A: Int1024, lastX: Int1024, N: Int1024, odd: bool,
                     ghost ux: nat, ghost vx: nat, ghost vn: nat, ghost ly: nat, ghost uy: nat, ghost started: bool)
    returns (ok: bool, z: Int1024)
    requires A.Valid() && lastX.Valid() && N.Valid() && N.Value() == vn && Apart(lastX, N)
    requires Euclid(vx, vn, A.Value(), 0, lastX.Value(), ux, ly, uy, odd)
    requires Ordered(started, vn, A.Value(), 0, lastX.Value(), ux)
    modifies N, N.words
    ensures z == lastX || z == N || (fresh(z) && fresh(z.words))
    ensures ok <==> Coprime(vx, vn)
    ensures ok && vn >= 2 ==> z.Valid() && 1 <= z.Value() < vn && (vx * z.Value()) % vn == 1
  {
    hide Val, Pow, Trimmed, Euclid, Coprime, Divides;
    EuclidEnd(vx, vn, A.Value(), lastX.Value(), ux, ly, uy, odd);
    A.EqualsWordIs(1);
    if !A.EqualsWord(1) {
      z := new Int1024.Zero();
      return false, z;
    }
    if vn >= 2 {
      InverseOf(vx, vn, lastX.Value(), ux, ly, uy, odd);
      BelowCapacity(N.words[..]);
      SmallMod(vn - lastX.Value(), Capacity());
    }
    if !odd {
      PowMonotone(WORDS - 1, WORDS);
      N.Dec(lastX);
      return true, N;
    }
    return true, lastX;
  }
}
