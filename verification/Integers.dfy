/** Facts about products and quotients of integers, one per lemma so that no
    proof needs more than the one it names. */
module Integers {

  lemma MulLe(a: int, b: int, c: nat)
    requires a <= b
    ensures a * c <= b * c
  {
  }

  lemma MulLt(a: int, b: int, c: int)
    requires a < b && c > 0
    ensures a * c < b * c
  {
  }

  lemma MulCancelLt(a: int, b: int, c: int)
    requires a * c < b * c && c > 0
    ensures a < b
  {
  }

  lemma DivNonNeg(a: int, d: int)
    requires 0 <= a && d > 0
    ensures 0 <= a / d <= a
  {
    DivTimesMod(a, d);
    if a / d < 0 {
      MulLe(a / d, -1, d);
    }
    MulLe(1, d, if a / d < 0 then 0 else a / d);
  }

  lemma MulSwap(a: int, b: int, c: int)
    ensures a * (b * c) == b * (a * c)
    ensures a * (b * c) == (a * b) * c
  {
    assert a * (b * c) == (a * b) * c;
    assert b * (a * c) == (b * a) * c;
  }

  lemma Distribute(a: int, b: int, c: int)
    ensures a * (b + c) == a * b + a * c
    ensures (b + c) * a == b * a + c * a
    ensures a * (b - c) == a * b - a * c
    ensures (b - c) * a == b * a - c * a
  {
  }

  /** Quotient and remainder are unique. */
  lemma DivUnique(q: int, r: int, q': int, r': int, d: int)
    requires 0 <= r < d && 0 <= r' < d
    requires r + q * d == r' + q' * d
    ensures q == q' && r == r'
  {
    Distribute(d, q, q');
    if q < q' {
      MulLe(1, q' - q, d);
    } else if q > q' {
      MulLe(1, q - q', d);
    }
  }

  /** Quotient and remainder in terms of the built-in operators. */
  lemma DivModIs(a: int, q: int, r: int, d: int)
    requires 0 <= r < d
    requires a == q * d + r
    ensures a / d == q && a % d == r
  {
    assert a == (a / d) * d + a % d;
    DivUnique(a / d, a % d, q, r, d);
  }

  lemma SmallMod(a: nat, d: nat)
    requires a < d
    ensures a % d == a
  {
    DivModIs(a, 0, a, d);
  }

  lemma DivTimesMod(a: int, d: int)
    requires d > 0
    ensures a == (a / d) * d + a % d
    ensures 0 <= a % d < d
  {
  }

  /** Dividing by d and then by e is dividing by d * e. */
  lemma DivDiv(a: int, d: int, e: int)
    requires d > 0 && e > 0
    ensures d * e > 0
    ensures a / (d * e) == (a / d) / e
  {
    var q := (a / d) / e;
    var r := (a / d) % e;
    var s := a % d;
    DivTimesMod(a, d);
    DivTimesMod(a / d, e);
    MulLe(r, e - 1, d);
    MulLt(0, e, d);
    assert a == q * (d * e) + (r * d + s) by {
      Distribute(d, q * e, r);
      MulSwap(q, e, d);
      assert e * d == d * e;
    }
    assert r * d + s < d * e by {
      Distribute(d, e, 1);
    }
    assert 0 <= r * d by {
      MulLe(0, r, d);
    }
    DivModIs(a, q, r * d + s, d * e);
  }
}
