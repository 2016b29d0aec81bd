/** Residues of sums, differences and products. */
module Residues {
  import opened Integers

  /** A multiple of the modulus does not change the residue. */
  lemma ModShift(a: int, k: int, n: int)
    requires n > 0
    ensures (a + k * n) % n == a % n
  {
    DivTimesMod(a, n);
    Distribute(n, a / n, k);
    DivModIs(a + k * n, a / n + k, a % n, n);
  }

  lemma ModAdd(a: int, b: int, n: int)
    requires n > 0
    ensures (a % n + b % n) % n == (a + b) % n
  {
    DivTimesMod(a, n);
    DivTimesMod(b, n);
    Distribute(n, a / n, b / n);
    ModShift(a % n + b % n, a / n + b / n, n);
  }

  lemma ModSub(a: int, b: int, n: int)
    requires n > 0
    ensures (a % n - b % n) % n == (a - b) % n
  {
    DivTimesMod(a, n);
    DivTimesMod(b, n);
    Distribute(n, a / n, b / n);
    ModShift(a % n - b % n, a / n - b / n, n);
  }

  lemma ModMulLeft(a: int, b: int, n: int)
    requires n > 0
    ensures ((a % n) * b) % n == (a * b) % n
  {
    DivTimesMod(a, n);
    var k, r := a / n, a % n;
    assert a * b == r * b + (k * b) * n by {
      Distribute(b, k * n, r);
      MulSwap(b, k, n);
      assert (k * n) * b == b * (k * n) && b * k == k * b;
    }
    ModShift(r * b, k * b, n);
  }

  lemma ModMul(a: int, b: int, n: int)
    requires n > 0
    ensures ((a % n) * (b % n)) % n == (a * b) % n
  {
    ModMulLeft(a, b % n, n);
    ModMulLeft(b, a, n);
    assert a * (b % n) == (b % n) * a && b * a == a * b;
  }

  lemma ModOfNegated(d: int, n: int)
    requires n > 0
    ensures (-d) % n == if d % n == 0 then 0 else n - d % n
  {
    DivTimesMod(d, n);
    var k, m := d / n, d % n;
    assert (-k) * n == -(k * n);
    if m == 0 {
      DivModIs(-d, -k, 0, n);
    } else {
      Distribute(n, -k, 1);
      DivModIs(-d, -k - 1, n - m, n);
    }
  }

  ghost function Power(x: int, n: nat): int
  {
    if n == 0 then 1 else x * Power(x, n - 1)
  }

  lemma {:induction false} PowerAdd(x: int, m: nat, n: nat)
    ensures Power(x, m + n) == Power(x, m) * Power(x, n)
    decreases m
  {
    if m > 0 {
      PowerAdd(x, m - 1, n);
      MulSwap(x, Power(x, m - 1), Power(x, n));
    }
  }
}
