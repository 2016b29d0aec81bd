/** Bitwise operators on unsigned words, defined bit by bit on naturals. */
module Bits {
  import opened Integers

  datatype BitOp = And | Or | AndNot

  function Pow2(n: nat): (p: nat)
    ensures p > 0
  {
    if n == 0 then 1 else 2 * Pow2(n - 1)
  }

  function Bit(op: BitOp, a: nat, b: nat): (r: nat)
    ensures r <= 1
  {
    match op
    case And => if a == 1 && b == 1 then 1 else 0
    case Or => if a == 1 || b == 1 then 1 else 0
    case AndNot => if a == 1 && b != 1 then 1 else 0
  }

  function Bitwise(op: BitOp, x: nat, y: nat): nat
    decreases x + y
  {
    if x == 0 && y == 0 then 0
    else Bit(op, x % 2, y % 2) + 2 * Bitwise(op, x / 2, y / 2)
  }

  /** `x >> k`, one place at a time. */
  function Shr(x: nat, k: nat): nat
    decreases k
  {
    if k == 0 then x else Shr(x / 2, k - 1)
  }

  /** A right shift divides by the power of two. */
  lemma {:induction false} ShrIsDiv(x: nat, k: nat)
    ensures Shr(x, k) == x / Pow2(k)
    decreases k
  {
    if k > 0 {
      ShrIsDiv(x / 2, k - 1);
      DivDiv(x, 2, Pow2(k - 1));
    }
  }

  lemma BitwiseHalf(op: BitOp, x: nat, y: nat)
    ensures Bitwise(op, x, y) / 2 == Bitwise(op, x / 2, y / 2)
  {
  }

  /** Shifting right commutes with every bitwise operator. */
  lemma {:induction false} BitwiseShift(op: BitOp, x: nat, y: nat, k: nat)
    ensures Shr(Bitwise(op, x, y), k) == Bitwise(op, Shr(x, k), Shr(y, k))
    decreases k
  {
    if k > 0 {
      BitwiseHalf(op, x, y);
      BitwiseShift(op, x / 2, y / 2, k - 1);
    }
  }

  lemma {:induction false} OrZero(a: nat)
    ensures Bitwise(Or, a, 0) == a
  {
    if a > 0 {
      OrZero(a / 2);
    }
  }

  /** Joining bits that do not overlap is addition. */
  lemma {:induction false} OrDisjoint(a: nat, b: nat, s: nat)
    requires b < Pow2(s)
    ensures Bitwise(Or, a * Pow2(s), b) == a * Pow2(s) + b
    decreases s
  {
    if s == 0 {
      OrZero(a);
    } else {
      var x := a * Pow2(s);
      assert x == 2 * (a * Pow2(s - 1)) by {
        assert a * (2 * Pow2(s - 1)) == 2 * (a * Pow2(s - 1));
      }
      OrDisjoint(a, b / 2, s - 1);
    }
  }

  lemma {:induction false} Pow2Add(m: nat, n: nat)
    ensures Pow2(m + n) == Pow2(m) * Pow2(n)
    decreases n
  {
    if n > 0 {
      Pow2Add(m, n - 1);
      MulSwap(2, Pow2(m), Pow2(n - 1));
    }
  }

  /** The exponent of half the word base, and the two factors a shift by s
      splits the word base into. */
  lemma TopExponent() returns (k: nat)
    ensures k == 63 && Pow2(k) == 0x8000_0000_0000_0000
  {
    var n := Doubled(1, 2);
    n := Doubled(n, 4);
    n := Doubled(n, 16);
    n := Doubled(n, 256);
    n := Doubled(n, 0x1_0000);
    n := Doubled(n, 0x1_0000_0000);
    k := n - 1;
  }

  lemma Doubled(n: nat, p: nat) returns (m: nat)
    requires Pow2(n) == p
    ensures m == 2 * n && Pow2(m) == p * p
  {
    m := n + n;
    Pow2Add(n, n);
  }

  lemma WordSplit(s: nat)
    requires s <= 64
    ensures Pow2(s) * Pow2(64 - s) == 0x1_0000_0000_0000_0000
  {
    var k := TopExponent();
    Pow2Add(s, k + 1 - s);
    assert Pow2(k + 1) == 2 * Pow2(k);
  }

  /** A right shift by 63 commutes with every bitwise operator. */
  lemma BitwiseTop(op: BitOp, x: nat, y: nat)
    ensures
      var top := 0x8000_0000_0000_0000;
      Bitwise(op, x, y) / top == Bitwise(op, x / top, y / top)
  {
    var k := TopExponent();
    BitwiseShift(op, x, y, k);
    ShrIsDiv(x, k);
    ShrIsDiv(y, k);
    ShrIsDiv(Bitwise(op, x, y), k);
  }
}
