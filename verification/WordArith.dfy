/** Elementary operations on single words: sums, differences and products with
    their carries, each computed with wrapping 64-bit expressions. */
module WordArith {
  import opened Integers
  import opened Words
  import opened Bits

  function Wrap(x: int): Word
  {
    x % B
  }

  /** Sum of two words and a carry bit, as (carry out, low word). */
  function AddWW(x: Word, y: Word, c: Word): (r: (Word, Word))
    requires c <= 1
    ensures r.0 * B + r.1 == x + y + c
  {
    var yc := Wrap(y + c);
    var z0 := Wrap(x + yc);
    (if z0 < x || yc < y then 1 else 0, z0)
  }

  /** Product of two words from four half-word products, as (high, low). */
  function MulWW(x: Word, y: Word): (r: (Word, Word))
    ensures r.0 * B + r.1 == x * y
  {
    var x0, x1 := x % H, x / H;
    var y0, y1 := y % H, y / H;
    MulWWCorrect(x, y);
    (MulHigh(Wrap(x0 * y0), Wrap(x1 * y0), Wrap(x0 * y1), Wrap(x1 * y1)), Wrap(x * y))
  }

  /** The high word, from the wrapped partial products. */
  function MulHigh(w0: Word, p10: Word, p01: Word, p11: Word): Word
  {
    var t := Wrap(p10 + w0 / H);
    var w1 := Wrap(t % H + p01);
    Wrap(Wrap(p11 + t / H) + w1 / H)
  }

  /** None of the partial sums wraps. */
  lemma MulHighCorrect(w0: Word, p10: Word, p01: Word, p11: Word)
    requires w0 <= (H - 1) * (H - 1) && p10 <= (H - 1) * (H - 1)
    requires p01 <= (H - 1) * (H - 1) && p11 <= (H - 1) * (H - 1)
    ensures
      var p := p11 * B + (p10 + p01) * H + w0;
      var z1 := MulHigh(w0, p10, p01, p11);
      z1 * B <= p < (z1 + 1) * B
  {
    hide MulHigh, Wrap;
    MulHighIs(w0, p10, p01, p11);
    var t := p10 + w0 / H;
    var w1 := t % H + p01;
    HighHalf(w0);
    HighHalf(t);
    HighHalf(w1);
    HighSum(w0, p10, p01, p11, w0 / H, w0 % H, t / H, t % H, w1 / H, w1 % H);
  }

  lemma MulHighIs(w0: Word, p10: Word, p01: Word, p11: Word)
    requires w0 <= (H - 1) * (H - 1) && p10 <= (H - 1) * (H - 1)
    requires p01 <= (H - 1) * (H - 1) && p11 <= (H - 1) * (H - 1)
    ensures var t := p10 + w0 / H; MulHigh(w0, p10, p01, p11) == p11 + t / H + (t % H + p01) / H
  {
    var t := p10 + w0 / H;
    HighHalf(w0);
    HighHalf(t);
    HighHalf(t % H + p01);
  }

  /** The partial sums by their halves. */
  lemma HighSum(w0: int, p10: int, p01: int, p11: int, wh: int, wl: int, th: int, tl: int, uh: int, ul: int)
    requires w0 == wh * H + wl && p10 + wh == th * H + tl && tl + p01 == uh * H + ul
    requires 0 <= wl < H && 0 <= ul < H
    ensures
      var p, z1 := p11 * B + (p10 + p01) * H + w0, p11 + th + uh;
      z1 * B <= p < (z1 + 1) * B
  {
    assert p11 * B + (p10 + p01) * H + w0 == (p11 + th + uh) * B + ul * H + wl;
  }

  lemma HighHalf(x: int)
    requires 0 <= x <= (H - 1) * H
    ensures 0 <= x / H < H && x == (x / H) * H + x % H
    ensures Wrap(x) == x
  {
  }

  lemma MulWWCorrect(x: Word, y: Word)
    ensures
      var x0, x1 := x % H, x / H;
      var y0, y1 := y % H, y / H;
      MulHigh(Wrap(x0 * y0), Wrap(x1 * y0), Wrap(x0 * y1), Wrap(x1 * y1)) * B + Wrap(x * y) == x * y
  {
    var x0, x1 := x % H, x / H;
    var y0, y1 := y % H, y / H;
    HalfProduct(x0, y0);
    HalfProduct(x1, y0);
    HalfProduct(x0, y1);
    HalfProduct(x1, y1);
    Foil(x1, x0, y1, y0);
    var p00, p10, p01, p11 := x0 * y0, x1 * y0, x0 * y1, x1 * y1;
    MulHighCorrect(p00, p10, p01, p11);
    var z1 := MulHigh(p00, p10, p01, p11);
    DivModIs(x * y, z1, x * y - z1 * B, B);
  }

  lemma HalfProduct(a: nat, b: nat)
    requires a < H && b < H
    ensures 0 <= a * b <= (H - 1) * (H - 1)
    ensures Wrap(a * b) == a * b
  {
    MulLe(a, H - 1, b);
    MulLe(b, H - 1, H - 1);
    MulLe(0, a, b);
  }

  lemma Foil(x1: int, x0: int, y1: int, y0: int)
    ensures (x1 * H + x0) * (y1 * H + y0) == x1 * y1 * B + (x1 * y0 + x0 * y1) * H + x0 * y0
  {
    var y := y1 * H + y0;
    Distribute(y, x1 * H, x0);
    Distribute(x1, y1 * H, y0);
    Distribute(x0, y1 * H, y0);
    assert (x1 * H) * y == H * (x1 * y);
    assert x1 * (y1 * H) == H * (x1 * y1);
    assert x0 * (y1 * H) == H * (x0 * y1);
  }

  lemma WordProduct(x: Word, y: Word)
    ensures 0 <= x * y <= (B - 1) * (B - 1)
  {
    MulLe(x, B - 1, y);
    MulLe(y, B - 1, B - 1);
    MulLe(0, x, y);
  }

  lemma MulAddCarry(x: Word, y: Word, z1: Word, zz0: Word, c: Word)
    requires z1 * B + zz0 == x * y
    ensures
      var z0 := Wrap(zz0 + c);
      (if z0 < zz0 then Wrap(z1 + 1) else z1) * B + z0 == x * y + c
  {
    var p := x * y;
    assert z1 < B - 1 by {
      WordProduct(x, y);
    }
    assert Wrap(zz0 + c) == if zz0 + c < B then zz0 + c else zz0 + c - B;
    assert z1 * B + zz0 == p;
  }

  /** Product of two words plus a word, as (high, low). */
  function MulAddWWW(x: Word, y: Word, c: Word): (r: (Word, Word))
    ensures r.0 * B + r.1 == x * y + c
  {
    var (z1, zz0) := MulWW(x, y);
    var z0 := Wrap(zz0 + c);
    MulAddCarry(x, y, z1, zz0, c);
    (if z0 < zz0 then Wrap(z1 + 1) else z1, z0)
  }

  /** Number of leading zero bits of a word. */
  function Nlz(x: Word): (s: nat)
    ensures x == 0 ==> s == 64
    ensures x > 0 ==> s <= 63 && TOP <= x * Pow2(s) < B
    decreases B - x
  {
    if x == 0 then 64
    else if x >= TOP then 0 else
      var s := Nlz(2 * x);
      assert x * (2 * Pow2(s)) == (2 * x) * Pow2(s);
      NlzStep(x, s);
      s + 1
  }

  lemma NlzStep(x: Word, s: nat)
    requires 0 < x
    requires (2 * x) * Pow2(s) < B
    ensures s + 1 <= 63
  {
    var k := TopExponent();
    if s >= k {
      Pow2Add(k, s - k);
      MulLe(1, Pow2(s - k), Pow2(k));
      MulLe(2, 2 * x, Pow2(s));
    }
  }

  // ----- shifts

  /** `x << s` in a 64-bit word. */
  function ShlWord(x: Word, s: nat): Word
  {
    Wrap(x * Pow2(s))
  }

  /** `x >> s` in a 64-bit word. */
  function ShrWord(x: Word, s: nat): Word
  {
    DivNonNeg(x, Pow2(s));
    x / Pow2(s)
  }

  /** `hi<<s | lo>>(64-s)`; at s = 0 the second part is shifted out. */
  function ShlJoin(hi: Word, lo: Word, s: nat): nat
    requires s <= 64
  {
    Bitwise(Or, ShlWord(hi, s), ShrWord(lo, 64 - s))
  }

  /** A shift left splits x * 2^s into the bits kept and the bits shifted out. */
  lemma ShiftParts(x: Word, s: nat)
    requires s <= 64
    ensures ShrWord(x, 64 - s) < Pow2(s)
    ensures x * Pow2(s) == ShrWord(x, 64 - s) * B + ShlWord(x, s)
  {
    hide Pow2;
    var b := ShrParts(x, 64 - s);
    ShiftedLow(x, ShrWord(x, 64 - s), b, s);
  }

  lemma ShrParts(x: Word, s: nat) returns (b: nat)
    ensures x == ShrWord(x, s) * Pow2(s) + b && b < Pow2(s)
  {
    hide Pow2;
    DivTimesMod(x, Pow2(s));
    b := x % Pow2(s);
  }

  lemma ShiftedLow(u: Word, a: nat, b: nat, s: nat)
    requires s <= 64
    requires u == a * Pow2(64 - s) + b && b < Pow2(64 - s)
    ensures a < Pow2(s) && u * Pow2(s) == a * B + b * Pow2(s)
    ensures ShlWord(u, s) == b * Pow2(s)
  {
    hide Pow2;
    var p, p' := Pow2(s), Pow2(64 - s);
    WordSplit(s);
    assert u * p == a * B + b * p by {
      Distribute(p, a * p', b);
      MulSwap(a, p', p);
    }
    assert 0 <= b * p < B by {
      MulLt(b, p', p);
      MulLe(0, b, p);
    }
    DivModIs(u * p, a, b * p, B);
    assert a * p' < p * p';
    MulCancelLt(a, p, p');
  }

  /** The two shifted parts do not overlap, so joining them adds them. */
  lemma ShlJoinSum(hi: Word, lo: Word, s: nat)
    requires s <= 64
    ensures ShlJoin(hi, lo, s) == ShlWord(hi, s) + ShrWord(lo, 64 - s) < B
  {
    hide ShrWord, ShlWord, Pow2, Bitwise;
    var b := ShrParts(hi, 64 - s);
    ShiftedLow(hi, ShrWord(hi, 64 - s), b, s);
    ShiftParts(lo, s);
    OrDisjoint(b, ShrWord(lo, 64 - s), s);
    WordSplit(s);
    JoinFits(b, ShrWord(lo, 64 - s), Pow2(s), Pow2(64 - s));
  }

  lemma JoinFits(b: nat, a: nat, p: nat, p': nat)
    requires a < p && b < p'
    ensures b * p + a < p * p'
  {
    MulLe(b + 1, p', p);
    Distribute(p, b, 1);
  }

  lemma ShlExact(x: Word, s: nat)
    requires x * Pow2(s) < B
    ensures ShlWord(x, s) == x * Pow2(s)
  {
    hide Pow2;
    MulLe(0, x, Pow2(s));
  }

  // ----- carry formulas of the vector loops

  function BitNot(x: Word): Word
  {
    B - 1 - x
  }

  /** Carry out of x + y + c from the top bits of x, y and the sum z. */
  function AddCarry(x: Word, y: Word, z: Word): nat
  {
    Bitwise(Or, Bitwise(And, x, y), Bitwise(AndNot, Bitwise(Or, x, y), z)) / TOP
  }

  /** Borrow out of x - y - c from the top bits of x, y and the difference z. */
  function SubBorrow(x: Word, y: Word, z: Word): nat
  {
    Bitwise(Or, Bitwise(AndNot, y, x), Bitwise(And, Bitwise(Or, y, BitNot(x)), z)) / TOP
  }

  /** Carry out of x + c from the top bits of x and the sum z. */
  function AddWordCarry(x: Word, z: Word): nat
  {
    Bitwise(AndNot, x, z) / TOP
  }

  /** Borrow out of x - c from the top bits of x and the difference z. */
  function SubWordBorrow(x: Word, z: Word): nat
  {
    Bitwise(AndNot, z, x) / TOP
  }

  /** The top bit of the carry formula is the carry formula of the top bits. */
  lemma AddCarryTop(x: Word, y: Word, z: Word)
    ensures AddCarry(x, y, z) ==
            if (x >= TOP && y >= TOP) || ((x >= TOP || y >= TOP) && z < TOP) then 1 else 0
  {
    TopBit(x);
    TopBit(y);
    TopBit(z);
    BitwiseTop(And, x, y);
    BitwiseTop(Or, x, y);
    BitwiseTop(AndNot, Bitwise(Or, x, y), z);
    BitwiseTop(Or, Bitwise(And, x, y), Bitwise(AndNot, Bitwise(Or, x, y), z));
    BitTables();
  }

  lemma SubBorrowTop(x: Word, y: Word, z: Word)
    ensures SubBorrow(x, y, z) ==
            if (y >= TOP && x < TOP) || ((y >= TOP || x < TOP) && z >= TOP) then 1 else 0
  {
    var nx := BitNot(x);
    TopBit(x);
    TopBit(y);
    TopBit(z);
    TopBit(nx);
    BitwiseTop(AndNot, y, x);
    BitwiseTop(Or, y, nx);
    BitwiseTop(And, Bitwise(Or, y, nx), z);
    BitwiseTop(Or, Bitwise(AndNot, y, x), Bitwise(And, Bitwise(Or, y, nx), z));
    BitTables();
  }

  lemma AndNotTop(x: Word, z: Word)
    ensures Bitwise(AndNot, x, z) / TOP == if x >= TOP && z < TOP then 1 else 0
  {
    TopBit(x);
    TopBit(z);
    BitwiseTop(AndNot, x, z);
    BitTables();
  }

  lemma TopBit(x: Word)
    ensures x / TOP == if x >= TOP then 1 else 0
  {
  }

  lemma BitTables()
    ensures Bitwise(And, 0, 0) == Bitwise(And, 0, 1) == Bitwise(And, 1, 0) == 0 && Bitwise(And, 1, 1) == 1
    ensures Bitwise(Or, 0, 0) == 0 && Bitwise(Or, 0, 1) == Bitwise(Or, 1, 0) == Bitwise(Or, 1, 1) == 1
    ensures Bitwise(AndNot, 0, 0) == Bitwise(AndNot, 0, 1) == Bitwise(AndNot, 1, 1) == 0 && Bitwise(AndNot, 1, 0) == 1
  {
  }

  lemma AddCarryCorrect(x: Word, y: Word, c: Word)
    requires c <= 1
    ensures AddCarry(x, y, Wrap(x + y + c)) * B + Wrap(x + y + c) == x + y + c
  {
    var z := Wrap(x + y + c);
    assert z == if x + y + c < B then x + y + c else x + y + c - B;
    AddCarryTop(x, y, z);
  }

  lemma SubBorrowCorrect(x: Word, y: Word, c: Word)
    requires c <= 1
    ensures Wrap(x - y - c) == x - y - c + SubBorrow(x, y, Wrap(x - y - c)) * B
  {
    var z := Wrap(x - y - c);
    assert z == if x >= y + c then x - y - c else x - y - c + B;
    SubBorrowTop(x, y, z);
  }

  ghost predicate AddWordCarryRight(x: Word, y: Word)
  {
    AddWordCarry(x, Wrap(x + y)) * B + Wrap(x + y) == x + y
  }

  /** The one-word carry formula is right for every x exactly when the addend
      is at most 2^63; the callers only ever pass 0 or 1. */
  lemma AddWordCarryExact(y: Word)
    ensures (forall x: Word :: AddWordCarryRight(x, y)) <==> y <= TOP
  {
    if y <= TOP {
      forall x: Word
        ensures AddWordCarryRight(x, y)
      {
        AddWordCarryCorrect(x, y);
      }
    } else {
      var x: Word := TOP - 1;
      AndNotTop(x, Wrap(x + y));
      assert !AddWordCarryRight(x, y);
    }
  }

  /** The carry that the one-word formula loses, and only for an addend above
      2^63. */
  function CarryGone(x: Word, y: Word): (gone: nat)
    ensures y <= TOP ==> gone == 0
  {
    if x + y >= B && (x < TOP || x + y >= B + TOP) then B else 0
  }

  /** What the formula gives for all words. */
  lemma AddWordCarryCorrect(x: Word, y: Word)
    ensures AddWordCarry(x, Wrap(x + y)) <= 1
    ensures AddWordCarry(x, Wrap(x + y)) * B + Wrap(x + y) == x + y - CarryGone(x, y)
  {
    var z := Wrap(x + y);
    assert z == if x + y < B then x + y else x + y - B;
    AndNotTop(x, z);
  }

  /** The borrow that the one-word formula loses, likewise. */
  function BorrowGone(x: Word, y: Word): (gone: nat)
    ensures y <= TOP ==> gone == 0
  {
    if x < y && (x >= TOP || x - y + B < TOP) then B else 0
  }

  lemma SubWordBorrowCorrect(x: Word, y: Word)
    ensures SubWordBorrow(x, Wrap(x - y)) <= 1
    ensures Wrap(x - y) == x - y + SubWordBorrow(x, Wrap(x - y)) * B + BorrowGone(x, y)
  {
    var z := Wrap(x - y);
    assert z == if x >= y then x - y else x - y + B;
    AndNotTop(z, x);
  }

  ghost predicate SubWordBorrowRight(x: Word, y: Word)
  {
    Wrap(x - y) == x - y + SubWordBorrow(x, Wrap(x - y)) * B
  }

  /** So is the one-word borrow formula. */
  lemma SubWordBorrowExact(y: Word)
    ensures (forall x: Word :: SubWordBorrowRight(x, y)) <==> y <= TOP
  {
    if y <= TOP {
      forall x: Word
        ensures SubWordBorrowRight(x, y)
      {
        SubWordBorrowCorrect(x, y);
      }
    } else {
      var x: Word := TOP;
      AndNotTop(Wrap(x - y), x);
      assert !SubWordBorrowRight(x, y);
    }
  }
}
