/** Division of two words by one word, from half-word quotient digits. */
module WordDivision {
  import opened Integers
  import opened Words
  import opened Bits
  import opened WordArith

  /** q is the quotient digit of u * 2^32 + lo by v. */
  ghost predicate IsDigit(u: Word, lo: Word, v: Word, q: Word)
  {
    q < H && q * v <= u * H + lo < (q + 1) * v
  }

  /** q and rhat divide u by the top half of v, and q is not too small. */
  ghost predicate Estimate(u: Word, lo: Word, v: Word, q: Word, rhat: Word)
  {
    && q <= H + 1
    && u == q * (v / H) + rhat
    && u * H + lo < (q + 1) * v
  }

  function Quo(u: Word, d: Word): Word
    requires d > 0
  {
    DivNonNeg(u, d);
    u / d
  }

  function Rem(u: Word, q: Word, d: Word): Word
  {
    Wrap(u - Wrap(q * d))
  }

  /** The correction test, on wrapped products. */
  predicate TooBig(lo: Word, v: Word, q: Word, rhat: Word)
  {
    q >= H || Wrap(q * (v % H)) > Wrap(Wrap(H * rhat) + lo)
  }

  /** One half-word quotient digit of u * 2^32 + lo by the normalised v: an
      estimate from the top half of v, corrected downwards. */
  method QuotientDigit(u: Word, lo: Word, v: Word) returns (q: Word)
    requires TOP <= v && u < v && lo < H
    ensures IsDigit(u, lo, v, q)
  {
    hide TooBig, Estimate, IsDigit, Quo, Rem;
    EstimateStart(u, lo, v);
    var vn1 := v / H;
    q := Quo(u, vn1);
    var rhat: Word := Rem(u, q, vn1);
    while TooBig(lo, v, q, rhat)
      invariant rhat < H
      invariant Estimate(u, lo, v, q, rhat)
      decreases q
    {
      EstimateStep(u, lo, v, q, rhat);
      q := Wrap(q - 1);
      rhat := Wrap(rhat + vn1);
      if rhat >= H {
        EstimateDone(u, lo, v, q, rhat);
        return;
      }
    }
    EstimateDone(u, lo, v, q, rhat);
  }

  lemma EstimateStart(u: Word, lo: Word, v: Word)
    requires TOP <= v && u < v && lo < H
    ensures
      var q := Quo(u, v / H);
      var rhat := Rem(u, q, v / H);
      rhat < H && Estimate(u, lo, v, q, rhat)
  {
    var vn1, vn0 := v / H, v % H;
    var q := Quo(u, vn1);
    FirstEstimate(u, v, vn1, vn0, q, u % vn1);
    RemIs(u, q, vn1, u % vn1);
    hide Quo, Rem;
    var p := (q + 1) * vn1;
    assert (q + 1) * v == p * H + (q + 1) * vn0 by {
      TimesHalves(q + 1, vn1, vn0);
    }
  }

  lemma RemIs(u: Word, q: Word, d: Word, r: int)
    requires u == q * d + r && 0 <= r < d
    ensures Rem(u, q, d) == r
  {
    MulLe(0, q, d);
    assert Wrap(q * d) == q * d;
  }

  lemma FirstEstimate(u: Word, v: Word, vn1: nat, vn0: nat, q: int, r: int)
    requires TOP <= v == vn1 * H + vn0 && vn0 < H && u < v
    requires vn1 > 0 && q == u / vn1 && r == u % vn1
    ensures 0 <= q <= H + 1 && u == q * vn1 + r && 0 <= r < vn1
    ensures u + 1 <= (q + 1) * vn1 && (q + 1) * vn0 >= 0
  {
    DivTimesMod(u, vn1);
    Distribute(vn1, q, 1);
    if q < 0 {
      MulLe(q, -1, vn1);
    }
    if q > H + 1 {
      MulLe(H + 2, q, vn1);
    }
    MulLe(0, q + 1, vn0);
  }

  lemma TimesHalves(q: int, v1: int, v0: int)
    ensures q * (v1 * H + v0) == (q * v1) * H + q * v0
  {
    Distribute(q, v1 * H, v0);
    assert q * (v1 * H) == (q * v1) * H;
  }

  /** Below the word base, the test compares the true products. */
  lemma TooBigIs(lo: Word, v: Word, q: Word, rhat: Word)
    requires lo < H && rhat < H && q < H
    ensures TooBig(lo, v, q, rhat) <==> q * (v % H) > H * rhat + lo
  {
    HalfProduct(q, v % H);
    assert H * rhat + lo < B;
  }

  lemma EstimateStep(u: Word, lo: Word, v: Word, q: Word, rhat: Word)
    requires TOP <= v && u < v && lo < H && rhat < H
    requires Estimate(u, lo, v, q, rhat) && TooBig(lo, v, q, rhat)
    ensures 0 < q <= H + 1
    ensures Estimate(u, lo, v, q - 1, rhat + v / H)
  {
    var vn1, vn0 := v / H, v % H;
    assert u * H + lo < q * v by {
      if q >= H {
        MulLe(H, q, v);
      } else {
        TimesHalves(q, vn1, vn0);
        TooBigIs(lo, v, q, rhat);
      }
    }
    Distribute(vn1, q, 1);
  }

  lemma EstimateDone(u: Word, lo: Word, v: Word, q: Word, rhat: Word)
    requires TOP <= v && u < v && lo < H && rhat < 2 * H
    requires Estimate(u, lo, v, q, rhat)
    requires (rhat >= H && q <= H) || (rhat < H && !TooBig(lo, v, q, rhat))
    ensures IsDigit(u, lo, v, q)
  {
    var vn1, vn0 := v / H, v % H;
    assert q * vn0 <= H * rhat + lo by {
      if rhat >= H {
        MulLe(q, H, vn0);
      } else {
        TooBigIs(lo, v, q, rhat);
      }
    }
    TimesHalves(q, vn1, vn0);
    MulCancelLt(q, H, v);
  }

  /** The quotient and remainder of u1 * 2^64 + u0 by v; both all-ones when
      the quotient does not fit a word. */
  method DivWW(u1: Word, u0: Word, v: Word) returns (q: Word, r: Word)
    ensures u1 < v ==> u1 * B + u0 == q * v + r && r < v
    ensures u1 >= v ==> q == B - 1 && r == B - 1
  {
    if u1 >= v {
      return B - 1, B - 1;
    }
    q, r := DivNormalised(u1, u0, v);
  }

  method DivNormalised(u1: Word, u0: Word, v: Word) returns (q: Word, r: Word)
    requires u1 < v
    ensures u1 * B + u0 == q * v + r && r < v
  {
    hide IsDigit, Wrap, Bitwise, Pow2;
    var s := Nlz(v);
    NormalisedDividend(u1, u0, v, s);
    var vs: Word := ShlWord(v, s);
    var un32: Word := ShlJoin(u1, u0, s);
    var un10: Word := ShlWord(u0, s);
    var un1, un0 := un10 / H, un10 % H;
    var q1 := QuotientDigit(un32, un1, vs);
    DigitRemainder(un32, un1, vs, q1);
    var un21 := SubDigit(un32, un1, q1, vs);
    var q0 := QuotientDigit(un21, un0, vs);
    DigitRemainder(un21, un0, vs, q0);
    var rs := SubDigit(un21, un0, q0, vs);
    Recombine(u1, u0, v, Pow2(s), q1, q0, un32, un1, un21, un0, rs);
    q, r := q1 * H + q0, ShrWord(rs, s);
  }

  /** `u*2^32 + lo - q*v` in wrapping words. */
  function SubDigit(u: Word, lo: Word, q: Word, v: Word): Word
  {
    Wrap(Wrap(u * H) + lo - Wrap(q * v))
  }

  lemma NormalisedDividend(u1: Word, u0: Word, v: Word, s: nat)
    requires u1 < v && s <= 63 && TOP <= v * Pow2(s) < B
    ensures ShlWord(v, s) == v * Pow2(s)
    ensures ShlJoin(u1, u0, s) < v * Pow2(s)
    ensures ShlJoin(u1, u0, s) * B + ShlWord(u0, s) == (u1 * B + u0) * Pow2(s)
  {
    hide *;
    MulLt(u1, v, Pow2(s));
    ShlExact(v, s);
    ShlExact(u1, s);
    ShlJoinSum(u1, u0, s);
    ShiftParts(u0, s);
    ShiftedSum(u1, u0, v, Pow2(s), ShrWord(u0, 64 - s), ShlWord(u0, s));
  }

  lemma ShiftedSum(hi: Word, lo: Word, v: Word, p: nat, a: nat, w: nat)
    requires a < p && hi < v
    requires lo * p == a * B + w
    ensures hi * p + a < v * p
    ensures (hi * p + a) * B + w == (hi * B + lo) * p
  {
    MulLe(hi + 1, v, p);
    Distribute(p, hi, 1);
    Distribute(p, hi * B, lo);
    assert (hi * B) * p == (hi * p) * B;
  }

  lemma DigitRemainder(u: Word, lo: Word, v: Word, q: Word)
    requires lo < H && IsDigit(u, lo, v, q)
    ensures q < H && SubDigit(u, lo, q, v) == u * H + lo - q * v
    ensures 0 <= u * H + lo - q * v < v
  {
    Distribute(v, q, 1);
    WrapDifference(u * H, lo, q * v);
  }

  lemma WrapDifference(a: int, b: int, c: int)
    requires 0 <= a + b - c < B
    ensures Wrap(Wrap(a) + b - Wrap(c)) == a + b - c
  {
    DivTimesMod(a, B);
    DivTimesMod(c, B);
    DivModIs(Wrap(a) + b - Wrap(c), c / B - a / B, a + b - c, B);
  }

  lemma Recombine(u1: Word, u0: Word, v: Word, p: nat, q1: Word, q0: Word,
                  un32: Word, un1: Word, un21: Word, un0: Word, rs: Word)
    requires q1 < H && q0 < H && p > 0
    requires un32 * B + (un1 * H + un0) == (u1 * B + u0) * p
    requires un21 == un32 * H + un1 - q1 * (v * p)
    requires rs == un21 * H + un0 - q0 * (v * p) < v * p
    ensures
      var q := q1 * H + q0;
      0 <= q < B && u1 * B + u0 == q * v + rs / p && 0 <= rs / p < v
  {
    var q, u := q1 * H + q0, u1 * B + u0;
    var vs := v * p;
    assert u * p == q * vs + rs by {
      assert q * vs == (q1 * vs) * H + q0 * vs by {
        TimesHalves(vs, q1, q0);
      }
    }
    ExactShift(u, q, v, p, rs);
  }

  /** A remainder of shifted operands shifts back exactly. */
  lemma ExactShift(u: int, q: int, v: int, p: int, rs: int)
    requires p > 0 && u * p == q * (v * p) + rs
    requires 0 <= rs < v * p
    ensures 0 <= rs / p < v && u == q * v + rs / p
  {
    MulSwap(q, v, p);
    Distribute(p, u, q * v);
    var r := u - q * v;
    if r >= v {
      MulLe(v, r, p);
    }
    if r < 0 {
      MulLe(r, -1, p);
    }
    DivModIs(rs, r, 0, p);
  }
}
