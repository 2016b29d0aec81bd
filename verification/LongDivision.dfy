/** Multi-word division: Algorithm D of Knuth, The Art of Computer Programming,
    volume 2, section 4.3.1, on word arrays of any width. */
module LongDivision {
  import opened Integers
  import opened Words
  import opened Bits
  import opened WordArith
  import opened WordDivision
  import opened Vectors

  // ----- step D3: estimating one quotient word

  /** q is the quotient of the top three words of the dividend by the top two
      words of the divisor. */
  ghost predicate TopQuotient(u2: Word, u1: Word, u0: Word, v1: Word, v0: Word, q: Word)
  {
    q * (v1 * B + v0) <= (u2 * B + u1) * B + u0 < (q + 1) * (v1 * B + v0)
  }

  ghost predicate Guess(u2: Word, u1: Word, u0: Word, v1: Word, v0: Word, q: int, rhat: int)
  {
    && u2 * B + u1 == q * v1 + rhat
    && (u2 * B + u1) * B + u0 < (q + 1) * (v1 * B + v0)
  }

  predicate GreaterThan(x1: Word, x2: Word, y1: Word, y2: Word)
  {
    x1 > y1 || (x1 == y1 && x2 > y2)
  }

  method EstimateQuotient(u2: Word, u1: Word, u0: Word, v1: Word, v0: Word) returns (qhat: Word)
    requires u2 <= v1
    ensures u2 == v1 ==> qhat == B - 1
    ensures u2 < v1 ==> TopQuotient(u2, u1, u0, v1, v0, qhat)
  {
    hide MulWW, Guess, TopQuotient, Wrap, GreaterThan;
    if u2 == v1 {
      return B - 1;
    }
    var rhat: Word;
    qhat, rhat := DivWW(u2, u1, v1);
    GuessStart(u2, u1, u0, v1, v0, qhat, rhat);
    var (x1: Word, x2: Word) := MulWW(qhat, v0);
    while GreaterThan(x1, x2, rhat, u0)
      invariant Guess(u2, u1, u0, v1, v0, qhat, rhat)
      invariant x1 * B + x2 == qhat * v0
      decreases qhat
    {
      GreaterIs(x1, x2, rhat, u0);
      GuessStep(u2, u1, u0, v1, v0, qhat, rhat);
      WrapStep(rhat, v1);
      qhat := Wrap(qhat - 1);
      var prev: Word := rhat;
      rhat := Wrap(rhat + v1);
      if rhat < prev {
        GuessDone(u2, u1, u0, v1, v0, qhat, prev + v1);
        return;
      }
      var (y1, y2) := MulWW(qhat, v0);
      x1, x2 := y1, y2;
    }
    GreaterIs(x1, x2, rhat, u0);
    GuessDone(u2, u1, u0, v1, v0, qhat, rhat);
  }

  /** The two-word compare is the compare of the numbers. */
  lemma GreaterIs(x1: Word, x2: Word, y1: Word, y2: Word)
    ensures GreaterThan(x1, x2, y1, y2) <==> x1 * B + x2 > y1 * B + y2
  {
  }

  lemma WrapStep(r: Word, v: Word)
    requires v > 0
    ensures Wrap(r + v) == if r + v < B then r + v else r + v - B
    ensures Wrap(r + v) < r <==> r + v >= B
    ensures forall q: Word {:trigger Wrap(q - 1)} :: q > 0 ==> Wrap(q - 1) == q - 1
  {
  }

  lemma GuessStart(u2: Word, u1: Word, u0: Word, v1: Word, v0: Word, q: Word, r: Word)
    requires u2 * B + u1 == q * v1 + r && r < v1
    ensures Guess(u2, u1, u0, v1, v0, q, r)
  {
    TimesParts(q + 1, v1, v0);
    Distribute(v1, q, 1);
    MulLe(0, q + 1, v0);
  }

  lemma TimesParts(q: int, v1: int, v0: int)
    ensures q * (v1 * B + v0) == (q * v1) * B + q * v0
  {
    Distribute(q, v1 * B, v0);
    assert q * (v1 * B) == (q * v1) * B;
  }

  lemma GuessStep(u2: Word, u1: Word, u0: Word, v1: Word, v0: Word, q: Word, r: Word)
    requires Guess(u2, u1, u0, v1, v0, q, r) && q * v0 > r * B + u0
    ensures q > 0 && v0 > 0
    ensures Guess(u2, u1, u0, v1, v0, q - 1, r + v1)
  {
    TimesParts(q, v1, v0);
    Distribute(v1, q, 1);
  }

  lemma GuessDone(u2: Word, u1: Word, u0: Word, v1: Word, v0: Word, q: Word, r: int)
    requires Guess(u2, u1, u0, v1, v0, q, r)
    requires r >= B || q * v0 <= r * B + u0
    ensures TopQuotient(u2, u1, u0, v1, v0, q)
  {
    TimesParts(q, v1, v0);
    WordProduct(q, v0);
  }

  /** The estimate is the true quotient word or one more: U is the current
      window of n + 1 words, V the divisor, both split below their top words. */
  lemma EstimateError(u2: Word, u1: Word, u0: Word, v1: Word, v0: Word, p: nat, ul: nat, vl: nat, q: Word)
    requires p > 0 && ul < p && vl < p && v1 >= TOP && u2 <= v1
    requires u2 == v1 ==> q == B - 1
    requires u2 < v1 ==> TopQuotient(u2, u1, u0, v1, v0, q)
    requires
      var U, V := ((u2 * B + u1) * B + u0) * p + ul, (v1 * B + v0) * p + vl;
      U < V * B
    ensures
      var U, V := ((u2 * B + u1) * B + u0) * p + ul, (v1 * B + v0) * p + vl;
      (q - 1) * V <= U < (q + 1) * V
  {
    var u3, v2 := (u2 * B + u1) * B + u0, v1 * B + v0;
    if u2 < v1 {
      assert q * v2 <= u3 < (q + 1) * v2;
      assert (q - 1) * (v2 + 1) <= u3 by {
        Distribute(v2 + 1, q, 1);
        Distribute(q, v2, 1);
      }
      ScaledBounds(u3, v2, p, ul, vl, q);
    } else {
      assert (B - 2) * (v2 + 1) <= u3;
      ScaledLower(u3, v2, p, ul, vl, q);
    }
  }

  lemma ScaledLower(u3: nat, v2: nat, p: nat, ul: nat, vl: nat, q: nat)
    requires (q - 1) * (v2 + 1) <= u3 && ul < p && vl < p && q >= 1
    ensures (q - 1) * (v2 * p + vl) <= u3 * p + ul
  {
    var k := q - 1;
    MulLe(v2 * p + vl, v2 * p + p, k);
    Distribute(p, v2, 1);
    MulSwap(k, v2 + 1, p);
    MulLe(k * (v2 + 1), u3, p);
  }

  lemma ScaledBounds(u3: nat, v2: nat, p: nat, ul: nat, vl: nat, q: nat)
    requires (q - 1) * (v2 + 1) <= u3 < (q + 1) * v2 && ul < p && vl < p
    ensures (q - 1) * (v2 * p + vl) <= u3 * p + ul < (q + 1) * (v2 * p + vl)
  {
    if q >= 1 {
      ScaledLower(u3, v2, p, ul, vl, q);
    } else {
      MulLe(0, v2, p);
    }
    MulLe(u3 + 1, (q + 1) * v2, p);
    Distribute(p, u3, 1);
    MulSwap(q + 1, v2, p);
    Distribute(q + 1, v2 * p, vl);
    MulLe(0, q + 1, vl);
  }

  // ----- steps D3 to D6 on one window of the dividend

  lemma TopThree(s: seq<Word>)
    requires |s| >= 3
    ensures
      var n := |s| - 1;
      Val(s) == ((s[n] * B + s[n - 1]) * B + s[n - 2]) * Pow(n - 2) + Val(s[..n - 2])
  {
    hide Val, Pow;
    var n := |s| - 1;
    TopTwo(s);
    ValExtend(s, n - 2);
    PowStep(n - 2);
    var a, p := s[n] * B + s[n - 1], Pow(n - 2);
    Distribute(p, a * B, s[n - 2]);
    assert (a * B) * p == a * (B * p);
  }

  lemma TopTwo(s: seq<Word>)
    requires |s| >= 2
    ensures
      var n := |s| - 1;
      Val(s) == (s[n] * B + s[n - 1]) * Pow(n - 1) + Val(s[..n - 1])
  {
    hide Val, Pow;
    var n := |s| - 1;
    ValExtend(s, n);
    assert s[..n + 1] == s;
    ValExtend(s, n - 1);
    PowStep(n - 1);
    Distribute(Pow(n - 1), s[n] * B, s[n - 1]);
    assert (s[n] * B) * Pow(n - 1) == s[n] * (B * Pow(n - 1));
  }

  /** A smaller vector of the same length has no larger top word. */
  lemma TopWordLe(s: seq<Word>, t: seq<Word>)
    requires |s| == |t| > 0 && Val(s) < Val(t)
    ensures s[|s| - 1] <= t[|s| - 1]
  {
    hide Val, Pow;
    var n := |s| - 1;
    if s[n] > t[n] {
      assert s[n + 1..] == t[n + 1..];
      ValLess(t, s, n);
    }
  }

  lemma WindowSplit(U: seq<Word>)
    requires |U| > 0
    ensures Val(U) == U[0] + B * Val(U[1..])
  {
    assert U == [U[0]] + U[1..];
    ValCons(U[0], U[1..]);
  }

  lemma WindowError(U: seq<Word>, V: seq<Word>, q: Word)
    requires |U| == |V| + 1 && |V| >= 2 && V[|V| - 1] >= TOP
    requires Val(U[1..]) < Val(V)
    requires
      var n := |V|;
      && (U[n] == V[n - 1] ==> q == B - 1)
      && (U[n] < V[n - 1] ==> TopQuotient(U[n], U[n - 1], U[n - 2], V[n - 1], V[n - 2], q))
    ensures (q - 1) * Val(V) <= Val(U) < (q + 1) * Val(V)
  {
    hide Val, Pow, TopQuotient;
    var n := |V|;
    TopWordLe(U[1..], V);
    TopThree(U);
    TopTwo(V);
    ValBound(U[..n - 2]);
    ValBound(V[..n - 2]);
    WindowSplit(U);
    EstimateError(U[n], U[n - 1], U[n - 2], V[n - 1], V[n - 2], Pow(n - 2), Val(U[..n - 2]), Val(V[..n - 2]), q);
  }

  /** Adding the divisor back: the borrow of the subtraction and the carry of
      the addition cancel in the top word. */
  lemma AddBack(U: nat, V: nat, q: nat, W: nat, low: nat, top: Word, c: Word, low': nat, p: nat)
    requires p > 0 && V < p && low' < p
    requires (q - 1) * V <= U && W + V * q == U + B * p && W < B * p
    requires W == low + top * p && low' + c * p == low + V
    ensures q > 0 && Wrap(top + c) == 0
    ensures U == (q - 1) * V + low' && low' < V
  {
    Distribute(V, q, 1);
    Distribute(p, top, c);
    var R := U - (q - 1) * V;
    assert low' + (top + c) * p == R + B * p;
    DivUnique(top + c, low', B, R, p);
  }

  method DivideWindow(u: array<Word>, j: nat, n: nat, v: array<Word>, qhatv: array<Word>) returns (qhat: Word)
    requires 2 <= n <= v.Length && n < qhatv.Length && j + n < u.Length
    requires u != v && u != qhatv && v != qhatv
    requires v[n - 1] >= TOP && Val(u[j + 1..j + n + 1]) < Val(v[..n])
    modifies u, qhatv
    ensures Val(u[j..j + n + 1]) < Val(v[..n])
    ensures old(Val(u[j..j + n + 1])) == qhat * Val(v[..n]) + Val(u[j..j + n + 1])
    ensures OnlySlice(u, j, n + 1)
  {
    hide Val, Pow, TopQuotient, Wrap;
    ghost var U, V := u[j..j + n + 1], v[..n];
    assert U[1..] == u[j + 1..j + n + 1];
    TopWordLe(U[1..], V);
    qhat := EstimateQuotient(u[j + n], u[j + n - 1], u[j + n - 2], v[n - 1], v[n - 2]);
    WindowError(U, V, qhat);
    var top := MulAddVWW(qhatv, v, qhat, 0, n);
    qhatv[n] := top;
    ValExtend(qhatv[..n + 1], n);
    assert qhatv[..n + 1][..n] == qhatv[..n] && qhatv[..n + 1][..n + 1] == qhatv[0..n + 1];
    var c := SubVV(u, j, u, j, qhatv, 0, n + 1);
    ghost var W := u[j..j + n + 1];
    Distribute(Val(V), qhat, 1);
    if c != 0 {
      qhat := Restore(u, j, n, v, qhat, Val(U));
    }
  }

  /** Step D6: the estimate was one too large. */
  method Restore(u: array<Word>, j: nat, n: nat, v: array<Word>, qhat: Word, ghost U: nat) returns (q: Word)
    requires n <= v.Length && j + n < u.Length && u != v
    requires (qhat - 1) * Val(v[..n]) <= U
    requires Val(u[j..j + n + 1]) + Val(v[..n]) * qhat == U + Pow(n + 1)
    modifies u
    ensures Val(u[j..j + n + 1]) < Val(v[..n])
    ensures U == q * Val(v[..n]) + Val(u[j..j + n + 1])
    ensures OnlySlice(u, j, n + 1)
  {
    hide Val, Pow, Wrap;
    ghost var V, W := v[..n], u[j..j + n + 1];
    var top: Word := u[j + n];
    ValExtend(W, n);
    ValBound(W);
    ValBound(V);
    PowStep(n);
    assert W[..n + 1] == W && W[..n] == u[j..j + n];
    var c := AddVV(u, j, u, j, v, 0, n);
    assert v[0..n] == V && u[j + n] == top by {
      assert u[j + n] == u[j + n..][0];
    }
    ghost var low' := u[j..j + n];
    ValBound(low');
    AddBack(U, Val(V), qhat, Val(W), Val(W[..n]), top, c, Val(low'), Pow(n));
    u[j + n] := Wrap(u[j + n] as int + c as int);
    q := qhat - 1;
    assert u[j..j + n + 1] == low' + [0];
    ValSnoc(low', 0);
  }

  // ----- the whole division

  /** len words are in use: the top one is non-zero and all above it are. */
  predicate Trimmed(s: seq<Word>, len: nat)
  {
    && len <= |s|
    && (forall i :: len <= i < |s| ==> s[i] == 0)
    && (len > 0 ==> s[len - 1] != 0)
  }

  /** What the main loop keeps before position j: the quotient words found so
      far and the running remainder u account for the shifted dividend X. */
  ghost predicate Progress(X: nat, u: seq<Word>, q: seq<Word>, j: nat, n: nat, V: nat)
    requires j + n <= |u| && j <= |q|
  {
    && X == (Val(q[j..]) * Pow(j)) * V + Val(u[..j + n])
    && Val(u[j..j + n]) < V
    && (forall k :: j + n <= k < |u| ==> u[k] == 0)
  }

  lemma ProgressStep(X: nat, u: seq<Word>, q: seq<Word>, u': seq<Word>, q': seq<Word>, j: nat, n: nat, V: nat)
    requires 0 < j && j + n <= |u| == |u'| && j <= |q| == |q'| && V <= Pow(n)
    requires Progress(X, u, q, j, n, V)
    requires u'[..j - 1] == u[..j - 1] && u'[j + n..] == u[j + n..]
    requires q'[j..] == q[j..]
    requires Val(u'[j - 1..j + n]) < V
    requires Val(u[j - 1..j + n]) == q'[j - 1] * V + Val(u'[j - 1..j + n])
    ensures Progress(X, u', q', j - 1, n, V)
  {
    hide Val, Pow;
    var i := j - 1;
    var R := Val(u'[i..j + n]);
    TopWordZero(u'[i..j + n], n);
    assert u'[i..j + n][..n] == u'[i..i + n];
    PrefixSplit(u, i, j + n);
    PrefixSplit(u', i, j + n - 1);
    assert q'[i..] == [q'[i]] + q'[j..];
    ValCons(q'[i], q'[j..]);
    PowStep(i);
    QuotientShift(Val(q[j..]), q'[i], Pow(i), V, R);
    forall k | i + n <= k < |u'| ensures u'[k] == 0 {
      if k == i + n {
        assert u'[k] == u'[i..j + n][n];
      } else {
        assert u'[k] == u'[j + n..][k - (j + n)];
      }
    }
  }

  lemma TopWordZero(s: seq<Word>, n: nat)
    requires |s| == n + 1 && Val(s) < Pow(n)
    ensures s[n] == 0 && Val(s) == Val(s[..n])
  {
    hide Val, Pow;
    ValExtend(s, n);
    assert s[..n + 1] == s;
    if s[n] > 0 {
      MulLe(1, s[n], Pow(n));
    }
  }

  lemma PrefixSplit(s: seq<Word>, i: nat, m: nat)
    requires i <= m <= |s|
    ensures Val(s[..m]) == Val(s[..i]) + Pow(i) * Val(s[i..m])
  {
    hide Val, Pow;
    ValSplit(s[..m], i);
    assert s[..m][..i] == s[..i] && s[..m][i..] == s[i..m];
  }

  lemma QuotientShift(hi: nat, d: nat, p: nat, V: nat, R: nat)
    ensures (hi * (B * p)) * V + p * (d * V + R) == ((d + B * hi) * p) * V + p * R
  {
    Distribute(p, d * V, R);
    Distribute(p, d, B * hi);
    Distribute(V, d * p, (B * hi) * p);
    assert hi * (B * p) == (B * hi) * p;
    assert p * (d * V) == (d * p) * V by {
      MulSwap(p, d, V);
    }
  }

  lemma ZeroVector(s: seq<Word>)
    requires Val(s) == 0
    ensures forall i :: 0 <= i < |s| ==> s[i] == 0
  {
    hide Val, Pow;
    var z := seq(|s|, _ => 0);
    ValZeros(z);
    ValInjective(s, z);
  }

  /** A value below B^n leaves the words from n on zero. */
  lemma HighWordsZero(s: seq<Word>, n: nat)
    requires n <= |s| && Val(s) < Pow(n)
    ensures forall i :: n <= i < |s| ==> s[i] == 0
    ensures Val(s) == Val(s[..n])
  {
    hide Val, Pow;
    ValSplit(s, n);
    var h := Val(s[n..]);
    if h > 0 {
      MulLe(1, h, Pow(n));
    }
    ZeroVector(s[n..]);
    forall i | n <= i < |s| ensures s[i] == 0 {
      assert s[i] == s[n..][i - n];
    }
  }

  /** Shifting by the leading zeros of the top word fills it without overflow. */
  lemma NormalisedDivisor(y: seq<Word>, s: nat)
    requires y != [] && s <= 63
    requires TOP <= y[|y| - 1] * Pow2(s) < B
    ensures TOP * Pow(|y| - 1) <= Val(y) * Pow2(s) < Pow(|y|)
  {
    hide Val, Pow, Pow2;
    var n, p := |y| - 1, Pow2(s);
    ValExtend(y, n);
    assert y[..n + 1] == y;
    ValBound(y[..n]);
    PowStep(n);
    WordSplit(s);
    RoomForOne(y[n], p, Pow2(64 - s));
    ScaledTop(y[n], Val(y[..n]), Pow(n), p);
  }

  lemma RoomForOne(t: nat, p: nat, p': nat)
    requires p > 0 && p * p' == B && t * p < B
    ensures (t + 1) * p <= B
  {
    assert p' * p == B;
    MulCancelLt(t, p', p);
    MulLe(t + 1, p', p);
  }

  lemma ScaledTop(t: nat, low: nat, P: nat, p: nat)
    requires low < P && p > 0 && TOP <= t * p && (t + 1) * p <= B
    ensures TOP * P <= (low + t * P) * p < B * P
  {
    Distribute(p, low, t * P);
    MulSwap(p, t, P);
    assert (t * P) * p == (t * p) * P;
    MulLe(TOP, t * p, P);
    MulLe(0, low, p);
    MulLt(low, P, p);
    Distribute(p, t, 1);
    Distribute(P, t * p, p);
    MulLe((t + 1) * p, B, P);
    assert P * p == p * P;
  }

  lemma TopWordAtLeast(s: seq<Word>, t: nat)
    requires s != [] && t * Pow(|s| - 1) <= Val(s)
    ensures s[|s| - 1] >= t
  {
    hide Val, Pow;
    var n := |s| - 1;
    ValExtend(s, n);
    assert s[..n + 1] == s;
    ValBound(s[..n]);
    var top: int := s[n];
    Distribute(Pow(n), top, 1);
    MulCancelLt(t, top + 1, Pow(n));
  }

  /** Step D1 for the divisor: the same words when no shift is needed. */
  method NormaliseDivisor(y: array<Word>, n: nat, shift: nat) returns (v: array<Word>)
    requires 0 < n && Trimmed(y[..], n) && shift <= 63
    requires TOP <= y[n - 1] * Pow2(shift) < B
    ensures (v == y || fresh(v)) && v.Length == y.Length
    ensures Val(v[..n]) == Val(y[..]) * Pow2(shift) && v[n - 1] >= TOP
  {
    hide Val, Pow, Pow2;
    ValTrim(y[..], n);
    assert y[..][..n] == y[..n];
    if shift == 0 {
      assert Pow2(0) == 1 by {
        NoShift();
      }
      return y;
    }
    v := new Word[y.Length](_ => 0);
    var c := ShlVU(v, y, shift, y.Length);
    assert v[..v.Length] == v[..] && y[..y.Length] == y[..];
    NormalisedDivisor(y[..n], shift);
    PowMonotone(n, y.Length);
    if c > 0 {
      MulLe(1, c, Pow(y.Length));
    }
    HighWordsZero(v[..], n);
    assert v[..][..n] == v[..n];
    TopWordAtLeast(v[..n], TOP);
  }

  lemma NoShift()
    ensures Pow2(0) == 1
  {
  }

  /** Step D1 for the dividend: one word longer, for the bits shifted out. */
  method NormaliseDividend(x: array<Word>, xl: nat, shift: nat) returns (u: array<Word>)
    requires Trimmed(x[..], xl) && shift <= 63
    ensures fresh(u) && u.Length == x.Length + 1
    ensures Val(u[..xl + 1]) == Val(x[..]) * Pow2(shift)
    ensures u[xl] < TOP && forall k :: xl < k < u.Length ==> u[k] == 0
  {
    hide Val, Pow, Pow2;
    u := new Word[x.Length + 1](_ => 0);
    var c := ShlVU(u, x, shift, xl);
    assert forall k :: xl <= k < u.Length ==> u[k] == u[xl..][k - xl] == 0;
    ghost var low := u[..xl];
    u[xl] := c;
    assert u[..xl + 1] == low + [c];
    ValSnoc(low, c);
    ValTrim(x[..], xl);
    assert x[..][..xl] == x[..xl];
    ShiftBelowTop(shift);
  }

  lemma ShiftBelowTop(s: nat)
    requires s <= 63
    ensures Pow2(s) <= TOP
  {
    hide Pow2;
    var k := TopExponent();
    Pow2Add(s, k - s);
    MulLe(1, Pow2(k - s), Pow2(s));
  }

  lemma ProgressStart(u: seq<Word>, q: seq<Word>, v: seq<Word>, j: nat, xl: nat)
    requires 2 <= |v| && j + |v| == xl + 1 <= |u| && j <= |q|
    requires v[|v| - 1] >= TOP > u[xl]
    requires forall k :: xl < k < |u| ==> u[k] == 0
    requires forall k :: 0 <= k < |q| ==> q[k] == 0
    ensures Progress(Val(u[..xl + 1]), u, q, j, |v|, Val(v))
  {
    hide Val, Pow;
    ValZeros(q[j..]);
    var w, n := u[j..xl + 1], |v| - 1;
    assert w[n] < v[n] && w[n + 1..] == v[n + 1..];
    ValLess(w, v, n);
  }

  /** The next window is small enough for its quotient to fit one word. */
  lemma WindowReady(X: nat, u: seq<Word>, q: seq<Word>, j: nat, n: nat, V: nat)
    requires j + n <= |u| && j <= |q| && Progress(X, u, q, j, n, V)
    ensures Val(u[j..j + n]) < V
  {
  }

  lemma ProgressEnd(X: nat, u: seq<Word>, q: seq<Word>, n: nat, V: nat)
    requires n <= |u| && Progress(X, u, q, 0, n, V)
    ensures X == Val(q) * V + Val(u[..n]) && Val(u[..n]) < V
    ensures forall k :: n <= k < |u| ==> u[k] == 0
  {
    hide Val;
    assert q[0..] == q && u[0..n] == u[..n];
    assert Pow(0) == 1;
  }

  /** Steps D2 to D7: from the top window down. */
  method QuotientLoop(u: array<Word>, xl: nat, v: array<Word>, n: nat) returns (q: array<Word>, highestQ: nat)
    requires 2 <= n <= xl < u.Length && n <= v.Length && u != v
    requires v[n - 1] >= TOP && u[xl] < TOP
    requires forall k :: xl < k < u.Length ==> u[k] == 0
    modifies u
    ensures fresh(q) && q.Length == u.Length - 1 && Trimmed(q[..], highestQ)
    ensures old(Val(u[..xl + 1])) == Val(q[..]) * Val(v[..n]) + Val(u[..n])
    ensures Val(u[..n]) < Val(v[..n])
    ensures forall k :: n <= k < u.Length ==> u[k] == 0
  {
    hide Val, Pow, Progress;
    q := new Word[u.Length - 1](_ => 0);
    highestQ := 0;
    var qhatv := new Word[u.Length](_ => 0);
    var j := xl - n + 1;
    ghost var X, V := Val(u[..xl + 1]), Val(v[..n]);
    ProgressStart(u[..], q[..], v[..n], j, xl);
    while j > 0
      invariant 0 <= j <= xl - n + 1
      invariant Progress(X, u[..], q[..], j, n, V)
      invariant v[..n] == old(v[..n])
      invariant Trimmed(q[..], highestQ) && (highestQ == 0 || j < highestQ)
      invariant forall k :: 0 <= k < j ==> q[k] == 0
    {
      ghost var U, Q := u[..], q[..];
      WindowReady(X, U, Q, j, n, V);
      assert u[j..j + n] == U[j..j + n];
      label Before:
      var qhat := DivideWindow(u, j - 1, n, v, qhatv);
      q[j - 1] := qhat;
      ValBound(v[..n]);
      assert u[..][j - 1..j + n] == u[j - 1..j + n] && U[j - 1..j + n] == old@Before(u[j - 1..j + n]);
      ProgressStep(X, U, Q, u[..], q[..], j, n, V);
      if j > highestQ && q[j - 1] > 0 {
        highestQ := j;
      }
      j := j - 1;
    }
    ProgressEnd(X, u[..], q[..], n, V);
  }

  /** The length of a vector without its leading zero words. */
  method TrimmedLength(a: array<Word>) returns (len: nat)
    ensures Trimmed(a[..], len)
  {
    len := 0;
    for i := 0 to a.Length
      invariant len <= i && (len > 0 ==> a[len - 1] != 0)
      invariant forall k :: len <= k < i ==> a[k] == 0
    {
      if a[i] != 0 {
        len := i + 1;
      }
    }
  }

  /** Step D8: the remainder shifted back, cut to the dividend's width. */
  method Denormalise(u: array<Word>, xl: nat, n: nat, shift: nat) returns (r: array<Word>, highestR: nat)
    requires n <= xl < u.Length && shift <= 63
    requires forall k :: n <= k < u.Length ==> u[k] == 0
    modifies u
    ensures fresh(r) && r.Length == u.Length - 1 && Trimmed(r[..], highestR)
    ensures Val(r[..]) == old(Val(u[..n])) / Pow2(shift)
  {
    hide Val, Pow, Pow2;
    ghost var R := Val(u[..n]);
    assert Val(u[..xl + 1]) == R by {
      ValTrim(u[..xl + 1], n);
      assert u[..xl + 1][..n] == u[..n];
    }
    ValBound(u[..n]);
    DivNonNeg(R, Pow2(shift));
    ShrVU(u, u, shift, xl + 1);
    assert forall k :: xl + 1 <= k < u.Length ==> u[k] == u[xl + 1..][k - (xl + 1)] == 0;
    r := new Word[u.Length - 1](i requires 0 <= i < u.Length - 1 reads u => u[i]);
    highestR := TrimmedLength(r);
    assert u[..][..xl + 1] == u[..xl + 1];
    ValTrim(u[..], xl + 1);
    HighWordsZero(u[..], n);
    assert u[..][..n] == r[..][..n];
    ValTrim(r[..], n);
  }

  /** Quotient and remainder of x, of which xl words are in use, by the n words
      of y; both results have the width of x. */
  method Divide(x: array<Word>, xl: nat, y: array<Word>, n: nat)
    returns (q: array<Word>, highestQ: nat, r: array<Word>, highestR: nat)
    requires Trimmed(x[..], xl) && Trimmed(y[..], n) && 2 <= n <= xl
    ensures fresh(q) && fresh(r) && q != r && q.Length == r.Length == x.Length
    ensures Val(x[..]) == Val(q[..]) * Val(y[..]) + Val(r[..])
    ensures Val(r[..]) < Val(y[..])
    ensures Trimmed(q[..], highestQ) && Trimmed(r[..], highestR)
  {
    hide Val, Pow, Pow2, Nlz, Trimmed;
    assert y[n - 1] != 0 && n <= y.Length && xl <= x.Length by {
      TrimmedTop(x[..], xl);
      TrimmedTop(y[..], n);
    }
    var shift := Nlz(y[n - 1]);
    var v := NormaliseDivisor(y, n, shift);
    var u := NormaliseDividend(x, xl, shift);
    ghost var Y, X := Val(y[..]), Val(x[..]);
    q, highestQ := QuotientLoop(u, xl, v, n);
    ghost var Q := q[..];
    ExactShift(X, Val(Q), Y, Pow2(shift), Val(u[..n]));
    r, highestR := Denormalise(u, xl, n, shift);
    assert q[..] == Q;
  }

  lemma TrimmedTop(s: seq<Word>, len: nat)
    requires Trimmed(s, len)
    ensures len <= |s| && (len > 0 ==> s[len - 1] != 0)
  {
  }
}
