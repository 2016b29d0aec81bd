/** Shamir secret sharing over the prime field. */
module Shamir {
  import opened Integers
  import opened Residues
  import opened Words
  import opened StackInt
  import opened ModularArith
  import opened ModularInverse
  import opened PrimeField
  import opened Lagrange
  import opened Primality

  datatype Share = Share(index: Word, value: Word)

  datatype SplitError = ErrNK | ErrFiniteField

  datatype Result<T> = Ok(value: T) | Err(error: SplitError)

  // ----- word-sized modular operations

  method AddMod(x: Word, y: Word, mod: Word) returns (r: Word)
    requires mod > 0
    ensures r == (x + y) % mod
  {
    var sx := new Int1024.FromUint(x);
    var sy := new Int1024.FromUint(y);
    var sm := new Int1024.FromUint(mod);
    var sr := AddModulo(sx, sy, sm);
    r := Fit(sr, mod, x + y);
  }

  method SubMod(x: Word, y: Word, mod: Word) returns (r: Word)
    requires mod > 0
    ensures r == (x - y) % mod
  {
    var sx := new Int1024.FromUint(x);
    var sy := new Int1024.FromUint(y);
    var sm := new Int1024.FromUint(mod);
    var sr := SubModulo(sx, sy, sm);
    r := Fit(sr, mod, x - y);
  }

  method MulMod(x: Word, y: Word, mod: Word) returns (r: Word)
    requires mod > 0
    ensures r == (x * y) % mod
  {
    var sx := new Int1024.FromUint(x);
    var sy := new Int1024.FromUint(y);
    var sm := new Int1024.FromUint(mod);
    var sr := MulModulo(sx, sy, sm);
    r := Fit(sr, mod, x * y);
  }

  /** A residue of a word fits a word: the conversion never fails. */
  method Fit(sr: Int1024, mod: Word, ghost v: int) returns (r: Word)
    requires sr.Valid() && mod > 0 && sr.Value() == v % mod
    ensures r == v % mod
  {
    DivTimesMod(v, mod);
    var ok;
    ok, r := sr.ToUint();
  }

  /** ok is false where the source panics: x has no inverse. */
  method InvMod(x: Word, mod: Word) returns (ok: bool, r: Word)
    requires mod >= 2
    ensures ok <==> Coprime(x, mod)
    ensures ok ==> 1 <= r < mod && (x * r) % mod == 1
  {
    hide Coprime;
    var sx := new Int1024.FromUint(x);
    var sm := new Int1024.FromUint(mod);
    var sr;
    ok, sr := ModInverse(sx, sm);
    r := 0;
    if ok {
      var fits;
      fits, r := sr.ToUint();
    }
  }

  // ----- subtracting shares

  /** The share of a difference, at the receiver's index. */
  method SubShare(share: Share, arg: Share) returns (r: Share)
    ensures r.index == share.index && r.value == (share.value - arg.value) % PRIME
  {
    var neg := SubMod(PRIME, arg.value, PRIME);
    var v := AddMod(share.value, neg, PRIME);
    assert v == (share.value - arg.value) % PRIME by {
      NegatedTerm(share.value, arg.value);
    }
    r := Share(share.index, v);
  }

  lemma NegatedTerm(a: int, b: int)
    ensures (a + (PRIME - b) % PRIME) % PRIME == (a - b) % PRIME
  {
    DivTimesMod(PRIME - b, PRIME);
    var k := (PRIME - b) / PRIME;
    ModShift(a - b, 1 - k, PRIME);
    Distribute(PRIME, 1, k);
  }

  // ----- splitting

  /** The polynomial a split evaluates. The loop over the tail of the
      coefficients reads them from the start, so the secret is both the
      constant and the linear coefficient. */
  ghost function SplitPoly(coefficients: seq<int>): seq<int>
    requires coefficients != []
  {
    [coefficients[0]] + coefficients[..|coefficients| - 1]
  }

  lemma {:induction false} EvalSnoc(f: seq<int>, c: int, x: int)
    ensures Eval(f + [c], x) == Eval(f, x) + c * Power(x, |f|)
  {
    if f == [] {
      assert f + [c] == [c];
      EvalStep([c], x);
      EvalEmpty([c][1..], x);
    } else {
      EvalSnoc(f[1..], c, x);
      assert (f + [c])[1..] == f[1..] + [c];
      EvalStep(f, x);
      EvalStep(f + [c], x);
      hide Eval;
      Distribute(x, Eval(f[1..], x), c * Power(x, |f| - 1));
      MulSwap(x, c, Power(x, |f| - 1));
    }
  }

  /** One share: the polynomial at x, with the running power of x. */
  method EvaluateShare(coefficients: seq<Word>, x: Word) returns (accum: Word)
    requires coefficients != [] && forall c :: c in coefficients ==> c < PRIME
    ensures accum == Eval(SplitPoly(coefficients), x) % PRIME
  {
    hide Eval, Power;
    accum := coefficients[0];
    assert accum in coefficients;
    var exp: Word := x % PRIME;
    ghost var f := SplitPoly(coefficients);
    EvalStart(f, x);
    for j := 0 to |coefficients| - 1
      invariant accum < PRIME && Cong(accum, Eval(f[..j + 1], x))
      invariant exp < PRIME && Cong(exp, Power(x, j + 1))
    {
      var co := MulMod(coefficients[j], exp, PRIME);
      ghost var before := accum;
      accum := AddMod(accum, co, PRIME);
      assert f[..j + 2] == f[..j + 1] + [coefficients[j]];
      EvalSnoc(f[..j + 1], coefficients[j], x);
      AccumStep(before, Eval(f[..j + 1], x), coefficients[j], exp, Power(x, j + 1), co);
      ghost var oldExp := exp;
      exp := MulMod(exp, x, PRIME);
      PowerStep(oldExp, exp, x, j + 1);
    }
    assert f[..|coefficients|] == f;
    SmallMod(accum, PRIME);
  }

  lemma EvalStart(f: seq<int>, x: int)
    requires f != []
    ensures Eval(f[..1], x) == f[0] && Power(x, 1) == x && Cong(x % PRIME, x)
  {
    EvalStep(f[..1], x);
    EvalEmpty(f[..1][1..], x);
    assert Power(x, 1) == x * Power(x, 0);
  }

  lemma AccumStep(accum: int, e: int, c: int, exp: int, p: int, co: int)
    requires Cong(accum, e) && Cong(exp, p) && co == (c * exp) % PRIME
    ensures Cong((accum + co) % PRIME, e + c * p)
  {
    hide Cong;
    CongResidue(c * exp);
    CongSame(c);
    CongMul(c, c, exp, p);
    CongTrans(co, c * exp, c * p);
    CongAdd(accum, e, co, c * p);
    CongResidue(accum + co);
    CongTrans((accum + co) % PRIME, accum + co, e + c * p);
  }

  lemma PowerStep(exp: int, exp': int, x: int, n: nat)
    requires Cong(exp, Power(x, n)) && exp' == (exp * x) % PRIME
    ensures Cong(exp', Power(x, n + 1))
  {
    hide Cong;
    CongSame(x);
    CongMul(exp, Power(x, n), x, x);
    CongResidue(exp * x);
    CongTrans(exp', exp * x, Power(x, n) * x);
    assert Power(x, n) * x == x * Power(x, n);
  }

  lemma CongTrans(a: int, b: int, c: int)
    requires Cong(a, b) && Cong(b, c)
    ensures Cong(a, c)
  {
  }

  /** Shares of the secret at 1 to n, of which k reconstruct it. The random
      coefficients are the argument drawn. */
  method Split(n: int, k: int, secret: Word, drawn: seq<Word>) returns (r: Result<seq<Share>>)
    requires 1 <= k && n < TOP
    requires |drawn| == k - 1 && forall c :: c in drawn ==> c < PRIME
    ensures r.Err? <==> n < k || PRIME <= secret
    ensures r.Err? ==> r.error == if n < k then ErrNK else ErrFiniteField
    ensures r.Ok? ==> IsSplitting(r.value, n, SplitPoly([secret] + drawn))
  {
    if n < k {
      return Err(ErrNK);
    }
    if PRIME <= secret {
      return Err(ErrFiniteField);
    }
    var coefficients := [secret] + drawn;
    var shares: seq<Share> := [];
    for x := 1 to n + 1
      invariant |shares| == x - 1
      invariant forall i :: 0 <= i < x - 1 ==> IsShare(shares[i], i + 1, SplitPoly(coefficients))
    {
      var accum := EvaluateShare(coefficients, x);
      shares := shares + [Share(x, accum)];
    }
    return Ok(shares);
  }

  /** The share of the polynomial f at x. */
  ghost predicate IsShare(s: Share, x: int, f: seq<int>)
  {
    s.index == x && s.value == Eval(f, x) % PRIME
  }

  ghost predicate IsSplitting(shares: seq<Share>, n: int, f: seq<int>)
  {
    |shares| == n && forall i :: 0 <= i < n ==> IsShare(shares[i], i + 1, f)
  }

  // ----- joining

  ghost function Indices(shares: seq<Share>): (xs: seq<int>)
    ensures |xs| == |shares| && forall i :: 0 <= i < |xs| ==> xs[i] == shares[i].index
  {
    seq(|shares|, i requires 0 <= i < |shares| => shares[i].index as int)
  }

  /** The first n terms of the interpolation at zero. */
  ghost function ShareSum(shares: seq<Share>, n: nat): int
    requires n <= |shares|
  {
    if n == 0 then 0 else ShareSum(shares, n - 1) + shares[n - 1].value * Basis(Indices(shares), n - 1)
  }

  /** The points of xs below j other than the one at i. */
  ghost function OthersTo(xs: seq<int>, i: nat, j: nat): seq<int>
    requires i < |xs| && j <= |xs|
  {
    if i < j then xs[..i] + xs[i + 1..j] else xs[..j]
  }

  lemma OthersGrow(xs: seq<int>, i: nat, j: nat)
    requires i < |xs| && j < |xs|
    ensures OthersTo(xs, i, j + 1) == if i == j then OthersTo(xs, i, j) else OthersTo(xs, i, j) + [xs[j]]
  {
  }

  lemma DiffsGrow(c: int, s: seq<int>, x: int)
    ensures Diffs(c, s + [x]) == Diffs(c, s) * (c - x)
  {
    hide Diffs;
    DiffsConcat(c, s, [x]);
    DiffsSingle(c, x);
  }

  /** Numerator and denominator of the i-th basis value, reduced as they grow. */
  method BasisParts(shares: seq<Share>, i: nat) returns (num: Word, den: Word)
    requires i < |shares|
    ensures Cong(num, Diffs(0, Others(Indices(shares), i)))
    ensures den == Diffs(shares[i].index, Others(Indices(shares), i)) % PRIME
  {
    hide Cong, Diffs;
    ghost var xs := Indices(shares);
    num, den := 1, 1;
    DiffsNone(0);
    DiffsNone(xs[i]);
    for j := 0 to |shares|
      invariant Cong(num, Diffs(0, OthersTo(xs, i, j)))
      invariant den < PRIME && Cong(den, Diffs(xs[i], OthersTo(xs, i, j)))
    {
      OthersGrow(xs, i, j);
      if i == j {
        continue;
      }
      var start, next := shares[i].index, shares[j].index;
      var nextGen := MulMod(num, next, PRIME);
      NumStep(num, Diffs(0, OthersTo(xs, i, j)), next, nextGen);
      num := PRIME - nextGen;
      var nextDiff := SubMod(start, next, PRIME);
      ghost var before := den;
      den := MulMod(den, nextDiff, PRIME);
      DenStep(before, Diffs(xs[i], OthersTo(xs, i, j)), xs[i] - xs[j], nextDiff, den);
      DiffsGrow(0, OthersTo(xs, i, j), next);
      DiffsGrow(start, OthersTo(xs, i, j), next);
    }
    assert OthersTo(xs, i, |xs|) == Others(xs, i);
    ResidueOf(den, Diffs(xs[i], Others(xs, i)));
  }

  lemma DiffsNone(c: int)
    ensures Cong(1, Diffs(c, []))
  {
  }

  lemma ResidueOf(r: int, a: int)
    requires 0 <= r < PRIME && Cong(r, a)
    ensures r == a % PRIME
  {
  }

  lemma NumStep(num: int, d: int, next: int, nextGen: int)
    requires Cong(num, d) && nextGen == (num * next) % PRIME
    ensures Cong(PRIME - nextGen, d * (0 - next))
  {
    hide Cong;
    CongSame(next);
    CongMul(num, d, next, next);
    CongResidue(num * next);
    CongTrans(nextGen, num * next, d * next);
    PrimeIsZero();
    CongSub(PRIME, 0, nextGen, d * next);
    assert d * (0 - next) == -(d * next);
  }

  lemma PrimeIsZero()
    ensures Cong(PRIME, 0)
  {
  }

  lemma DenStep(den: int, d: int, e: int, diff: int, den': int)
    requires Cong(den, d) && diff == e % PRIME && den' == (den * diff) % PRIME
    ensures Cong(den', d * e)
  {
    hide Cong;
    CongResidue(e);
    CongMul(den, d, diff, e);
    CongResidue(den * diff);
    CongTrans(den', den * diff, d * e);
  }

  /** One term: value * num / den. */
  lemma TermValue(v: int, num: int, n: int, den: int, d: int, inv: int, value: int, value': int)
    requires Cong(num, n) && den == d % PRIME && IsInverse(den, inv)
    requires value == (v * num) % PRIME && value' == (value * inv) % PRIME
    ensures Cong(value', v * (n * Inverse(d)))
  {
    hide Cong;
    CongResidue(d);
    InverseShared(den, d, inv);
    CongSame(v);
    CongMul(v, v, num, n);
    CongResidue(v * num);
    CongTrans(value, v * num, v * n);
    CongSame(inv);
    CongMul(value, v * n, inv, inv);
    CongResidue(value * inv);
    CongTrans(value', value * inv, (v * n) * inv);
    MulSwap(v, n, inv);
  }

  lemma InverseShared(den: int, d: int, inv: int)
    requires Cong(den, d) && IsInverse(den, inv)
    ensures Inverse(d) == inv
  {
    CongSame(inv);
    CongMul(den, d, inv, inv);
    assert IsInverse(d, inv);
    InverseUnique(d, den, Inverse(d), inv);
  }

  /** The secret of the shares; ok is false where the source panics, which is
      when two indices are the same field element. */
  method Join(shares: seq<Share>) returns (ok: bool, secret: Word)
    ensures ok <==> Distinct(Indices(shares))
    ensures ok ==> secret == ShareSum(shares, |shares|) % PRIME
  {
    hide Cong, Diffs, Basis, IsInverse, Coprime, Distinct;
    ghost var xs := Indices(shares);
    secret := 0;
    CongSame(0);
    for i := 0 to |shares|
      invariant secret < PRIME && Cong(secret, ShareSum(shares, i))
      invariant forall k :: 0 <= k < i ==> Apart(xs, k)
    {
      var num, den := BasisParts(shares, i);
      var inv;
      ok, inv := InvMod(den, PRIME);
      DenominatorApart(xs, i, den);
      if !ok {
        ApartMeansDistinct(xs);
        return false, 0;
      }
      var value := MulMod(shares[i].value, num, PRIME);
      var value' := MulMod(value, inv, PRIME);
      var before := secret;
      secret := AddMod(secret, value', PRIME);
      BasisIs(xs, i);
      assert IsInverse(den, inv) by { InverseIntro(den, inv); }
      TermValue(shares[i].value, num, Diffs(0, Others(xs, i)), den, Diffs(xs[i], Others(xs, i)), inv, value, value');
      SecretStep(before, ShareSum(shares, i), value', shares[i].value * Basis(xs, i));
    }
    ApartMeansDistinct(xs);
    ok := true;
    ResidueOf(secret, ShareSum(shares, |shares|));
  }

  /** The point at k differs from all others. */
  ghost predicate Apart(xs: seq<int>, k: nat)
    requires k < |xs|
  {
    forall j :: 0 <= j < |xs| && j != k ==> !Cong(xs[k], xs[j])
  }

  lemma ApartMeansDistinct(xs: seq<int>)
    ensures Distinct(xs) <==> forall k :: 0 <= k < |xs| ==> Apart(xs, k)
  {
    if Distinct(xs) {
      forall k, j | 0 <= k < |xs| && 0 <= j < |xs| && j != k ensures !Cong(xs[k], xs[j]) {
        CongFlipped(xs[k], xs[j]);
      }
    } else {
      var i, j :| 0 <= i < j < |xs| && Cong(xs[i], xs[j]);
      assert !Apart(xs, i);
    }
  }

  lemma BasisIs(xs: seq<int>, i: nat)
    requires i < |xs|
    ensures Basis(xs, i) == Diffs(0, Others(xs, i)) * Inverse(Diffs(xs[i], Others(xs, i)))
  {
  }

  lemma InverseIntro(d: int, z: int)
    requires 1 <= z < PRIME && (d * z) % PRIME == 1
    ensures IsInverse(d, z)
  {
  }

  lemma SecretStep(secret: int, s: int, v: int, t: int)
    requires Cong(secret, s) && Cong(v, t)
    ensures Cong((secret + v) % PRIME, s + t)
  {
    hide Cong;
    CongAdd(secret, s, v, t);
    CongResidue(secret + v);
    CongTrans((secret + v) % PRIME, secret + v, s + t);
  }

  /** A denominator is invertible exactly when its point is apart. */
  lemma DenominatorApart(xs: seq<int>, i: nat, den: nat)
    requires i < |xs| && den == Diffs(xs[i], Others(xs, i)) % PRIME
    ensures Coprime(den, PRIME) <==> Apart(xs, i)
  {
    hide Cong, IsPrime;
    PrimeIsPrime();
    var d, o := Diffs(xs[i], Others(xs, i)), Others(xs, i);
    if Apart(xs, i) {
      forall j | 0 <= j < |o| ensures !Cong(xs[i], o[j]) {
        assert o[j] == if j < i then xs[j] else xs[j + 1];
      }
      DiffsNonZero(xs[i], o);
      ResidueZero(d);
      NonZeroIsCoprime(den);
    } else {
      var j :| 0 <= j < |xs| && j != i && Cong(xs[i], xs[j]);
      var k := if j < i then j else j - 1;
      assert o[k] == xs[j];
      DiffsZero(xs[i], o, k);
      ResidueZero(d);
      ZeroNotCoprime();
    }
  }

  lemma ResidueZero(d: int)
    ensures d % PRIME == 0 <==> Cong(d, 0)
    ensures Cong(d % PRIME, 0) <==> Cong(d, 0)
  {
  }

  lemma ZeroNotCoprime()
    ensures !Coprime(0, PRIME)
  {
    assert PRIME * 0 == 0 && PRIME * 1 == PRIME;
    assert Divides(PRIME, 0) && Divides(PRIME, PRIME);
  }

  lemma {:induction false} DiffsZero(c: int, s: seq<int>, k: nat)
    requires k < |s| && Cong(c, s[k])
    ensures Cong(Diffs(c, s), 0)
  {
    var n := |s| - 1;
    var rest := Diffs(c, s[..n]);
    if k == n {
      CongSame(s[n]);
      CongSub(c, s[n], s[n], s[n]);
      CongSame(rest);
      CongMul(rest, rest, c - s[n], 0);
    } else {
      DiffsZero(c, s[..n], k);
      CongSame(c - s[n]);
      CongMul(rest, 0, c - s[n], c - s[n]);
    }
  }

  // ----- reconstruction

  lemma {:induction false} ShareSumIs(shares: seq<Share>, h: int -> int, n: nat)
    requires n <= |shares|
    requires forall i :: 0 <= i < n ==> Cong(shares[i].value, h(shares[i].index))
    ensures Cong(ShareSum(shares, n), Sum(Indices(shares), h, n))
    decreases n
  {
    hide Cong, Basis;
    if n == 0 {
      CongSame(0);
    } else {
      ShareSumIs(shares, h, n - 1);
      var s, b := shares[n - 1], Basis(Indices(shares), n - 1);
      CongSame(b);
      CongMul(s.value, h(s.index), b, b);
      CongAdd(ShareSum(shares, n - 1), Sum(Indices(shares), h, n - 1), s.value * b, h(s.index) * b);
    }
  }

  /** Shares of one polynomial, no fewer than its coefficients and at different
      points, in any order, join to its constant term. */
  lemma Reconstruction(shares: seq<Share>, f: seq<int>)
    requires Distinct(Indices(shares)) && 0 < |f| <= |shares|
    requires forall i :: 0 <= i < |shares| ==> Cong(shares[i].value, Eval(f, shares[i].index))
    ensures ShareSum(shares, |shares|) % PRIME == f[0] % PRIME
  {
    hide Distinct, IsPrime, Sum, ShareSum, Eval, Basis;
    PrimeIsPrime();
    var xs := Indices(shares);
    ShareSumIs(shares, Poly(f), |shares|);
    Interpolation(xs, f);
    EvalAtZero(f);
  }

  /** Any k of the n shares of a splitting, in any order, join to the secret. */
  lemma SplitReconstructs(all: seq<Share>, n: int, f: seq<int>, quorum: seq<Share>)
    requires n < TOP && IsSplitting(all, n, f) && 0 < |f| <= |quorum|
    requires forall i :: 0 <= i < |quorum| ==> quorum[i] in all
    requires forall i, j :: 0 <= i < j < |quorum| ==> quorum[i] != quorum[j]
    ensures Distinct(Indices(quorum))
    ensures ShareSum(quorum, |quorum|) % PRIME == f[0] % PRIME
  {
    hide Eval, Cong;
    forall i | 0 <= i < |quorum|
      ensures 1 <= quorum[i].index <= n && quorum[i] == all[quorum[i].index - 1]
      ensures Cong(quorum[i].value, Eval(f, quorum[i].index))
    {
      var j :| 0 <= j < |all| && all[j] == quorum[i];
      assert IsShare(all[j], j + 1, f);
      CongResidue(Eval(f, quorum[i].index));
    }
    SmallIndices(quorum, n);
    Reconstruction(quorum, f);
  }

  /** Different indices below the prime are different field elements. */
  lemma SmallIndices(shares: seq<Share>, n: int)
    requires n < PRIME
    requires forall i :: 0 <= i < |shares| ==> shares[i].index <= n
    requires forall i, j :: 0 <= i < j < |shares| ==> shares[i].index != shares[j].index
    ensures Distinct(Indices(shares))
  {
    var xs := Indices(shares);
    forall i, j | 0 <= i < j < |xs| ensures !Cong(xs[i], xs[j]) {
      SmallMod(xs[i], PRIME);
      SmallMod(xs[j], PRIME);
    }
  }

  ghost function PolySub(f: seq<int>, g: seq<int>): (d: seq<int>)
    requires |f| == |g|
    ensures |d| == |f|
  {
    seq(|f|, i requires 0 <= i < |f| => f[i] - g[i])
  }

  lemma {:induction false} EvalSub(f: seq<int>, g: seq<int>, x: int)
    requires |f| == |g|
    ensures Eval(PolySub(f, g), x) == Eval(f, x) - Eval(g, x)
  {
    if f != [] {
      EvalSub(f[1..], g[1..], x);
      assert PolySub(f, g)[1..] == PolySub(f[1..], g[1..]);
      EvalStep(f, x);
      EvalStep(g, x);
      EvalStep(PolySub(f, g), x);
      hide Eval;
      Distribute(x, Eval(f[1..], x), Eval(g[1..], x));
    }
  }

  /** Subtracting shares at the same point gives a share of the difference. */
  lemma DifferenceShare(s: Share, t: Share, r: Share, x: int, f: seq<int>, g: seq<int>)
    requires |f| == |g| && IsShare(s, x, f) && IsShare(t, x, g)
    requires r.index == s.index && r.value == (s.value - t.value) % PRIME
    ensures IsShare(r, x, PolySub(f, g))
  {
    hide Eval;
    EvalSub(f, g, x);
    ModSub(Eval(f, x), Eval(g, x), PRIME);
  }
}
