/** What the reuse of the secret as linear coefficient costs: one share fewer
    than the threshold determines the secret, with one exception. */
module Secrecy {
  import opened Integers
  import opened Words
  import opened PrimeField
  import opened Lagrange
  import opened Primality
  import opened Shamir

  ghost predicate NonZero(xs: seq<int>)
  {
    forall i :: 0 <= i < |xs| ==> !Cong(xs[i], 0)
  }

  ghost predicate Vanishes(f: seq<int>, xs: seq<int>)
  {
    forall i :: 0 <= i < |xs| ==> Cong(Eval(f, xs[i]), 0)
  }

  ghost function InverseSum(xs: seq<int>): int
  {
    if xs == [] then 0 else InverseSum(xs[..|xs| - 1]) + Inverse(xs[|xs| - 1])
  }

  ghost function Linear(f: seq<int>): int
  {
    if |f| > 1 then f[1] else 0
  }

  /** A polynomial with as many roots as its degree, none of them zero: its
      linear coefficient is its constant term times minus the sum of the
      inverses of the roots. */
  lemma {:induction false} RootsFixLinear(f: seq<int>, xs: seq<int>)
    requires IsPrime(PRIME) && Distinct(xs) && NonZero(xs) && |f| == |xs| + 1 && Vanishes(f, xs)
    ensures Cong(Linear(f), -(f[0] * InverseSum(xs)))
    decreases |xs|
  {
    hide Eval, Cong, IsPrime, Distinct, NonZero, Vanishes, Quotient;
    if xs == [] {
      CongSame(0);
    } else {
      var m := |xs| - 1;
      var a, ys := xs[m], xs[..m];
      var q := Quotient(f, a);
      QuotientVanishes(f, xs);
      RootsFixLinear(q, ys);
      QuotientCoefficients(f, a);
      InverseExists(a);
      LinearStep(f[0], Linear(f), q[0], Linear(q), a, Inverse(a), InverseSum(ys), Eval(f, a));
    }
  }

  lemma QuotientVanishes(f: seq<int>, xs: seq<int>)
    requires IsPrime(PRIME) && Distinct(xs) && NonZero(xs) && |f| == |xs| + 1 && Vanishes(f, xs) && xs != []
    ensures Distinct(xs[..|xs| - 1]) && NonZero(xs[..|xs| - 1])
    ensures Vanishes(Quotient(f, xs[|xs| - 1]), xs[..|xs| - 1])
    ensures Cong(Eval(f, xs[|xs| - 1]), 0) && !Cong(xs[|xs| - 1], 0)
  {
    hide Eval, Quotient, IsPrime, Cong;
    var m := |xs| - 1;
    var a, ys := xs[m], xs[..m];
    forall i | 0 <= i < m
      ensures Cong(Eval(Quotient(f, a), ys[i]), 0)
    {
      var y := xs[i];
      assert ys[i] == y && !Cong(y, a);
      Division(f, a, y);
      DifferenceNonZero(y, a);
      RootOfFactor(Eval(f, y), Eval(f, a), y - a, Eval(Quotient(f, a), y));
    }
  }

  lemma RootOfFactor(fy: int, fa: int, d: int, q: int)
    requires IsPrime(PRIME) && Cong(fy, 0) && Cong(fa, 0) && !Cong(d, 0) && fy == fa + d * q
    ensures Cong(q, 0)
  {
    hide IsPrime;
    CongSub(fy, 0, fa, 0);
    if !Cong(q, 0) {
      NonZeroProduct(d, q);
    }
  }

  lemma QuotientCoefficients(f: seq<int>, a: int)
    requires |f| >= 2
    ensures f[0] == Eval(f, a) - a * Quotient(f, a)[0]
    ensures f[1] == Quotient(f, a)[0] - a * Linear(Quotient(f, a))
  {
    hide Eval;
    EvalStep(f, a);
    EvalStep(f[1..], a);
    if |f| == 2 {
      EvalEmpty(f[1..][1..], a);
    }
  }

  lemma LinearStep(f0: int, f1: int, q0: int, q1: int, a: int, z: int, s: int, r: int)
    requires f0 == r - a * q0 && f1 == q0 - a * q1 && Cong(r, 0) && IsInverse(a, z)
    requires Cong(q1, -(q0 * s))
    ensures Cong(f1, -(f0 * (s + z)))
  {
    hide Cong, IsInverse;
    var p := a * q0;
    // the left side is q0 + p * s
    CongSame(a);
    CongSame(q0);
    CongMul(a, a, q1, -(q0 * s));
    CongSub(q0, q0, a * q1, a * -(q0 * s));
    MulSwap(a, q0, s);
    assert a * -(q0 * s) == -(a * (q0 * s));
    assert Cong(f1, q0 + p * s);
    // and so is the right side
    CongSame(p);
    CongSub(r, 0, p, p);
    CongSame(-(s + z));
    CongMul(f0, -p, -(s + z), -(s + z));
    assert f0 * -(s + z) == -(f0 * (s + z)) && (-p) * -(s + z) == p * (s + z);
    Distribute(p, s, z);
    InverseTerm(a, q0, z);
    CongSame(p * s);
    CongAdd(p * s, p * s, p * z, q0);
    CongFlip(p * s + p * z, p * s + q0);
    CongFlip(-(f0 * (s + z)), p * (s + z));
    CongTrans(q0 + p * s, p * (s + z), -(f0 * (s + z)));
    CongTrans(f1, q0 + p * s, -(f0 * (s + z)));
  }

  lemma InverseTerm(a: int, q: int, z: int)
    requires IsInverse(a, z)
    ensures Cong((a * q) * z, q)
  {
    hide Cong;
    UndoFactor(q, a, z);
    assert (a * q) * z == z * (a * q);
  }

  /** ---- The polynomial with given roots ---- */

  /** f times x - a. */
  ghost function TimesRoot(f: seq<int>, a: int): (g: seq<int>)
    ensures |g| == |f| + 1
  {
    seq(|f| + 1, i requires 0 <= i <= |f| => (if i > 0 then f[i - 1] else 0) - a * (if i < |f| then f[i] else 0))
  }

  lemma TimesRootConstant(f: seq<int>, a: int)
    requires f != []
    ensures TimesRoot(f, a)[0] == (-a) * f[0]
  {
  }

  lemma {:induction false} TimesRootEval(f: seq<int>, a: int, x: int)
    ensures Eval(TimesRoot(f, a), x) == (x - a) * Eval(f, x)
  {
    var g := TimesRoot(f, a);
    if f == [] {
      assert g == [0] && g[1..] == [];
      EvalStep(g, x);
      EvalEmpty(g[1..], x);
      EvalEmpty(f, x);
    } else {
      hide Eval;
      var h := TimesRoot(f[1..], a);
      TimesRootEval(f[1..], a, x);
      assert g[1..] == [f[0] + h[0]] + h[1..];
      EvalStep(g, x);
      EvalStep(g[1..], x);
      EvalStep(h, x);
      EvalStep(f, x);
      TimesRootStep(f[0], a, x, Eval(f[1..], x), Eval(g[1..], x));
    }
  }

  lemma TimesRootStep(c: int, a: int, x: int, e: int, t: int)
    requires t == c + (x - a) * e
    ensures -(a * c) + x * t == (x - a) * (c + x * e)
  {
    Distribute(x, c, (x - a) * e);
    Distribute(x - a, c, x * e);
    Distribute(c, x, a);
    MulSwap(x, x - a, e);
    assert a * c == c * a && x * c == c * x && (x - a) * c == c * (x - a);
  }

  ghost function RootPoly(xs: seq<int>): (f: seq<int>)
    ensures |f| == |xs| + 1
  {
    if xs == [] then [1] else TimesRoot(RootPoly(xs[..|xs| - 1]), xs[|xs| - 1])
  }

  lemma {:induction false} RootPolyIs(xs: seq<int>)
    requires IsPrime(PRIME) && NonZero(xs)
    ensures !Cong(RootPoly(xs)[0], 0) && Vanishes(RootPoly(xs), xs)
  {
    hide IsPrime, Eval, Cong, Vanishes, NonZero, TimesRoot;
    if xs == [] {
      OneNonZero();
      NoRoots([1]);
    } else {
      var m := |xs| - 1;
      var a, f := xs[m], RootPoly(xs[..m]);
      NonZeroParts(xs);
      RootPolyIs(xs[..m]);
      NegatedNonZero(a);
      NonZeroProduct(-a, f[0]);
      TimesRootConstant(f, a);
      RootsKept(f, xs);
    }
  }

  /** One more factor keeps the roots and adds one. */
  lemma RootsKept(f: seq<int>, xs: seq<int>)
    requires xs != [] && Vanishes(f, xs[..|xs| - 1])
    ensures Vanishes(TimesRoot(f, xs[|xs| - 1]), xs)
  {
    hide Eval, Cong, TimesRoot;
    var m := |xs| - 1;
    var a := xs[m];
    forall i | 0 <= i < |xs|
      ensures Cong(Eval(TimesRoot(f, a), xs[i]), 0)
    {
      TimesRootEval(f, a, xs[i]);
      if i < m {
        assert xs[..m][i] == xs[i];
        ZeroFactor(xs[i] - a, Eval(f, xs[i]));
      } else {
        ZeroFactor(Eval(f, a), a - a);
      }
    }
  }

  lemma NoRoots(f: seq<int>)
    ensures Vanishes(f, [])
  {
  }

  lemma NonZeroParts(xs: seq<int>)
    requires NonZero(xs) && xs != []
    ensures NonZero(xs[..|xs| - 1]) && !Cong(xs[|xs| - 1], 0)
  {
    hide Cong;
  }

  lemma OneNonZero()
    ensures !Cong(1, 0)
  {
  }

  lemma ZeroFactor(a: int, b: int)
    requires b == 0 || Cong(b, 0)
    ensures Cong(a * b, 0) && Cong(b * a, 0)
  {
    CongSame(a);
    CongMul(a, a, b, 0);
  }

  lemma NegatedNonZero(a: int)
    requires !Cong(a, 0)
    ensures !Cong(-a, 0)
  {
    if Cong(-a, 0) {
      CongSub(0, 0, -a, 0);
    }
  }

  lemma {:induction false} EvalCong(f: seq<int>, g: seq<int>, x: int)
    requires |f| == |g| && forall i :: 0 <= i < |f| ==> Cong(f[i], g[i])
    ensures Cong(Eval(f, x), Eval(g, x))
  {
    if f != [] {
      EvalCong(f[1..], g[1..], x);
      EvalStep(f, x);
      EvalStep(g, x);
      hide Eval;
      CongSame(x);
      CongMul(x, x, Eval(f[1..], x), Eval(g[1..], x));
      CongAdd(f[0], g[0], x * Eval(f[1..], x), x * Eval(g[1..], x));
    }
  }

  /** ---- What the shares tell ---- */

  /** The coefficients that a splitting with threshold k may draw, the secret
      first. */
  ghost predicate Drawn(c: seq<Word>, k: nat)
  {
    |c| == k && forall i :: 0 <= i < k ==> c[i] < PRIME
  }

  ghost predicate Agree(c: seq<Word>, d: seq<Word>, xs: seq<int>)
    requires c != [] && d != []
  {
    forall i :: 0 <= i < |xs| ==> Cong(Eval(SplitPoly(c), xs[i]), Eval(SplitPoly(d), xs[i]))
  }

  /** The shares at these points tell the secret: splittings that agree there have
      the same secret. */
  ghost predicate Determined(xs: seq<int>, k: nat)
    requires k >= 1
  {
    forall c: seq<Word>, d: seq<Word> :: Drawn(c, k) && Drawn(d, k) && Agree(c, d, xs) ==> c[0] == d[0]
  }

  /** One share fewer than the threshold determines the secret if and only if the
      inverses of the points do not add up to minus one. */
  lemma ThresholdLowered(xs: seq<int>, k: nat)
    requires k >= 2 && |xs| == k - 1 && Distinct(xs) && NonZero(xs)
    ensures Determined(xs, k) <==> !Cong(1 + InverseSum(xs), 0)
  {
    PrimeIsPrime();
    hide IsPrime;
    if Cong(1 + InverseSum(xs), 0) {
      var c, d := Undecided(xs, k);
    } else {
      forall c: seq<Word>, d: seq<Word> | Drawn(c, k) && Drawn(d, k) && Agree(c, d, xs)
        ensures c[0] == d[0]
      {
        SameSecret(xs, k, c, d);
      }
    }
  }

  lemma SameSecret(xs: seq<int>, k: nat, c: seq<Word>, d: seq<Word>)
    requires IsPrime(PRIME) && k >= 2 && |xs| == k - 1 && Distinct(xs) && NonZero(xs)
    requires !Cong(1 + InverseSum(xs), 0) && Drawn(c, k) && Drawn(d, k) && Agree(c, d, xs)
    ensures c[0] == d[0]
  {
    hide IsPrime, Eval, InverseSum, Cong, Distinct, NonZero, PolySub;
    var f, g := SplitPoly(c), SplitPoly(d);
    var h := PolySub(f, g);
    forall i | 0 <= i < |xs|
      ensures Cong(Eval(h, xs[i]), 0)
    {
      EvalSub(f, g, xs[i]);
      CongSame(Eval(g, xs[i]));
      CongSub(Eval(f, xs[i]), Eval(g, xs[i]), Eval(g, xs[i]), Eval(g, xs[i]));
    }
    FirstTwo(c, d);
    RootsFixLinear(h, xs);
    var e: int := c[0] as int - d[0] as int;
    ZeroMultiple(e, InverseSum(xs));
    SmallDifference(c[0], d[0]);
  }

  lemma FirstTwo(c: seq<Word>, d: seq<Word>)
    requires |c| == |d| >= 2
    ensures var h, e := PolySub(SplitPoly(c), SplitPoly(d)), c[0] as int - d[0] as int; h[0] == e && h[1] == e
  {
  }

  lemma ZeroMultiple(e: int, s: int)
    requires IsPrime(PRIME) && Cong(e, -(e * s)) && !Cong(1 + s, 0)
    ensures Cong(e, 0)
  {
    hide IsPrime;
    CongSame(e * s);
    CongAdd(e, -(e * s), e * s, e * s);
    Distribute(e, 1, s);
    if !Cong(e, 0) {
      NonZeroProduct(e, 1 + s);
    }
  }

  lemma SmallDifference(a: nat, b: nat)
    requires a < PRIME && b < PRIME && Cong(a - b, 0)
    ensures a == b
  {
    CongSame(b);
    CongAdd(a - b, 0, b, b);
    SmallMod(a, PRIME);
    SmallMod(b, PRIME);
  }

  /** In the exceptional case another secret gives the same shares. */
  lemma Undecided(xs: seq<int>, k: nat) returns (c: seq<Word>, d: seq<Word>)
    requires IsPrime(PRIME) && k >= 2 && |xs| == k - 1 && Distinct(xs) && NonZero(xs)
    requires Cong(1 + InverseSum(xs), 0)
    ensures Drawn(c, k) && Drawn(d, k) && Agree(c, d, xs) && c[0] != d[0]
  {
    hide IsPrime, Eval, InverseSum, Cong, Distinct, NonZero, RootPoly, Drawn, Agree, Vanishes;
    var r := RootPoly(xs);
    RootPolyIs(xs);
    RootsFixLinear(r, xs);
    MinusOne(r[0], r[1], InverseSum(xs));
    c, d := TwoSecrets(r, xs);
  }

  /** A polynomial of the shape of a splitting that vanishes at the points hides
      behind the splitting of zero. */
  lemma TwoSecrets(r: seq<int>, xs: seq<int>) returns (c: seq<Word>, d: seq<Word>)
    requires |r| >= 2 && Vanishes(r, xs) && Cong(r[1], r[0]) && !Cong(r[0], 0)
    ensures Drawn(c, |r|) && Drawn(d, |r|) && Agree(c, d, xs) && c[0] != d[0]
  {
    hide Eval, Cong;
    var k := |r|;
    c := seq(k, i requires 0 <= i < k => if i == 0 then Residue(r[0]) else if i < k - 1 then Residue(r[i + 1]) else 0);
    d := seq(k, i requires 0 <= i < k => 0);
    var f, g := SplitPoly(c), SplitPoly(d);
    forall i | 0 <= i < k
      ensures Cong(f[i], r[i])
    {
      CongResidue(r[i]);
      CongResidue(r[0]);
      CongFlip(r[1], r[0]);
      if i == 1 {
        CongTrans(f[1], r[0], r[1]);
      }
    }
    forall i | 0 <= i < |xs|
      ensures Cong(Eval(f, xs[i]), Eval(g, xs[i]))
    {
      EvalCong(f, r, xs[i]);
      ZeroPoly(g, xs[i]);
      CongTrans(Eval(f, xs[i]), Eval(r, xs[i]), 0);
    }
    ResidueNonZero(r[0]);
  }

  /** ---- Fewer shares ---- */

  /** f times 1 + b * x. */
  ghost function TimesLine(f: seq<int>, b: int): (g: seq<int>)
    ensures |g| == |f| + 1
  {
    seq(|f| + 1, i requires 0 <= i <= |f| => (if i < |f| then f[i] else 0) + b * (if i > 0 then f[i - 1] else 0))
  }

  lemma {:induction false} TimesLineEval(f: seq<int>, b: int, x: int)
    ensures Eval(TimesLine(f, b), x) == (1 + b * x) * Eval(f, x)
  {
    var g := TimesLine(f, b);
    if f == [] {
      assert g == [0] && g[1..] == [];
      EvalStep(g, x);
      EvalEmpty(g[1..], x);
      EvalEmpty(f, x);
    } else {
      hide Eval;
      var h := TimesLine(f[1..], b);
      TimesLineEval(f[1..], b, x);
      assert g[1..] == [b * f[0] + h[0]] + h[1..];
      EvalStep(g, x);
      EvalStep(g[1..], x);
      EvalStep(h, x);
      EvalStep(f, x);
      TimesLineStep(f[0], b, x, Eval(f[1..], x), Eval(g[1..], x));
    }
  }

  lemma TimesLineStep(c: int, b: int, x: int, e: int, t: int)
    requires t == b * c + (1 + b * x) * e
    ensures c + x * t == (1 + b * x) * (c + x * e)
  {
    var p := 1 + b * x;
    Distribute(x, b * c, p * e);
    Distribute(p, c, x * e);
    Distribute(c, 1, b * x);
    MulSwap(x, b, c);
    MulSwap(x, p, e);
    MulSwap(b, x, c);
    assert p * c == c * p && c * (b * x) == (b * x) * c;
  }

  ghost function Padding(n: nat): (z: seq<int>)
    ensures |z| == n && forall i :: 0 <= i < n ==> z[i] == 0
  {
    seq(n, _ => 0)
  }

  lemma {:induction false} EvalPadded(f: seq<int>, n: nat, x: int)
    ensures Eval(f + Padding(n), x) == Eval(f, x)
  {
    if f == [] {
      assert f + Padding(n) == Padding(n);
      ZeroPoly(Padding(n), x);
    } else {
      EvalPadded(f[1..], n, x);
      assert (f + Padding(n))[1..] == f[1..] + Padding(n);
      EvalStep(f + Padding(n), x);
      EvalStep(f, x);
    }
  }

  /** Two shares fewer than the threshold, or less, never determine the secret. */
  lemma FewSharesHide(xs: seq<int>, k: nat)
    requires k >= 2 && |xs| <= k - 2 && NonZero(xs)
    ensures !Determined(xs, k)
  {
    PrimeIsPrime();
    hide IsPrime, Eval, Cong, NonZero, RootPoly, TimesLine, Vanishes;
    var r := RootPoly(xs);
    RootPolyIs(xs);
    InverseExists(r[0]);
    var b := (r[0] - Linear(r)) * Inverse(r[0]);
    var line := TimesLine(r, b);
    LineStarts(r, b);
    EqualStart(r[0], Linear(r), Inverse(r[0]), b);
    var f := line + Padding(k - |line|);
    LineVanishes(r, b, xs, k - |line|);
    var c, d := TwoSecrets(f, xs);
  }

  lemma LineStarts(r: seq<int>, b: int)
    requires r != []
    ensures TimesLine(r, b)[0] == r[0] && TimesLine(r, b)[1] == Linear(r) + b * r[0]
  {
    assert b * 0 == 0;
  }

  lemma EqualStart(r0: int, r1: int, z: int, b: int)
    requires IsInverse(r0, z) && b == (r0 - r1) * z
    ensures Cong(r1 + b * r0, r0)
  {
    hide Cong, IsInverse;
    UndoFactor(r0 - r1, r0, z);
    MulSwap(r0 - r1, z, r0);
    assert b * r0 == z * (r0 * (r0 - r1)) by {
      MulSwap(z, r0, r0 - r1);
      MulSwap(r0, r0 - r1, z);
      assert (r0 - r1) * z * r0 == r0 * ((r0 - r1) * z) && r0 * (r0 - r1) * z == z * (r0 * (r0 - r1));
    }
    CongSame(r1);
    CongAdd(r1, r1, b * r0, r0 - r1);
  }

  lemma LineVanishes(r: seq<int>, b: int, xs: seq<int>, n: nat)
    requires Vanishes(r, xs)
    ensures Vanishes(TimesLine(r, b) + Padding(n), xs)
  {
    hide Eval, Cong, TimesLine;
    forall i | 0 <= i < |xs|
      ensures Cong(Eval(TimesLine(r, b) + Padding(n), xs[i]), 0)
    {
      EvalPadded(TimesLine(r, b), n, xs[i]);
      TimesLineEval(r, b, xs[i]);
      ZeroFactor(1 + b * xs[i], Eval(r, xs[i]));
    }
  }

  ghost function Residue(a: int): (w: Word)
    ensures w < PRIME && w == a % PRIME
  {
    DivTimesMod(a, PRIME);
    a % PRIME
  }

  lemma ResidueNonZero(a: int)
    requires !Cong(a, 0)
    ensures Residue(a) != 0
  {
  }

  lemma MinusOne(e: int, l: int, s: int)
    requires Cong(l, -(e * s)) && Cong(1 + s, 0)
    ensures Cong(l, e)
  {
    hide Cong;
    CongSame(e);
    CongMul(e, e, 1 + s, 0);
    Distribute(e, 1, s);
    CongSame(e * s);
    CongSub(e * (1 + s), 0, e * s, e * s);
    CongFlip(e, -(e * s));
    CongTrans(l, -(e * s), e);
  }

  lemma {:induction false} ZeroPoly(f: seq<int>, x: int)
    requires forall i :: 0 <= i < |f| ==> f[i] == 0
    ensures Eval(f, x) == 0
  {
    if f != [] {
      ZeroPoly(f[1..], x);
      EvalStep(f, x);
    }
  }

  /** With threshold two every single share tells the secret. */
  lemma SingleShareReveals(x: int)
    requires 1 <= x < TOP
    ensures Determined([x], 2)
  {
    var xs := [x];
    PrimeIsPrime();
    hide IsPrime;
    SmallMod(x, PRIME);
    assert !Cong(x, 0);
    InverseExists(x);
    assert xs[..0] == [];
    var z := Inverse(x);
    assert InverseSum(xs) == InverseSum([]) + z;
    if Cong(1 + z, 0) {
      CongSame(x);
      CongMul(x, x, 1 + z, 0);
      Distribute(x, 1, z);
      CongOne(x * z);
      CongAdd(x, x, x * z, 1);
      SmallMod(x + 1, PRIME);
    }
    ThresholdLowered(xs, 2);
  }
}
