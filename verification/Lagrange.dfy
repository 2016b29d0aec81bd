/** Interpolation at zero over the prime field: the sum the share join
    computes is the constant term of the shared polynomial. */
module Lagrange {
  import opened Integers
  import opened PrimeField

  /** The polynomial with coefficients f at x, by Horner's rule. */
  ghost function Eval(f: seq<int>, x: int): int
  {
    if f == [] then 0 else f[0] + x * Eval(f[1..], x)
  }

  /** The product of c - s[j] over all j. */
  ghost function Diffs(c: int, s: seq<int>): int
  {
    if s == [] then 1 else Diffs(c, s[..|s| - 1]) * (c - s[|s| - 1])
  }

  ghost function Others(xs: seq<int>, i: nat): seq<int>
    requires i < |xs|
  {
    xs[..i] + xs[i + 1..]
  }

  /** The value at zero of the i-th Lagrange basis polynomial. */
  ghost function Basis(xs: seq<int>, i: nat): int
    requires i < |xs|
  {
    Diffs(0, Others(xs, i)) * Inverse(Diffs(xs[i], Others(xs, i)))
  }

  /** The first n terms of the interpolation of h through the points xs. */
  ghost function Sum(xs: seq<int>, h: int -> int, n: nat): int
    requires n <= |xs|
  {
    if n == 0 then 0 else Sum(xs, h, n - 1) + h(xs[n - 1]) * Basis(xs, n - 1)
  }

  /** h with a root at a. */
  ghost function Root(a: int, h: int -> int): int -> int
  {
    x => (x - a) * h(x)
  }

  ghost function Scaled(c: int, h: int -> int): int -> int
  {
    x => c * h(x)
  }

  /** The polynomial with coefficients f, as a function. */
  ghost function Poly(f: seq<int>): int -> int
  {
    x => Eval(f, x)
  }

  /** The points are different field elements. */
  ghost predicate Distinct(xs: seq<int>)
  {
    forall i, j :: 0 <= i < j < |xs| ==> !Cong(xs[i], xs[j])
  }

  // ----- products of differences

  lemma {:induction false} DiffsConcat(c: int, s: seq<int>, t: seq<int>)
    ensures Diffs(c, s + t) == Diffs(c, s) * Diffs(c, t)
  {
    if t == [] {
      assert s + t == s;
    } else {
      var n := |t| - 1;
      assert (s + t)[..|s + t| - 1] == s + t[..n];
      DiffsConcat(c, s, t[..n]);
      MulSwap(Diffs(c, s), Diffs(c, t[..n]), c - t[n]);
    }
  }

  lemma DiffsSingle(c: int, x: int)
    ensures Diffs(c, [x]) == c - x
  {
    assert [x][..0] == [];
    assert Diffs(c, []) == 1;
  }

  lemma {:induction false} DiffsNonZero(c: int, s: seq<int>)
    requires IsPrime(PRIME)
    requires forall j :: 0 <= j < |s| ==> !Cong(c, s[j])
    ensures !Cong(Diffs(c, s), 0)
  {
    if s != [] {
      var n := |s| - 1;
      DiffsNonZero(c, s[..n]);
      DifferenceNonZero(c, s[n]);
      NonZeroProduct(Diffs(c, s[..n]), c - s[n]);
    }
  }

  lemma DifferenceNonZero(a: int, b: int)
    requires !Cong(a, b)
    ensures !Cong(a - b, 0)
  {
    if Cong(a - b, 0) {
      CongSame(b);
      CongAdd(a - b, 0, b, b);
    }
  }

  /** Taking away the point a, the last or the first of xs, leaves ys; the point
      of xs at i is the point of ys at k. */
  ghost predicate Without(xs: seq<int>, i: nat, a: int, ys: seq<int>, k: nat)
    requires i < |xs| && k < |ys|
  {
    && xs[i] == ys[k]
    && (Others(xs, i) == Others(ys, k) + [a] || Others(xs, i) == [a] + Others(ys, k))
  }

  lemma WithoutDiffs(c: int, xs: seq<int>, i: nat, a: int, ys: seq<int>, k: nat)
    requires i < |xs| && k < |ys| && Without(xs, i, a, ys, k)
    ensures Diffs(c, Others(xs, i)) == Diffs(c, Others(ys, k)) * (c - a)
  {
    hide Diffs;
    DiffsSingle(c, a);
    if Others(xs, i) == Others(ys, k) + [a] {
      DiffsConcat(c, Others(ys, k), [a]);
    } else {
      DiffsConcat(c, [a], Others(ys, k));
    }
  }

  /** The basis value picks up the factor -a / (x - a) from the point a. */
  lemma BasisWithout(xs: seq<int>, i: nat, a: int, ys: seq<int>, k: nat)
    requires IsPrime(PRIME) && i < |xs| && k < |ys| && Without(xs, i, a, ys, k)
    requires Distinct(ys) && !Cong(xs[i], a)
    ensures Cong((xs[i] - a) * Basis(xs, i), (-a) * Basis(ys, k))
  {
    hide Diffs, Cong, IsPrime;
    var x, n, d := xs[i], Diffs(0, Others(ys, k)), Diffs(xs[i], Others(ys, k));
    WithoutDiffs(0, xs, i, a, ys, k);
    WithoutDiffs(x, xs, i, a, ys, k);
    OthersDistinct(ys, k);
    DiffsNonZero(x, Others(ys, k));
    DifferenceNonZero(x, a);
    NonZeroProduct(d, x - a);
    InverseExists(d);
    InverseExists(d * (x - a));
    BasisFactor(n, d, x - a, a, Inverse(d * (x - a)), Inverse(d));
  }

  lemma BasisFactor(n: int, d: int, e: int, a: int, z: int, w: int)
    requires IsInverse(d * e, z) && IsInverse(d, w)
    ensures Cong(e * ((n * (0 - a)) * z), (-a) * (n * w))
  {
    hide Cong;
    InverseOfProduct(d, e, z, w);
    CongSame((-a) * n);
    CongMul((-a) * n, (-a) * n, e * z, w);
    assert e * ((n * (0 - a)) * z) == ((-a) * n) * (e * z) by {
      MulSwap(e, n * (0 - a), z);
      MulSwap(n * (0 - a), e, z);
      assert n * (0 - a) == (-a) * n;
    }
    assert ((-a) * n) * w == (-a) * (n * w);
  }

  lemma OthersDistinct(ys: seq<int>, k: nat)
    requires k < |ys| && Distinct(ys)
    ensures forall j :: 0 <= j < |Others(ys, k)| ==> !Cong(ys[k], Others(ys, k)[j])
  {
    forall j | 0 <= j < |Others(ys, k)| ensures !Cong(ys[k], Others(ys, k)[j]) {
      assert Others(ys, k)[j] == if j < k then ys[j] else ys[j + 1];
    }
  }

  // ----- sums with one point removed

  /** Interpolating (x - a) * h(x), where a is the last point, drops that point. */
  lemma {:induction false} DropLast(xs: seq<int>, h: int -> int, n: nat)
    requires IsPrime(PRIME) && Distinct(xs) && n < |xs|
    ensures
      var a := xs[|xs| - 1];
      Cong(Sum(xs, Root(a, h), n), (-a) * Sum(xs[..|xs| - 1], h, n))
    decreases n
  {
    hide Basis, Cong, IsPrime, Others, Distinct, Without;
    var m := |xs| - 1;
    var a, ys := xs[m], xs[..m];
    if n == 0 {
      CongSame(0);
    } else {
      DropLast(xs, h, n - 1);
      WithoutLast(xs, n - 1);
      BasisWithout(xs, n - 1, a, ys, n - 1);
      DroppedTerm(h(xs[n - 1]), xs[n - 1] - a, Basis(xs, n - 1), a, Basis(ys, n - 1),
                  Sum(xs, Root(a, h), n - 1), Sum(ys, h, n - 1));
    }
  }

  lemma WithoutLast(xs: seq<int>, i: nat)
    requires i < |xs| - 1 && Distinct(xs)
    ensures Without(xs, i, xs[|xs| - 1], xs[..|xs| - 1], i)
    ensures Distinct(xs[..|xs| - 1]) && !Cong(xs[i], xs[|xs| - 1])
  {
    var m := |xs| - 1;
    assert Others(xs, i) == Others(xs[..m], i) + [xs[m]];
  }

  lemma DroppedTerm(h: int, e: int, b: int, a: int, b': int, s: int, s': int)
    requires Cong(e * b, (-a) * b') && Cong(s, (-a) * s')
    ensures Cong(s + (e * h) * b, (-a) * (s' + h * b'))
  {
    hide Cong;
    CongSame(h);
    CongMul(h, h, e * b, (-a) * b');
    assert (e * h) * b == h * (e * b) by {
      MulSwap(h, e, b);
      assert h * e == e * h;
    }
    assert h * ((-a) * b') == (-a) * (h * b') by {
      MulSwap(h, -a, b');
    }
    CongAdd(s, (-a) * s', (e * h) * b, (-a) * (h * b'));
    Distribute(-a, s', h * b');
  }

  /** The same for the first point. */
  lemma {:induction false} DropFirst(xs: seq<int>, h: int -> int, n: nat)
    requires IsPrime(PRIME) && Distinct(xs) && n < |xs|
    ensures
      var a := xs[0];
      Cong(Sum(xs, Root(a, h), n + 1), (-a) * Sum(xs[1..], h, n))
    decreases n
  {
    hide Basis, Cong, IsPrime, Others, Distinct, Without;
    var a, ys := xs[0], xs[1..];
    if n == 0 {
      CongSame(0);
      assert Sum(xs, Root(a, h), 1) == Sum(xs, Root(a, h), 0) + ((a - a) * h(a)) * Basis(xs, 0);
    } else {
      DropFirst(xs, h, n - 1);
      WithoutFirst(xs, n);
      BasisWithout(xs, n, a, ys, n - 1);
      DroppedTerm(h(xs[n]), xs[n] - a, Basis(xs, n), a, Basis(ys, n - 1),
                  Sum(xs, Root(a, h), n), Sum(ys, h, n - 1));
    }
  }

  lemma WithoutFirst(xs: seq<int>, i: nat)
    requires 0 < i < |xs| && Distinct(xs)
    ensures Without(xs, i, xs[0], xs[1..], i - 1)
    ensures Distinct(xs[1..]) && !Cong(xs[i], xs[0])
  {
    assert Others(xs, i) == [xs[0]] + Others(xs[1..], i - 1);
    CongFlipped(xs[i], xs[0]);
  }

  lemma CongFlipped(a: int, b: int)
    ensures Cong(a, b) <==> Cong(b, a)
  {
  }

  // ----- linearity

  lemma {:induction false} SumLinear(xs: seq<int>, f: int -> int, g: int -> int, h: int -> int, c: int, d: int, n: nat)
    requires n <= |xs| && forall x :: h(x) == c * f(x) + d * g(x)
    ensures Sum(xs, h, n) == c * Sum(xs, f, n) + d * Sum(xs, g, n)
    decreases n
  {
    hide Basis;
    if n > 0 {
      SumLinear(xs, f, g, h, c, d, n - 1);
      var x, b := xs[n - 1], Basis(xs, n - 1);
      LinearTerm(c, d, f(x), g(x), b, Sum(xs, f, n - 1), Sum(xs, g, n - 1), h(x));
    }
  }

  lemma LinearTerm(c: int, d: int, f: int, g: int, b: int, s: int, t: int, h: int)
    requires h == c * f + d * g
    ensures c * s + d * t + h * b == c * (s + f * b) + d * (t + g * b)
  {
    Distribute(b, c * f, d * g);
    Distribute(c, s, f * b);
    Distribute(d, t, g * b);
    MulSwap(c, f, b);
    MulSwap(d, g, b);
  }

  // ----- synthetic division

  /** The quotient of f by x - a. */
  ghost function Quotient(f: seq<int>, a: int): seq<int>
    requires f != []
    ensures |Quotient(f, a)| == |f| - 1
  {
    if |f| == 1 then [] else [Eval(f[1..], a)] + Quotient(f[1..], a)
  }

  lemma {:induction false} Division(f: seq<int>, a: int, x: int)
    requires f != []
    ensures Eval(f, x) == Eval(f, a) + (x - a) * Eval(Quotient(f, a), x)
  {
    hide Eval, Quotient;
    EvalStep(f, x);
    EvalStep(f, a);
    if |f| == 1 {
      EvalEmpty(f[1..], x);
      EvalEmpty(f[1..], a);
      EvalEmpty(Quotient(f, a), x);
    } else {
      var g := f[1..];
      Division(g, a, x);
      QuotientStep(f, a);
      EvalStep(Quotient(f, a), x);
      DivisionStep(f[0], a, x, Eval(g, a), Eval(g, x), Eval(Quotient(g, a), x));
    }
  }

  lemma EvalStep(f: seq<int>, x: int)
    requires f != []
    ensures Eval(f, x) == f[0] + x * Eval(f[1..], x)
  {
  }

  lemma EvalEmpty(f: seq<int>, x: int)
    requires f == []
    ensures Eval(f, x) == 0
  {
  }

  lemma QuotientStep(f: seq<int>, a: int)
    requires |f| > 1
    ensures Quotient(f, a) != [] && Quotient(f, a)[0] == Eval(f[1..], a) && Quotient(f, a)[1..] == Quotient(f[1..], a)
  {
  }

  lemma DivisionStep(c: int, a: int, x: int, ga: int, gx: int, q: int)
    requires gx == ga + (x - a) * q
    ensures c + x * gx == c + a * ga + (x - a) * (ga + x * q)
  {
    Distribute(x, ga, (x - a) * q);
    Distribute(x - a, ga, x * q);
    Distribute(ga, x, a);
    MulSwap(x, x - a, q);
    assert a * ga == ga * a && x * ga == ga * x && (x - a) * ga == ga * (x - a);
  }

  lemma EvalAtZero(f: seq<int>)
    requires f != []
    ensures Eval(f, 0) == f[0]
  {
  }

  /** Interpolating a polynomial through more points than its degree gives its
      value at zero. */
  lemma {:induction false} Interpolation(xs: seq<int>, f: seq<int>)
    requires IsPrime(PRIME) && Distinct(xs) && |f| <= |xs| && xs != []
    ensures Cong(Sum(xs, Poly(f), |xs|), Eval(f, 0))
    decreases |xs|, |f|, 1
  {
    if |xs| == 1 {
      OnePoint(xs, f);
    } else if |f| < |xs| {
      InterpolationShort(xs, f);
    } else {
      InterpolationFull(xs, f);
    }
  }

  /** With a point to spare: combine the sums without the last and without the
      first point. */
  lemma {:induction false} InterpolationShort(xs: seq<int>, f: seq<int>)
    requires IsPrime(PRIME) && Distinct(xs) && |f| < |xs| && |xs| >= 2
    ensures Cong(Sum(xs, Poly(f), |xs|), Eval(f, 0))
    decreases |xs|, |f|, 0
  {
    hide Basis, Cong, IsPrime, Distinct, Eval, Sum;
    var m := |xs| - 1;
    var a, b := xs[m], xs[0];
    DistinctParts(xs);
    Interpolation(xs[..m], f);
    Interpolation(xs[1..], f);
    DropLast(xs, Poly(f), m);
    DropFirst(xs, Poly(f), m);
    LastTermZero(xs, Poly(f), a);
    var p := Poly(f);
    forall x ensures Scaled(b - a, p)(x) == 1 * Root(a, p)(x) + (-1) * Root(b, p)(x) {
      Distribute(p(x), x - a, x - b);
    }
    SumLinear(xs, Root(a, p), Root(b, p), Scaled(b - a, p), 1, -1, m + 1);
    SumLinear(xs, p, p, Scaled(b - a, p), b - a, 0, m + 1);
    TwoEnds(Sum(xs, p, m + 1), Eval(f, 0), a, b, Sum(xs, Root(a, p), m + 1), Sum(xs, Root(b, p), m + 1),
            Sum(xs[..m], p, m), Sum(xs[1..], p, m));
  }

  /** With no point to spare: divide by x - a for the last point a. */
  lemma {:induction false} InterpolationFull(xs: seq<int>, f: seq<int>)
    requires IsPrime(PRIME) && Distinct(xs) && |f| == |xs| >= 2
    ensures Cong(Sum(xs, Poly(f), |xs|), Eval(f, 0))
    decreases |xs|, |f|, 0
  {
    hide Basis, Cong, IsPrime, Distinct, Eval, Sum;
    var m := |xs| - 1;
    var a := xs[m];
    var g := Quotient(f, a);
    DistinctParts(xs);
    Interpolation(xs, [1]);
    Interpolation(xs[..m], g);
    DropLast(xs, Poly(g), m);
    LastTermZero(xs, Poly(g), a);
    forall x ensures Poly(f)(x) == Eval(f, a) * Poly([1])(x) + 1 * Root(a, Poly(g))(x) {
      Division(f, a, x);
      EvalOne(x);
    }
    SumLinear(xs, Poly([1]), Root(a, Poly(g)), Poly(f), Eval(f, a), 1, m + 1);
    Division(f, a, 0);
    EvalOne(0);
    OffTop(Sum(xs, Poly([1]), m + 1), Sum(xs, Root(a, Poly(g)), m + 1), Sum(xs[..m], Poly(g), m),
           Eval(f, a), Eval(g, 0), a);
  }

  lemma DistinctParts(xs: seq<int>)
    requires |xs| >= 2 && Distinct(xs)
    ensures Distinct(xs[..|xs| - 1]) && Distinct(xs[1..]) && !Cong(xs[0], xs[|xs| - 1])
  {
  }

  lemma EvalOne(x: int)
    ensures Eval([1], x) == 1
  {
    assert [1][1..] == [];
    assert Eval([], x) == 0;
  }

  lemma LastTermZero(xs: seq<int>, h: int -> int, a: int)
    requires xs != [] && a == xs[|xs| - 1]
    ensures Sum(xs, Root(a, h), |xs|) == Sum(xs, Root(a, h), |xs| - 1)
  {
    hide Basis;
    assert (a - a) * h(a) == 0;
  }

  /** Two interpolations that each leave out one end determine the whole. */
  lemma TwoEnds(s: int, v: int, a: int, b: int, sa: int, sb: int, ta: int, tb: int)
    requires IsPrime(PRIME) && !Cong(b, a)
    requires sa - sb == (b - a) * s
    requires Cong(sa, (-a) * ta) && Cong(sb, (-b) * tb) && Cong(ta, v) && Cong(tb, v)
    ensures Cong(s, v)
  {
    hide Cong, IsPrime;
    CongScale(sa, -a, ta, v);
    CongScale(sb, -b, tb, v);
    CongSub(sa, (-a) * v, sb, (-b) * v);
    assert (-a) * v - (-b) * v == (b - a) * v by {
      Distribute(v, b, a);
      assert (-a) * v == -(a * v) && (-b) * v == -(b * v);
    }
    DifferenceNonZero(b, a);
    InverseExists(b - a);
    CongCancel(s, v, b - a, Inverse(b - a));
  }

  lemma CongScale(s: int, c: int, t: int, v: int)
    requires Cong(s, c * t) && Cong(t, v)
    ensures Cong(s, c * v)
  {
    CongSame(c);
    CongMul(c, c, t, v);
  }

  /** Splitting off the factor x - a of the last point. */
  lemma OffTop(s1: int, sg: int, tg: int, fa: int, g0: int, a: int)
    requires Cong(s1, 1) && Cong(sg, (-a) * tg) && Cong(tg, g0)
    ensures Cong(fa * s1 + 1 * sg, fa + (0 - a) * g0)
  {
    hide Cong;
    CongScale(sg, -a, tg, g0);
    CongSame(fa);
    CongMul(fa, fa, s1, 1);
    CongAdd(fa * s1, fa * 1, sg, (-a) * g0);
  }

  lemma OnePoint(xs: seq<int>, f: seq<int>)
    requires |xs| == 1 && |f| <= 1
    ensures Cong(Sum(xs, Poly(f), 1), Eval(f, 0))
  {
    assert Others(xs, 0) == [];
    assert Basis(xs, 0) == 1 by {
      assert IsInverse(1, 1);
      InverseUnique(1, 1, Inverse(1), 1);
    }
    assert Sum(xs, Poly(f), 1) == Sum(xs, Poly(f), 0) + Eval(f, xs[0]) * 1;
    if f != [] {
      assert f[1..] == [];
    }
  }
}
