/** The sharing prime is prime: Pocklington's criterion and its certificate. */
module Primality {
  import opened Integers
  import opened Residues
  import opened ModularInverse
  import opened PrimeField

  // ----- powers modulo a divisor

  ghost predicate One(a: nat, d: nat, n: nat)
    requires d > 0
  {
    Power(a, n) % d == 1
  }

  lemma OneSum(a: nat, d: nat, m: nat, n: nat)
    requires d >= 2 && One(a, d, m)
    ensures One(a, d, m + n) <==> One(a, d, n)
  {
    hide Power;
    PowerAdd(a, m, n);
    ModMul(Power(a, m), Power(a, n), d);
    var r := Power(a, n) % d;
    DivTimesMod(Power(a, n), d);
    SmallMod(r, d);
    assert 1 * r == r;
  }

  /** o is the order of a modulo d. */
  ghost predicate IsOrderOf(o: nat, a: nat, d: nat)
    requires d > 0
  {
    1 <= o && One(a, d, o) && forall k :: 1 <= k < o ==> !One(a, d, k)
  }

  lemma OrderExists(a: nat, d: nat, n: nat) returns (o: nat)
    requires d > 0 && n >= 1 && One(a, d, n)
    ensures IsOrderOf(o, a, d)
  {
    hide One;
    o := 1;
    while !One(a, d, o)
      invariant 1 <= o <= n
      invariant forall k :: 1 <= k < o ==> !One(a, d, k)
      decreases n - o
    {
      o := o + 1;
    }
  }

  lemma {:induction false} OrderDivides(o: nat, a: nat, d: nat, n: nat)
    requires d >= 2 && IsOrderOf(o, a, d) && One(a, d, n)
    ensures Divides(o, n)
    decreases n
  {
    hide One;
    if n == 0 {
      assert o * 0 == n;
    } else if n < o {
      assert false;
    } else {
      OneSum(a, d, o, n - o);
      OrderDivides(o, a, d, n - o);
      var k: nat :| o * k == n - o;
      Distribute(o, k, 1);
      assert o * (k + 1) == n;
    }
  }

  /** The residues of the first k powers. */
  ghost function PowerResidues(a: nat, d: nat, k: nat): set<int>
    requires d > 0
  {
    if k == 0 then {} else PowerResidues(a, d, k - 1) + {Power(a, k - 1) % d}
  }

  lemma {:induction false} ResiduesMembers(a: nat, d: nat, k: nat, x: int)
    requires d > 0 && x in PowerResidues(a, d, k)
    ensures exists i :: 0 <= i < k && x == Power(a, i) % d
    decreases k
  {
    if x == Power(a, k - 1) % d {
      assert 0 <= k - 1 < k;
    } else {
      ResiduesMembers(a, d, k - 1, x);
    }
  }

  lemma PowersDiffer(o: nat, a: nat, d: nat, i: nat, j: nat)
    requires d >= 2 && IsOrderOf(o, a, d) && i < j < o
    ensures Power(a, i) % d != Power(a, j) % d && Power(a, j) % d != 0
  {
    hide Power;
    var rest := Power(a, o - j);
    PowerAdd(a, j, o - j);
    PowerAdd(a, i, o - j);
    ModMulLeft(Power(a, j), rest, d);
    ModMulLeft(Power(a, i), rest, d);
    assert !One(a, d, i + (o - j));
    assert (0 * rest) % d == 0 by {
      SmallMod(0, d);
    }
  }

  lemma {:induction false} ResiduesSize(o: nat, a: nat, d: nat, k: nat)
    requires d >= 2 && IsOrderOf(o, a, d) && k <= o
    ensures |PowerResidues(a, d, k)| == k
    ensures forall x :: x in PowerResidues(a, d, k) ==> 1 <= x < d
    decreases k
  {
    hide IsOrderOf, Power;
    if k > 0 {
      ResiduesSize(o, a, d, k - 1);
      var x := Power(a, k - 1) % d;
      DivTimesMod(Power(a, k - 1), d);
      if x in PowerResidues(a, d, k - 1) {
        ResiduesMembers(a, d, k - 1, x);
        var i :| 0 <= i < k - 1 && x == Power(a, i) % d;
        PowersDiffer(o, a, d, i, k - 1);
      }
      if k - 1 > 0 {
        PowersDiffer(o, a, d, 0, k - 1);
      } else {
        PowerZero(a, d);
      }
    }
  }

  lemma PowerZero(a: nat, d: nat)
    requires d >= 2
    ensures Power(a, 0) % d == 1
  {
    SmallMod(1, d);
  }

  lemma {:induction false} BoundedSetSize(s: set<int>, d: nat)
    requires d >= 1 && forall x :: x in s ==> 1 <= x < d
    ensures |s| < d
    decreases d
  {
    if d == 1 {
      assert forall x :: x !in s;
      assert s == {};
    } else {
      BoundedSetSize(s - {d - 1}, d - 1);
    }
  }

  /** By the pigeonhole principle the order is below the modulus. */
  lemma OrderBelow(o: nat, a: nat, d: nat)
    requires d >= 2 && IsOrderOf(o, a, d)
    ensures o < d
  {
    hide IsOrderOf;
    ResiduesSize(o, a, d, o);
    BoundedSetSize(PowerResidues(a, d, o), d);
  }

  // ----- prime factors of the order

  /** A prime that divides a product divides a factor. */
  lemma PrimeDividesFactor(q: nat, a: nat, b: nat)
    requires IsPrime(q) && Divides(q, a * b) && !Divides(q, a)
    ensures Divides(q, b)
  {
    assert Coprime(a, q) by {
      forall e: nat | e >= 2 && Divides(e, a) ensures !Divides(e, q) {
        if Divides(e, q) {
          DivisorOfPrime(e, q);
        }
      }
    }
    hide IsPrime, Coprime;
    EuclidStart(a, q);
    var g, lx, ux, ly, uy, odd := RunEuclid(a, q, a, q, 1, 0, 0, 1, true, false);
    EuclidEnd(a, q, g, lx, ux, ly, uy, odd);
    var k: nat :| q * k == a * b;
    BezoutFactor(q, a, b, k, lx, ly, odd);
  }

  lemma DivisorOfPrime(e: nat, q: nat)
    requires IsPrime(q) && e >= 2 && Divides(e, q)
    ensures e == q
  {
    var k: nat :| e * k == q;
    assert k >= 1;
    MulLe(1, k, e);
  }

  lemma BezoutFactor(q: nat, a: nat, b: nat, k: nat, l: nat, m: nat, odd: bool)
    requires q * k == a * b
    requires if odd then l * a - m * q == 1 else m * q - l * a == 1
    ensures Divides(q, b)
  {
    var t := if odd then l * k - m * b else m * b - l * k;
    assert q * t == b by {
      assert l * (a * b) == (l * a) * b && l * (q * k) == q * (l * k) && (m * q) * b == q * (m * b) by {
        MulSwap(l, a, b);
        MulSwap(l, q, k);
        MulSwap(q, m, b);
        assert m * q == q * m;
      }
      Distribute(b, l * a, m * q);
      Distribute(b, m * q, l * a);
      Distribute(q, l * k, m * b);
      Distribute(q, m * b, l * k);
      assert 1 * b == b;
    }
    if t < 0 {
      MulLe(t, -1, q);
    }
    assert exists j: nat :: q * j == b by {
      if t >= 0 {
        assert q * t == b;
      } else {
        assert q * 0 == b;
      }
    }
  }

  /** q divides the order when the order divides q * e but not e. */
  lemma PrimeInOrder(o: nat, a: nat, d: nat, q: nat, e: nat)
    requires d >= 2 && IsOrderOf(o, a, d) && IsPrime(q) && One(a, d, q * e) && !One(a, d, e)
    ensures Divides(q, o)
  {
    hide One, IsPrime, Power;
    OrderDivides(o, a, d, q * e);
    var k: nat :| o * k == q * e;
    if !Divides(q, o) {
      assert q * e == o * k;
      assert Divides(q, o * k);
      PrimeDividesFactor(q, o, k);
      var j: nat :| q * j == k;
      PrimePositive(q);
      MulSwap(o, q, j);
      assert q * (o * j) == q * e;
      MulCancel(q, o * j, e);
      MultipleIsOne(o, a, d, j);
    }
  }

  lemma PrimePositive(q: nat)
    requires IsPrime(q)
    ensures q > 0
  {
  }

  lemma MulCancel(q: int, x: int, y: int)
    requires q > 0 && q * x == q * y
    ensures x == y
  {
    Distribute(q, x, y);
    if x > y {
      MulLe(1, x - y, q);
    } else if x < y {
      MulLe(x - y, -1, q);
    }
  }

  lemma {:induction false} MultipleIsOne(o: nat, a: nat, d: nat, j: nat)
    requires d >= 2 && IsOrderOf(o, a, d)
    ensures o * j >= 0 && One(a, d, o * j)
    decreases j
  {
    hide One;
    if j == 0 {
      assert One(a, d, 0) by {
        OneAtZero(a, d);
      }
    } else {
      MultipleIsOne(o, a, d, j - 1);
      Distribute(o, j, 1);
      OneSum(a, d, o, o * (j - 1));
    }
  }

  lemma OneAtZero(a: nat, d: nat)
    requires d >= 2
    ensures One(a, d, 0)
  {
    SmallMod(1, d);
  }

  // ----- the criterion

  ghost function Product(qs: seq<nat>): (r: int)
  {
    if qs == [] then 1 else Product(qs[..|qs| - 1]) * qs[|qs| - 1]
  }

  lemma ProductEmpty()
    ensures Product([]) == 1
  {
  }

  lemma ProductSnoc(qs: seq<nat>, q: nat)
    ensures Product(qs + [q]) == Product(qs) * q
  {
    var all := qs + [q];
    assert all[..|all| - 1] == qs && all[|all| - 1] == q;
  }

  /** Certificate for p: increasing primes q whose product is large, each with a
      witness w that a^((p-1)/q) - 1 is invertible modulo p. */
  ghost predicate Certified(p: nat, a: nat, qs: seq<nat>, es: seq<nat>, ws: seq<int>)
  {
    && p >= 2 && |qs| == |es| == |ws|
    && Power(a, p - 1) % p == 1
    && (forall i, j :: 0 <= i < j < |qs| ==> qs[i] < qs[j])
    && (forall i :: 0 <= i < |qs| ==> IsPrime(qs[i]) && qs[i] * es[i] == p - 1)
    && (forall i :: 0 <= i < |qs| ==> ((Power(a, es[i]) - 1) * ws[i]) % p == 1)
  }

  lemma ModOfDivisor(x: int, d: nat, p: nat)
    requires d > 0 && p > 0 && Divides(d, p)
    ensures x % d == (x % p) % d
  {
    var k: nat :| d * k == p;
    DivTimesMod(x, p);
    MulSwap(x / p, d, k);
    assert (x / p) * p == ((x / p) * k) * d;
    ModShift(x % p, (x / p) * k, d);
  }

  lemma WitnessMeansNotOne(p: nat, a: nat, e: nat, w: int, d: nat)
    requires p >= 2 && d >= 2 && Divides(d, p) && ((Power(a, e) - 1) * w) % p == 1
    ensures !One(a, d, e)
  {
    hide Power;
    var x := Power(a, e) - 1;
    ModOfDivisor(x * w, d, p);
    SmallMod(1, d);
    if One(a, d, e) {
      ModSub(Power(a, e), 1, d);
      SmallMod(0, d);
      ModMulLeft(x, w, d);
    }
  }

  /** All the certified primes divide the order together. */
  lemma {:induction false} ProductInOrder(o: nat, qs: seq<nat>)
    requires o > 0 && (forall i, j :: 0 <= i < j < |qs| ==> qs[i] < qs[j])
    requires forall i :: 0 <= i < |qs| ==> IsPrime(qs[i]) && Divides(qs[i], o)
    ensures Product(qs) > 0 && Divides(Product(qs), o)
  {
    hide IsPrime;
    if qs == [] {
      assert 1 * o == o;
    } else {
      var n := |qs| - 1;
      var rest, q := qs[..n], qs[n];
      ProductInOrder(o, rest);
      var k: nat :| Product(rest) * k == o;
      PrimeNotInProduct(q, rest);
      PrimeDividesFactor(q, Product(rest), k);
      var j: nat :| q * j == k;
      PrimePositive(q);
      MulLt(0, Product(rest), q);
      MulSwap(Product(rest), q, j);
      assert Product(qs) * j == o;
    }
  }

  lemma {:induction false} PrimeNotInProduct(q: nat, qs: seq<nat>)
    requires IsPrime(q) && Product(qs) > 0 && forall i :: 0 <= i < |qs| ==> IsPrime(qs[i]) && qs[i] < q
    ensures !Divides(q, Product(qs))
  {
    var n := |qs| - 1;
    if qs == [] {
      TooSmall(q, 1);
    } else if Divides(q, Product(qs)) {
      var rest := qs[..n];
      assert Product(rest) > 0 by {
        if Product(rest) <= 0 {
          MulLe(Product(rest), 0, qs[n]);
        }
      }
      PrimeNotInProduct(q, rest);
      PrimeDividesFactor(q, Product(rest), qs[n]);
      TooSmall(q, qs[n]);
    }
  }

  lemma TooSmall(q: nat, x: nat)
    requires 0 < x < q
    ensures !Divides(q, x)
  {
    if Divides(q, x) {
      var k: nat :| q * k == x;
      if k >= 1 {
        MulLe(1, k, q);
      }
    }
  }

  /** Every divisor of p exceeds the product of the certified primes. */
  lemma DivisorIsLarge(p: nat, a: nat, qs: seq<nat>, es: seq<nat>, ws: seq<int>, d: nat)
    requires Certified(p, a, qs, es, ws) && d >= 2 && Divides(d, p)
    ensures 0 < Product(qs) < d
  {
    hide IsPrime, Power, Divides, Product;
    ModOfDivisor(Power(a, p - 1), d, p);
    SmallMod(1, d);
    assert One(a, d, p - 1);
    var o := OrderExists(a, d, p - 1);
    OrderBelow(o, a, d);
    forall i | 0 <= i < |qs| ensures Divides(qs[i], o) {
      WitnessMeansNotOne(p, a, es[i], ws[i], d);
      PrimeInOrder(o, a, d, qs[i], es[i]);
    }
    ProductInOrder(o, qs);
    DivisorAtMost(Product(qs), o);
  }

  lemma DivisorAtMost(x: nat, y: nat)
    requires Divides(x, y) && y > 0
    ensures x <= y
  {
    var k: nat :| x * k == y;
    assert k >= 1;
    MulLe(1, k, x);
  }

  /** Pocklington's criterion. */
  lemma Pocklington(p: nat, a: nat, qs: seq<nat>, es: seq<nat>, ws: seq<int>)
    requires Certified(p, a, qs, es, ws) && Product(qs) * Product(qs) >= p
    ensures IsPrime(p)
  {
    hide Certified, Product;
    forall d: nat | 2 <= d < p ensures !Divides(d, p) {
      if Divides(d, p) {
        var k: nat :| d * k == p;
        assert k >= 2;
        assert k * d == p && Divides(k, p);
        DivisorIsLarge(p, a, qs, es, ws, d);
        DivisorIsLarge(p, a, qs, es, ws, k);
        MulLt(Product(qs), d, k);
        MulLt(Product(qs), k, Product(qs));
      }
    }
    assert p >= 2 by {
      CertifiedAtLeastTwo(p, a, qs, es, ws);
    }
  }

  lemma CertifiedAtLeastTwo(p: nat, a: nat, qs: seq<nat>, es: seq<nat>, ws: seq<int>)
    requires Certified(p, a, qs, es, ws)
    ensures p >= 2
  {
  }

  // ----- the certificate

  lemma AddExponents(p: nat, e: nat, r: nat, e': nat, r': nat)
    requires p >= 2 && Power(2, e) % p == r && Power(2, e') % p == r'
    ensures Power(2, e + e') % p == (r * r') % p
  {
    hide Power;
    PowerAdd(2, e, e');
    ModMul(Power(2, e), Power(2, e'), p);
  }

  lemma SquareExponent(p: nat, e: nat, r: nat, r': nat)
    requires p >= 2 && Power(2, e) % p == r && r' == (r * r) % p
    ensures Power(2, 2 * e) % p == r'
  {
    hide Power;
    AddExponents(p, e, r, e, r);
  }

  /** One hexadecimal digit d of the exponent: four squarings and a product. */
  lemma Window(p: nat, e: nat, r: nat, r1: nat, r2: nat, r3: nat, r4: nat, d: nat, r': nat)
    requires p >= 65536 && d < 16 && Power(2, e) % p == r
    requires r1 == (r * r) % p && r2 == (r1 * r1) % p && r3 == (r2 * r2) % p && r4 == (r3 * r3) % p
    requires Power(2, d) > 0 && r' == (r4 * Power(2, d)) % p
    ensures Power(2, 16 * e + d) % p == r'
  {
    hide Power;
    SquareExponent(p, e, r, r1);
    SquareExponent(p, 2 * e, r1, r2);
    SquareExponent(p, 4 * e, r2, r3);
    SquareExponent(p, 8 * e, r3, r4);
    AddExponents(p, 16 * e, r4, d, Power(2, d) % p);
    ModMul(r4, Power(2, d), p);
    assert r4 % p == r4 by {
      DivTimesMod(r3 * r3, p);
      SmallMod(r4, p);
    }
  }

  lemma SmallPowers()
    ensures Power(2, 0) == 1
    ensures Power(2, 1) == 2
    ensures Power(2, 2) == 4
    ensures Power(2, 3) == 8
    ensures Power(2, 4) == 16
    ensures Power(2, 5) == 32
    ensures Power(2, 6) == 64
    ensures Power(2, 7) == 128
    ensures Power(2, 8) == 256
    ensures Power(2, 9) == 512
    ensures Power(2, 10) == 1024
    ensures Power(2, 11) == 2048
    ensures Power(2, 12) == 4096
    ensures Power(2, 13) == 8192
    ensures Power(2, 14) == 16384
    ensures Power(2, 15) == 32768
  {
    assert Power(2, 1) == 2 * Power(2, 0);
    assert Power(2, 2) == 2 * Power(2, 1);
    assert Power(2, 3) == 2 * Power(2, 2);
    assert Power(2, 4) == 2 * Power(2, 3);
    assert Power(2, 5) == 2 * Power(2, 4);
    assert Power(2, 6) == 2 * Power(2, 5);
    assert Power(2, 7) == 2 * Power(2, 6);
    assert Power(2, 8) == 2 * Power(2, 7);
    assert Power(2, 9) == 2 * Power(2, 8);
    assert Power(2, 10) == 2 * Power(2, 9);
    assert Power(2, 11) == 2 * Power(2, 10);
    assert Power(2, 12) == 2 * Power(2, 11);
    assert Power(2, 13) == 2 * Power(2, 12);
    assert Power(2, 14) == 2 * Power(2, 13);
    assert Power(2, 15) == 2 * Power(2, 14);
  }

  lemma Witness(p: nat, a: nat, e: nat, r: int, w: int)
    requires p >= 2 && Power(a, e) % p == r && ((r - 1) * w) % p == 1
    ensures ((Power(a, e) - 1) * w) % p == 1
  {
    hide Power;
    ModSub(Power(a, e), 1, p);
    SmallMod(1, p);
    ModMulLeft(Power(a, e) - 1, w, p);
    ModMulLeft(r - 1, w, p);
  }

  /** No divisor up to the square root. */
  lemma TrialDivision(q: nat, s: nat)
    requires q >= 2 && s * s > q && forall e :: 2 <= e < s ==> q % e != 0
    ensures IsPrime(q)
  {
    forall d: nat | 2 <= d < q ensures !Divides(d, q) {
      if Divides(d, q) {
        var k: nat :| d * k == q;
        assert k >= 2;
        DivModIs(q, k, 0, d);
        DivModIs(q, d, 0, k);
        if d >= s && k >= s {
          MulLe(s, d, s);
          MulLe(s, k, d);
        }
      }
    }
  }

  lemma SmallPrimes()
    ensures IsPrime(5) && IsPrime(13) && IsPrime(277) && IsPrime(349)
  {
    TrialDivision(5, 3);
    TrialDivision(13, 4);
    TrialDivision(277, 17);
    TrialDivision(349, 19);
  }

  lemma FactorPowerA()
    ensures Power(2, 322428) % 1612141 == 1524529
  {
    hide Power;
    SmallPowers();
    assert Power(2, 4) % 1612141 == 16;
    Window(1612141, 4, 16, 256, 65536, 223672, 1204072, 14, 1358372);
    Window(1612141, 78, 1358372, 120975, 1546768, 1455479, 1359801, 11, 704941);
    Window(1612141, 1259, 704941, 962372, 983294, 34955, 1461288, 7, 36508);
    Window(1612141, 20151, 36508, 1205598, 515529, 645286, 571470, 12, 1524529);
  }

  lemma FactorPowerB()
    ensures Power(2, 5820) % 1612141 == 1157520
  {
    hide Power;
    SmallPowers();
    assert Power(2, 1) % 1612141 == 2;
    Window(1612141, 1, 2, 4, 16, 256, 65536, 6, 970022);
    Window(1612141, 22, 970022, 464424, 1307386, 167015, 746643, 11, 815196);
    Window(1612141, 363, 815196, 652524, 174643, 81870, 1026763, 12, 1157520);
  }

  lemma FactorPowerFull()
    ensures Power(2, 1612140) % 1612141 == 1
  {
    hide Power;
    FactorPowerA();
    AddExponents(1612141, 322428, 1524529, 322428, 1524529);
    AddExponents(1612141, 644856, 459243, 644856, 459243);
    AddExponents(1612141, 1289712, 623147, 322428, 1524529);
  }

  lemma FactorProduct(qs: seq<nat>)
    requires qs == [5, 277]
    ensures Product(qs) == 1385
  {
    hide Product;
    ProductEmpty();
    ProductSnoc([], 5);
    assert [] + [5] == [5];
    ProductSnoc([5], 277);
    assert [5] + [277] == qs;
  }

  lemma FactorIsPrime()
    ensures IsPrime(1612141)
  {
    hide Power, IsPrime, Product;
    FactorPowerA();
    FactorPowerB();
    FactorPowerFull();
    SmallPrimes();
    Witness(1612141, 2, 322428, 1524529, 67825);
    Witness(1612141, 2, 5820, 1157520, 300104);
    var qs, es, ws := [5, 277], [322428, 5820], [67825, 300104];
    assert Certified(1612141, 2, qs, es, ws);
    hide Certified;
    assert Product(qs) * Product(qs) >= 1612141 by {
      FactorProduct(qs);
    }
    Pocklington(1612141, 2, qs, es, ws);
  }

  lemma PrimePowerA()
    ensures Power(2, 1308643460147841190) % 17012364981921935471 == 13598938123099823408
  {
    hide Power;
    SmallPowers();
    assert Power(2, 1) % 17012364981921935471 == 2;
    Window(17012364981921935471, 1, 2, 4, 16, 256, 65536, 2, 262144);
    Window(17012364981921935471, 18, 262144, 68719476736, 9941382877269088229, 2933649943684303887, 4306321467698194902, 2, 212920888870844137);
    Window(17012364981921935471, 290, 212920888870844137, 16268245035359546765, 3800665309766674079, 2075550635403187452, 14506391271863720209, 9, 9881199076260881652);
    Window(17012364981921935471, 4649, 9881199076260881652, 11196385657739941363, 3647721628880282471, 3581711867715433323, 2190501203441129212, 3, 511644645607098225);
    Window(17012364981921935471, 74387, 511644645607098225, 3981472362651389729, 5757624812976887446, 14474424725042716893, 820371410957657666, 12, 8805397843944512149);
    Window(17012364981921935471, 1190204, 8805397843944512149, 15301663898845106822, 12856185211143791230, 4600592342404152321, 14474100340244320324, 4, 10424860678923964061);
    Window(17012364981921935471, 19043268, 10424860678923964061, 569097574161410829, 12235671914752676535, 11854336127759082982, 5615362946643359391, 11, 16916951928293589843);
    Window(17012364981921935471, 304692299, 16916951928293589843, 14755794989119455777, 5041097175567702346, 13496269073804680848, 14400556033245722192, 2, 6565129187217082355);
    Window(17012364981921935471, 4875076786, 6565129187217082355, 3954139652886396853, 17000494141311988940, 11678309998893283160, 14704555025594670421, 3, 15562250313225750542);
    Window(17012364981921935471, 78001228579, 15562250313225750542, 7819147004624693342, 12051503475905272999, 12082619506708595241, 4231928385395314075, 12, 15391114982676141722);
    Window(17012364981921935471, 1248019657276, 15391114982676141722, 15844106890110414351, 7499150746688278724, 50879875497031299, 14037023646274436864, 0, 14037023646274436864);
    Window(17012364981921935471, 19968314516416, 14037023646274436864, 14942627933650766911, 6237313171849336179, 843398371946917834, 5114076977557074559, 0, 5114076977557074559);
    Window(17012364981921935471, 319493032262656, 5114076977557074559, 10014114818912873907, 11672378494025893331, 13791094207718093618, 9381851644511807924, 8, 3010558544029927133);
    Window(17012364981921935471, 5111888516202504, 3010558544029927133, 3462850482014432992, 8358873006390407151, 69044247837008608, 7976947464582668690, 10, 2459012410123712480);
    Window(17012364981921935471, 81790216259240074, 2459012410123712480, 7299450754422072130, 2267860869257613894, 3182109440245543042, 12971757144614886344, 6, 13598938123099823408);
  }

  lemma PrimePowerB()
    ensures Power(2, 48746031466825030) % 17012364981921935471 == 12202205046083324832
  {
    hide Power;
    SmallPowers();
    assert Power(2, 10) % 17012364981921935471 == 1024;
    Window(17012364981921935471, 10, 1024, 1048576, 1099511627776, 10151634274518201445, 2946048594746780661, 13, 10496543800322677034);
    Window(17012364981921935471, 173, 10496543800322677034, 12587899170057185545, 9685300726694682811, 14719836087156536646, 15566953893310103284, 2, 11230720627474606723);
    Window(17012364981921935471, 2770, 11230720627474606723, 14638933006902971987, 4699524674012201636, 14057828639973796605, 13422905879898803848, 14, 2047814957142412015);
    Window(17012364981921935471, 44334, 2047814957142412015, 8209517057413194470, 12745039138348344502, 1879260894320773981, 2422545933570069831, 4, 4736004973277246354);
    Window(17012364981921935471, 709348, 4736004973277246354, 11300834281412092344, 7454626565353804610, 304133969123628447, 11301873470774726730, 1, 5591381959627517989);
    Window(17012364981921935471, 11349569, 5591381959627517989, 13909955935974191049, 6644078086488632085, 2446771450752391423, 5132434672942570108, 14, 14701940832863551790);
    Window(17012364981921935471, 181593118, 14701940832863551790, 16197220809418869297, 12577410668304697147, 12443440044911285028, 5430327735030905407, 1, 10860655470061810814);
    Window(17012364981921935471, 2905489889, 10860655470061810814, 11869232021668127307, 15746235606959636952, 8433121848902269163, 15911672911535164989, 12, 16854364887022941014);
    Window(17012364981921935471, 46487838236, 16854364887022941014, 11757026120659354485, 6575099700171727653, 7327478016295473346, 8527480386413274514, 10, 4796679961240205713);
    Window(17012364981921935471, 743805411786, 4796679961240205713, 10999001710425620936, 9484845423752553612, 7552505121014230037, 1414537074864491827, 4, 5620228215909933761);
    Window(17012364981921935471, 11900886588580, 5620228215909933761, 122485709424866954, 7244715117493022537, 12259584202439527564, 3397428581154855752, 5, 6643524705423771238);
    Window(17012364981921935471, 190414185417285, 6643524705423771238, 10975600265624194242, 390802472951472930, 2288011108082079908, 2188919478122724846, 4, 997981686119726594);
    Window(17012364981921935471, 3046626966676564, 997981686119726594, 854255881659381221, 3064055398296317000, 15239047081256623205, 8696841944806019686, 6, 12202205046083324832);
  }

  lemma PrimePowerC()
    ensures Power(2, 10552653261670) % 17012364981921935471 == 8940698228350887942
  {
    hide Power;
    SmallPowers();
    assert Power(2, 9) % 17012364981921935471 == 512;
    Window(17012364981921935471, 9, 512, 262144, 68719476736, 9941382877269088229, 2933649943684303887, 9, 4940652757233268696);
    Window(17012364981921935471, 153, 4940652757233268696, 3844087863654276212, 2032792979412279877, 15764823421811135793, 537677594792190204, 8, 1546544411425208456);
    Window(17012364981921935471, 2456, 1546544411425208456, 9569926974432998949, 5074668427282606582, 13923908832418769686, 13169914950422777276, 15, 16122964021750622582);
    Window(17012364981921935471, 39311, 16122964021750622582, 865580283310457130, 4240040866271744137, 4934434709147221698, 15914226752302745141, 11, 13657448335515621803);
    Window(17012364981921935471, 628987, 13657448335515621803, 16634635413324608137, 7613740743091342299, 9522564144357868510, 12064512938427391690, 2, 14233321789865695818);
    Window(17012364981921935471, 10063794, 14233321789865695818, 12280814139426259324, 2446084133502937509, 5793018087965637459, 12767468565734147695, 6, 524469074732549872);
    Window(17012364981921935471, 161020710, 524469074732549872, 10436728336780812443, 13222180641031944400, 8169559331919375548, 5160645680077910798, 2, 3630217738389707721);
    Window(17012364981921935471, 2576331362, 3630217738389707721, 10178892728449974419, 13901612959271604137, 1322913223464239004, 13017286599545364662, 11, 1027029197233944719);
    Window(17012364981921935471, 41221301803, 1027029197233944719, 1978176801238905108, 9538811222627083113, 2943974862610426673, 2699145617181968138, 6, 2621669680426606122);
    Window(17012364981921935471, 659540828854, 2621669680426606122, 13531627653597459996, 8129586354747981701, 3331580986880168875, 10240790117834131810, 6, 8940698228350887942);
  }

  lemma PrimePowerFull()
    ensures Power(2, 17012364981921935470) % 17012364981921935471 == 1
  {
    hide Power;
    PrimePowerA();
    AddExponents(17012364981921935471, 1308643460147841190, 13598938123099823408, 1308643460147841190, 13598938123099823408);
    AddExponents(17012364981921935471, 2617286920295682380, 12532576095255616852, 1308643460147841190, 13598938123099823408);
    AddExponents(17012364981921935471, 3925930380443523570, 6982117646994036131, 3925930380443523570, 6982117646994036131);
    AddExponents(17012364981921935471, 7851860760887047140, 11822653838298552022, 7851860760887047140, 11822653838298552022);
    AddExponents(17012364981921935471, 15703721521774094280, 2501278180361596816, 1308643460147841190, 13598938123099823408);
  }

  lemma PrimeProduct(qs: seq<nat>)
    requires qs == [13, 349, 1612141]
    ensures Product(qs) == 7314283717
  {
    hide Product;
    ProductEmpty();
    ProductSnoc([], 13);
    assert [] + [13] == [13];
    ProductSnoc([13], 349);
    assert [13] + [349] == [13, 349];
    ProductSnoc([13, 349], 1612141);
    assert [13, 349] + [1612141] == qs;
  }

  /** The modulus of the shares is prime. */
  lemma PrimeIsPrime()
    ensures IsPrime(PRIME)
  {
    hide Power, IsPrime, Product;
    PrimePowerA();
    PrimePowerB();
    PrimePowerC();
    PrimePowerFull();
    SmallPrimes();
    FactorIsPrime();
    Witness(17012364981921935471, 2, 1308643460147841190, 13598938123099823408, 3851227084009144935);
    Witness(17012364981921935471, 2, 48746031466825030, 12202205046083324832, 15452804488454631121);
    Witness(17012364981921935471, 2, 10552653261670, 8940698228350887942, 15593818124150922784);
    var qs, es, ws := [13, 349, 1612141], [1308643460147841190, 48746031466825030, 10552653261670], [3851227084009144935, 15452804488454631121, 15593818124150922784];
    assert Certified(PRIME, 2, qs, es, ws);
    hide Certified;
    assert Product(qs) * Product(qs) >= PRIME by {
      PrimeProduct(qs);
    }
    Pocklington(PRIME, 2, qs, es, ws);
  }
}
