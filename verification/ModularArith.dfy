/** Modular arithmetic on 1024-bit integers. */
module ModularArith {
  import opened Integers
  import opened Words
  import opened Bits
  import opened Vectors
  import opened LongDivision
  import opened StackInt
  import opened IntArith
  import opened Residues

  /** (x - y) mod n, also when x < y. */
  method SubModulo(x: Int1024, y: Int1024, n: Int1024) returns (z: Int1024)
    requires x.Valid() && y.Valid() && n.Valid() && n.Value() > 0
    ensures fresh(z) && fresh(z.words) && z.Valid()
    ensures z.Value() == (x.Value() - y.Value()) % n.Value()
  {
    hide Val, Pow, Trimmed;
    var cmp := x.Cmp(y);
    if cmp == 1 {
      var sub := Sub(x, y);
      z := Mod(sub, n);
    } else if cmp == 0 {
      z := new Int1024.Zero();
      SmallMod(0, n.Value());
    } else {
      var sub := Sub(y, x);
      var mod := Mod(sub, n);
      ModOfNegated(sub.Value(), n.Value());
      DivTimesMod(sub.Value(), n.Value());
      mod.EqualsWordIs(0);
      if mod.IsZero() {
        return mod;
      }
      z := Sub(n, mod);
    }
  }

  /** The bit of weight 2^n of a number. */
  ghost predicate BitAt(v: nat, n: nat)
  {
    Shr(v, n) % 2 == 1
  }

  /** Whether the bit of weight 2^n is set; no other bit than the 1024 is. */
  method IsBitSet(x: Int1024, n: int) returns (b: bool)
    requires x.Valid()
    ensures b <==> 0 <= n <= 1023 && BitAt(x.Value(), n)
  {
    hide Val, Pow, Pow2, Bitwise, Shr;
    if n > 1023 || n < 0 {
      return false;
    }
    var word := n / 64;
    var bit := n % 64;
    WordBit(x.words[..], word, bit, n);
    if word >= x.length {
      ShrZero(bit);
      return false;
    }
    AndBit(x.words[word], bit);
    b := Bitwise(And, x.words[word], Pow2(bit)) != 0;
  }

  lemma {:induction false} ShrZero(k: nat)
    ensures Shr(0, k) == 0
  {
    if k > 0 {
      ShrZero(k - 1);
    }
  }

  lemma {:induction false} AndZero(a: nat)
    ensures Bitwise(And, a, 0) == 0
  {
    if a > 0 {
      AndZero(a / 2);
    }
  }

  lemma {:induction false} AndBit(w: nat, k: nat)
    ensures Bitwise(And, w, Pow2(k)) != 0 <==> Shr(w, k) % 2 == 1
    decreases k
  {
    if k == 0 {
      AndZero(w / 2);
    } else {
      AndBit(w / 2, k - 1);
    }
  }

  lemma {:induction false} ShrAdd(v: nat, a: nat, b: nat)
    ensures Shr(v, a + b) == Shr(Shr(v, a), b)
    decreases a
  {
    if a > 0 {
      ShrAdd(v / 2, a - 1, b);
    }
  }

  lemma {:induction false} PowIsPow2(i: nat)
    ensures Pow(i) == Pow2(64 * i)
  {
    if i > 0 {
      hide Pow2;
      var k := TopExponent();
      Pow2Add(k, 1);
      PowIsPow2(i - 1);
      Pow2Add(k + 1, 64 * (i - 1));
      assert Pow2(1) == 2 by { OneBit(); }
    } else {
      OneBit();
    }
  }

  lemma OneBit()
    ensures Pow2(1) == 2 && Pow2(0) == 1
  {
    assert Pow2(1) == 2 * Pow2(0);
  }

  /** The bits below 2^m of a sum are those of its low part. */
  lemma {:induction false} LowBits(w: nat, r: nat, m: nat, k: nat)
    requires k < m
    ensures Shr(w + Pow2(m) * r, k) % 2 == Shr(w, k) % 2
    decreases k
  {
    var half := Pow2(m - 1) * r;
    assert Pow2(m) * r == 2 * half by {
      MulSwap(2, Pow2(m - 1), r);
    }
    if k > 0 {
      LowBits(w / 2, r, m - 1, k - 1);
      assert (w + 2 * half) / 2 == w / 2 + half;
    }
  }

  /** A bit of a vector is a bit of one of its words. */
  lemma WordBit(s: seq<Word>, i: nat, k: nat, n: nat)
    requires i < |s| && k < 64 && n == 64 * i + k
    ensures BitAt(Val(s), n) <==> Shr(s[i], k) % 2 == 1
  {
    hide Val, Pow, Pow2, Shr;
    PowIsPow2(i);
    ShrAdd(Val(s), 64 * i, k);
    ShrIsDiv(Val(s), 64 * i);
    ValSplit(s, i);
    ValBound(s[..i]);
    var t := s[i..];
    assert Pow(i) * Val(t) == Val(t) * Pow(i);
    DivModIs(Val(s), Val(t), Val(s[..i]), Pow(i));
    assert t == [s[i]] + t[1..];
    ValCons(s[i], t[1..]);
    var e := TopExponent();
    Pow2Add(e, 1);
    OneBit();
    LowBits(s[i], Val(t[1..]), e + 1, k);
  }

  /** The top bit is set from half the capacity on. */
  lemma TopBitSet(x: Int1024, n: nat)
    requires x.Valid() && n == 1023
    ensures BitAt(x.Value(), n) <==> 2 * x.Value() >= Capacity()
  {
    hide Val, Pow, Pow2, Shr, BitAt;
    var s := x.words[..];
    var k := TopExponent();
    WordBit(s, WORDS - 1, k, n);
    ShrIsDiv(s[WORDS - 1], k);
    TopBitOfValue(s);
    HighestBit(s[WORDS - 1]);
  }

  lemma HighestBit(w: Word)
    ensures (w / TOP) % 2 == 1 <==> w >= TOP
  {
  }

  lemma TopBitOfValue(s: seq<Word>)
    requires |s| == WORDS
    ensures 2 * Val(s) >= Capacity() <==> s[WORDS - 1] >= TOP
  {
    hide Val, Pow;
    var n := WORDS - 1;
    ValExtend(s, n);
    assert s[..n + 1] == s;
    ValBound(s[..n]);
    PowStep(n);
    if s[n] >= TOP {
      MulLe(TOP, s[n], Pow(n));
    } else {
      MulLe(s[n] + 1, TOP, Pow(n));
      Distribute(Pow(n), s[n], 1);
    }
  }

  /** (x + y) mod n, also when x + y does not fit 1024 bits. */
  method AddModulo(x: Int1024, y: Int1024, n: Int1024) returns (z: Int1024)
    requires x.Valid() && y.Valid() && n.Valid() && n.Value() > 0
    ensures fresh(z) && fresh(z.words) && z.Valid()
    ensures z.Value() == (x.Value() + y.Value()) % n.Value()
  {
    hide *;
    TopBitSet(x, 1023);
    TopBitSet(y, 1023);
    var setX := IsBitSet(x, 1023);
    var setY := IsBitSet(y, 1023);
    if !setX && !setY {
      z := AddThenMod(x, y, n);
      return;
    }
    var X := Reduce(x, n);
    var Y := Reduce(y, n);
    ModAdd(x.Value(), y.Value(), n.Value());
    TopBitSet(X, 1023);
    TopBitSet(Y, 1023);
    setX := IsBitSet(X, 1023);
    setY := IsBitSet(Y, 1023);
    if !setX && !setY {
      z := AddThenMod(X, Y, n);
      return;
    }
    z := AddReduced(X, Y, n);
  }

  method AddThenMod(x: Int1024, y: Int1024, n: Int1024) returns (z: Int1024)
    requires x.Valid() && y.Valid() && n.Valid() && n.Value() > 0
    requires 2 * x.Value() < Capacity() && 2 * y.Value() < Capacity()
    ensures fresh(z) && fresh(z.words) && z.Valid()
    ensures z.Value() == (x.Value() + y.Value()) % n.Value()
  {
    hide *;
    var tmp := Add(x, y);
    SmallMod(x.Value() + y.Value(), Capacity());
    z := Mod(tmp, n);
  }

  /** x itself when it is already below n. */
  method Reduce(x: Int1024, n: Int1024) returns (r: Int1024)
    requires x.Valid() && n.Valid() && n.Value() > 0
    ensures r.Valid() && r.Value() == x.Value() % n.Value() < n.Value()
  {
    hide *;
    var cmp := x.Cmp(n);
    if cmp >= 0 {
      r := Mod(x, n);
      DivTimesMod(x.Value(), n.Value());
    } else {
      r := x;
      SmallMod(x.Value(), n.Value());
    }
  }

  /** The sum of two residues without forming it: subtract n first. */
  method AddReduced(x: Int1024, y: Int1024, n: Int1024) returns (z: Int1024)
    requires x.Valid() && y.Valid() && n.Valid()
    requires x.Value() < n.Value() && y.Value() < n.Value()
    ensures fresh(z) && fresh(z.words) && z.Valid()
    ensures z.Value() == (x.Value() + y.Value()) % n.Value()
  {
    hide Val, Pow, Trimmed;
    var diff := Sub(n, x);
    var cmp := diff.Cmp(y);
    if cmp <= 0 {
      z := Sub(y, diff);
      DivModIs(x.Value() + y.Value(), 1, z.Value(), n.Value());
    } else {
      BelowCapacity(n.words[..]);
      SmallMod(x.Value() + y.Value(), n.Value());
      SmallMod(x.Value() + y.Value(), Capacity());
      z := Add(x, y);
    }
  }

  /** (x * y) mod n for all x and y, through the double-width product when the
      operands are long. */
  method MulModulo(x: Int1024, y: Int1024, n: Int1024) returns (z: Int1024)
    requires x.Valid() && y.Valid() && n.Valid() && n.Value() > 0
    ensures fresh(z) && fresh(z.words) && z.Valid()
    ensures z.Value() == (x.Value() * y.Value()) % n.Value()
  {
    hide Val, Pow, Trimmed;
    if x.length + y.length > WORDS {
      if n.length < WORDS / 2 {
        var X := Mod(x, n);
        var Y := Mod(y, n);
        ModMul(x.Value(), y.Value(), n.Value());
        ResidueProductFits(X.Value(), Y.Value(), x.Value(), y.Value(), n);
        z := MulThenMod(X, Y, n);
        return;
      }
      z := MulModuloBig(x, y, n);
      return;
    }
    ShortProductFits(x, y);
    z := MulThenMod(x, y, n);
  }

  method MulThenMod(x: Int1024, y: Int1024, n: Int1024) returns (z: Int1024)
    requires x.Valid() && y.Valid() && n.Valid() && n.Value() > 0
    requires 0 <= x.Value() * y.Value() < Capacity()
    ensures fresh(z) && fresh(z.words) && z.Valid()
    ensures z.Value() == (x.Value() * y.Value()) % n.Value()
  {
    hide Val, Pow, Trimmed;
    var xy := Mul(x, y);
    SmallMod(x.Value() * y.Value(), Capacity());
    z := Mod(xy, n);
  }

  lemma ShortProductFits(x: Int1024, y: Int1024)
    requires x.Valid() && y.Valid() && x.length + y.length <= WORDS
    ensures 0 <= x.Value() * y.Value() < Capacity()
  {
    hide Val, Pow, Trimmed;
    TrimmedRange(x.words[..], x.length);
    TrimmedRange(y.words[..], y.length);
    ProductBelow(x.Value(), Pow(x.length), y.Value(), Pow(y.length));
    PowAdd(x.length, y.length);
    PowMonotone(x.length + y.length, WORDS);
  }

  lemma ProductBelow(a: nat, p: nat, b: nat, q: nat)
    requires a < p && b < q
    ensures 0 <= a * b < p * q
  {
    MulLe(0, a, b);
    MulLe(a, p, b);
    MulLt(b, q, p);
    assert p * b == b * p && p * q == q * p;
  }

  lemma ResidueProductFits(a: nat, b: nat, x: nat, y: nat, n: Int1024)
    requires n.Valid() && n.Value() > 0 && n.length < WORDS / 2
    requires a == x % n.Value() && b == y % n.Value()
    ensures 0 <= a * b < Capacity()
  {
    hide Val, Pow, Trimmed;
    TrimmedRange(n.words[..], n.length);
    DivTimesMod(x, n.Value());
    DivTimesMod(y, n.Value());
    ProductBelow(a, Pow(n.length), b, Pow(n.length));
    PowAdd(n.length, n.length);
    PowMonotone(n.length + n.length, WORDS);
  }

  /** The residue of the full double-width product. */
  method MulModuloBig(x: Int1024, y: Int1024, n: Int1024) returns (z: Int1024)
    requires x.Valid() && y.Valid() && n.Valid() && n.length >= 2 && n.Value() > 0
    ensures fresh(z) && fresh(z.words) && z.Valid()
    ensures z.Value() == (x.Value() * y.Value()) % n.Value()
  {
    hide Val, Pow, Trimmed;
    LoosePadded(x);
    LoosePadded(y);
    n.EqualsWordIs(0);
    var words := Product(x.words, x.length, y.words, y.length, 2 * WORDS);
    var highest := TrimmedLength(words);
    if highest <= WORDS {
      var low := FirstWords(words, highest);
      var xy := new Int1024(low, highest);
      z := Mod(xy, n);
      return;
    }
    TrimmedTop(n.words[..], n.length);
    var q, ql, r, rl := Divide(words, highest, n.words, n.length);
    DivModIs(x.Value() * y.Value(), Val(q[..]), Val(r[..]), n.Value());
    BelowCapacity(n.words[..]);
    TrimmedWithin(r[..], rl);
    var low := FirstWords(r, rl);
    z := new Int1024(low, rl);
  }

  lemma TrimmedWithin(s: seq<Word>, len: nat)
    requires Trimmed(s, len) && Val(s) < Capacity()
    ensures len <= WORDS
  {
    hide Val, Pow;
    if len > WORDS {
      TrimmedRange(s, len);
      PowMonotone(WORDS, len - 1);
    }
  }

  method FirstWords(words: array<Word>, len: nat) returns (low: array<Word>)
    requires words.Length == 2 * WORDS && len <= WORDS && Trimmed(words[..], len)
    ensures fresh(low) && low.Length == WORDS
    ensures Trimmed(low[..], len) && Val(low[..]) == Val(words[..])
  {
    hide Val, Pow;
    low := new Word[WORDS](i requires 0 <= i < WORDS reads words => words[i]);
    ValTrim(words[..], WORDS);
    assert words[..][..WORDS] == low[..];
  }
}
