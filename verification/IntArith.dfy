/** Products, quotients and residues of 1024-bit integers. */
module IntArith {
  import opened Integers
  import opened Words
  import opened WordDivision
  import opened Vectors
  import opened LongDivision
  import opened StackInt

  method Add(x: Int1024, y: Int1024) returns (z: Int1024)
    requires x.Valid() && y.Valid()
    ensures fresh(z) && fresh(z.words) && z.Valid()
    ensures z.Value() == (x.Value() + y.Value()) % Capacity()
  {
    hide Val, Pow, Trimmed;
    z := new Int1024.Clone(x);
    z.Inc(y);
  }

  method Sub(x: Int1024, y: Int1024) returns (z: Int1024)
    requires x.Valid() && y.Valid()
    ensures fresh(z) && fresh(z.words) && z.words.Length == WORDS
    ensures z.Value() == (x.Value() - y.Value()) % Capacity()
    ensures x.Value() >= y.Value() ==> z.Valid() && z.Value() == x.Value() - y.Value()
    ensures z.Valid() <==> y.Value() - x.Value() <= Capacity() - Pow(WORDS - 1)
  {
    hide Val, Pow;
    PowMonotone(WORDS - 1, WORDS);
    z := new Int1024.Clone(x);
    z.Dec(y);
    BelowCapacity(x.words[..]);
    if x.Value() >= y.Value() {
      SmallMod(x.Value() - y.Value(), Capacity());
    }
  }

  // ----- multiplication

  /** The words from the length on are zero. */
  ghost predicate Padded(s: seq<Word>, len: nat)
  {
    len <= |s| && forall k :: len <= k < |s| ==> s[k] == 0
  }

  lemma LoosePadded(x: Int1024)
    requires x.Loose()
    ensures Padded(x.words[..], x.length) && x.length <= WORDS
    ensures x.Value() == Val(x.words[..x.length])
    ensures x.length == 0 ==> x.Value() == 0
    ensures x.length < WORDS ==> x.Valid()
  {
    hide Val, Pow;
    if x.length < WORDS {
      TrimmedRange(x.words[..], x.length);
      assert x.words[..][..x.length] == x.words[..x.length];
    } else {
      assert x.words[..] == x.words[..x.length];
    }
  }

  /** The schoolbook product in w words, enough for both lengths together. */
  method Product(x: array<Word>, xl: nat, y: array<Word>, yl: nat, w: nat) returns (words: array<Word>)
    requires Padded(x[..], xl) && Padded(y[..], yl) && xl + yl <= w
    ensures fresh(words) && words.Length == w
    ensures Val(words[..]) == Val(x[..]) * Val(y[..])
  {
    hide Val, Pow;
    ValTrim(x[..], xl);
    ValTrim(y[..], yl);
    assert x[..][..xl] == x[..xl] && y[..][..yl] == y[..yl];
    words := new Word[w](_ => 0);
    ValZeros(words[..]);
    EmptyVectors(y[..0], [], []);
    for i := 0 to yl
      invariant fresh(words)
      invariant Val(words[..]) == Val(x[..xl]) * Val(y[..i])
      invariant forall k :: i + xl <= k < w ==> words[k] == 0
    {
      var d := y[i];
      ghost var W := words[..];
      ValExtend(y[..], i);
      assert y[..][..i] == y[..i] && y[..][..i + 1] == y[..i + 1];
      if d != 0 {
        assert words[i..i + xl] == W[i..i + xl];
        MulRow(words, i, x, xl, d);
        ZerosKept(W, words[..], i + xl + 1);
        RowAdded(W, words[..], i, xl, Val(x[..xl]) * d);
      }
      ProductRow(Val(x[..xl]), Val(y[..i]), d, Pow(i));
    }
  }

  lemma ZerosKept(W: seq<Word>, W': seq<Word>, m: nat)
    requires |W| == |W'| && m <= |W| && W'[m..] == W[m..]
    requires forall k :: m <= k < |W| ==> W[k] == 0
    ensures forall k :: m <= k < |W| ==> W'[k] == 0
  {
    forall k | m <= k < |W| ensures W'[k] == 0 {
      assert W'[k] == W'[m..][k - m];
    }
  }

  /** Adding t to the window at i adds t * B^i to the whole. */
  lemma RowAdded(W: seq<Word>, W': seq<Word>, i: nat, l: nat, t: nat)
    requires |W| == |W'| && i + l < |W|
    requires W'[..i] == W[..i]
    requires forall k :: i + l <= k < |W| ==> W[k] == 0
    requires forall k :: i + l + 1 <= k < |W| ==> W'[k] == 0
    requires Val(W'[i..i + l + 1]) == Val(W[i..i + l]) + t
    ensures Val(W') == Val(W) + Pow(i) * t
  {
    hide Val, Pow;
    WindowValue(W, i, i + l);
    WindowValue(W', i, i + l + 1);
    ScaledSum(Val(W[..i]), Pow(i), Val(W[i..i + l]), t, Val(W'[i..i + l + 1]), Val(W), Val(W'));
  }

  lemma WindowValue(W: seq<Word>, i: nat, m: nat)
    requires i <= m <= |W| && forall k :: m <= k < |W| ==> W[k] == 0
    ensures Val(W) == Val(W[..i]) + Pow(i) * Val(W[i..m])
  {
    hide Val, Pow;
    ValTrim(W, m);
    PrefixSplit(W, i, m);
  }

  lemma ScaledSum(a: int, p: int, b: int, t: int, b': int, v: int, v': int)
    requires b' == b + t && v == a + p * b && v' == a + p * b'
    ensures v' == v + p * t
  {
    Distribute(p, b, t);
  }

  lemma ProductRow(x: int, y: int, d: int, p: int)
    ensures x * (y + d * p) == x * y + p * (x * d)
  {
    Distribute(x, y, d * p);
    MulSwap(p, x, d);
    assert d * p == p * d;
  }

  /** A single-word factor; on overflow the words wrap and the length stays. */
  method MulAddWW(x: Int1024, y: Word) returns (z: Int1024)
    requires x.Loose() && x.length > 0 && y > 0
    ensures fresh(z) && fresh(z.words) && z.Loose()
    ensures z.Value() == (x.Value() * y) % Capacity()
    ensures z.Valid() <==> x.length < WORDS || (x.Value() * y) % Capacity() >= Pow(WORDS - 1)
    ensures x.length == WORDS ==> z.length == WORDS
  {
    hide Val, Pow, Trimmed;
    var m := x.length;
    LoosePadded(x);
    z := new Int1024.Zero();
    ghost var X := x.Value();
    if x.Valid() {
      TrimmedRange(x.words[..], m);
      MulLe(1, y, X);
    }
    TrimmedZeros(z.words[..], 0);
    var nxt := MulAddVWW(z.words, x.words, y, 0, m);
    assert forall k :: m <= k < WORDS ==> z.words[k] == z.words[0 + m..][k - m];
    z.length := m;
    FinishProduct(z, m, nxt, X * y);
  }

  method FinishProduct(z: Int1024, m: nat, nxt: Word, ghost total: nat)
    requires z.words.Length == WORDS && z.length == m && 0 < m <= WORDS
    requires m < WORDS ==> total >= Pow(m - 1)
    requires Val(z.words[..m]) + nxt * Pow(m) == total
    requires forall k :: m <= k < WORDS ==> z.words[k] == 0
    modifies z, z.words
    ensures z.Value() == total % Capacity() && z.Loose()
    ensures z.Valid() <==> m < WORDS || total % Capacity() >= Pow(WORDS - 1)
    ensures m == WORDS ==> z.length == WORDS
  {
    hide Val, Pow, Trimmed;
    if m < WORDS && nxt > 0 {
      z.words[m] := nxt;
      z.length := m + 1;
    }
    BelowCapacity(z.words[..]);
    if m < WORDS {
      FinishShort(z.words[..], m, nxt, total);
      SmallMod(total, Capacity());
    } else {
      assert z.words[..m] == z.words[..];
      DivModIs(total, nxt, z.Value(), Capacity());
      TrimmedFull(z.words[..]);
    }
  }

  lemma FinishShort(s: seq<Word>, m: nat, nxt: Word, total: nat)
    requires 0 < m < |s| && s[m] == nxt && forall k :: m < k < |s| ==> s[k] == 0
    requires total >= Pow(m - 1) && Val(s[..m]) + nxt * Pow(m) == total
    ensures Val(s) == total && Trimmed(s, if nxt > 0 then m + 1 else m)
  {
    hide Val, Pow;
    ValExtend(s, m);
    ValTrim(s, m + 1);
    if nxt == 0 {
      NoCarry(s, m, total);
    }
  }

  /** x * y modulo 2^1024. The result is canonical except where the single-word
      path overflows into a value with a zero top word. */
  method Mul(x: Int1024, y: Int1024) returns (z: Int1024)
    requires x.Loose() && y.Loose()
    ensures fresh(z) && fresh(z.words) && z.Loose()
    ensures z.Value() == (x.Value() * y.Value()) % Capacity()
    ensures z.Valid() <==> !(x.length == WORDS && y.length == 1 && (x.Value() * y.Value()) % Capacity() < Pow(WORDS - 1))
    ensures x.Valid() && y.Valid() && x.Value() * y.Value() < Capacity() ==> z.Valid()
    ensures !z.Valid() ==> z.length == WORDS
  {
    hide Val, Pow, Trimmed;
    LoosePadded(x);
    LoosePadded(y);
    if x.length < y.length {
      z := MulLong(y, x);
      assert y.Value() * x.Value() == x.Value() * y.Value();
      return;
    }
    if x.IsZero() || y.IsZero() {
      z := new Int1024.Zero();
      BelowCapacity(z.words[..]);
      SmallMod(0, Capacity());
      return;
    }
    if y.length == 1 {
      TrimmedTop(y.words[..], 1);
      y.EqualsWordIs(y.words[0]);
      z := MulAddWW(x, y.words[0]);
      FittingProduct(x, y);
      return;
    }
    z := MulLong(x, y);
  }

  /** A product that fits keeps the top word of a full-length factor. */
  lemma FittingProduct(x: Int1024, y: Int1024)
    requires x.Loose() && y.Loose() && y.Value() > 0
    ensures x.Valid() && x.length == WORDS && x.Value() * y.Value() < Capacity() ==>
              (x.Value() * y.Value()) % Capacity() >= Pow(WORDS - 1)
  {
    hide Val, Pow, Trimmed;
    if x.Valid() && x.length == WORDS && x.Value() * y.Value() < Capacity() {
      TrimmedRange(x.words[..], WORDS);
      MulLe(1, y.Value(), x.Value());
      SmallMod(x.Value() * y.Value(), Capacity());
    }
  }

  /** Doubling 2^1023 gives zero with all sixteen words still counted. */
  method OverflowKeepsLength() returns (z: Int1024)
    ensures fresh(z) && fresh(z.words) && z.words.Length == WORDS
    ensures z.Value() == 0 && z.length == WORDS && !z.Valid()
  {
    hide Val, Pow, Trimmed;
    var ws := new Word[WORDS](i => if i == WORDS - 1 then TOP else 0);
    var x := new Int1024(ws, WORDS);
    var y := new Int1024.FromUint(2);
    TopWordOnly(ws[..]);
    y.EqualsWordIs(2);
    TrimmedFull(ws[..]);
    z := Mul(x, y);
    DivModIs(x.Value() * 2, 1, 0, Capacity());
  }

  lemma TopWordOnly(s: seq<Word>)
    requires |s| == WORDS && s[WORDS - 1] == TOP && forall k :: 0 <= k < WORDS - 1 ==> s[k] == 0
    ensures Val(s) * 2 == Capacity() && Val(s) >= Pow(WORDS - 1) > 0
  {
    hide Val, Pow;
    var n := WORDS - 1;
    ValExtend(s, n);
    assert s[..n + 1] == s;
    ValZeros(s[..n]);
    PowStep(n);
    MulLe(1, TOP, Pow(n));
  }

  /** Zero minus 2^1024 - 1 gives one with all sixteen words counted. */
  method BorrowKeepsLength() returns (z: Int1024)
    ensures fresh(z) && fresh(z.words) && z.words.Length == WORDS
    ensures z.Value() == 1 && z.length == WORDS && !z.Valid()
  {
    hide Val, Pow, Trimmed;
    z := new Int1024.Zero();
    var ws := new Word[WORDS](_ => B - 1);
    var y := new Int1024(ws, WORDS);
    OnesValue(ws[..]);
    CapacityLarge();
    TrimmedFull(ws[..]);
    z.Dec(y);
    DivModIs(0 - y.Value(), -1, 1, Capacity());
  }

  lemma CapacityLarge()
    ensures 1 < Pow(WORDS - 1) && Pow(WORDS - 1) + 1 < Capacity()
  {
    hide Pow;
    PowOne();
    PowMonotone(1, WORDS - 1);
    PowStep(WORDS - 1);
    MulLe(2, B, Pow(WORDS - 1));
  }

  /** The product in 16 words when the lengths allow it, else cut from 32. */
  method MulLong(x: Int1024, y: Int1024) returns (z: Int1024)
    requires x.Loose() && y.Loose()
    ensures fresh(z) && fresh(z.words) && z.Valid()
    ensures z.Value() == (x.Value() * y.Value()) % Capacity()
  {
    hide Val, Pow, Trimmed;
    LoosePadded(x);
    LoosePadded(y);
    ghost var total := x.Value() * y.Value();
    var ws;
    if x.length + y.length <= WORDS {
      ws := Product(x.words, x.length, y.words, y.length, WORDS);
      BelowCapacity(ws[..]);
      SmallMod(total, Capacity());
    } else {
      var big := Product(x.words, x.length, y.words, y.length, 2 * WORDS);
      ws := new Word[WORDS](i requires 0 <= i < WORDS reads big => big[i]);
      ValSplit(big[..], WORDS);
      assert big[..][..WORDS] == ws[..];
      BelowCapacity(ws[..]);
      DivModIs(total, Val(big[..][WORDS..]), Val(ws[..]), Capacity());
    }
    var len := TrimmedLength(ws);
    z := new Int1024(ws, len);
  }

  // ----- division

  /** Divides x in place by one word and returns the remainder. */
  method DivW(x: Int1024, y: Word) returns (r: Word)
    requires x.Valid() && y > 0
    modifies x, x.words
    ensures x.Valid() && r < y
    ensures old(x.Value()) == x.Value() * y + r
  {
    hide Val, Pow, Trimmed;
    if y == 1 {
      return 0;
    }
    ghost var X := x.words[..];
    TrimmedTop(X, x.length);
    TrimmedZeros(X, x.length);
    r := 0;
    var first := 0;
    var i := x.length;
    ValZeros(X[i..]);
    while i > 0
      invariant 0 <= i <= x.length && r < y && first <= WORDS
      invariant x.words[..i] == X[..i]
      invariant Val(X[i..]) == Val(x.words[i..]) * y + r
      invariant first == 0 || (i < first && x.words[first - 1] != 0)
      invariant forall k :: i <= k < WORDS && first <= k ==> x.words[k] == 0
    {
      i := i - 1;
      ghost var high := x.words[i + 1..];
      assert x.words[i] == x.words[..i + 1][i] == X[i];
      var q, r' := DivWW(r, x.words[i], y);
      DigitDivided(X[i..], [q] + high, r, r', y);
      x.words[i] := q;
      assert x.words[i..] == [q] + high;
      assert x.words[..i] == X[..i + 1][..i];
      r := r';
      if first == 0 && x.words[i] != 0 {
        first := i + 1;
      }
    }
    x.length := first;
    assert X[0..] == X && x.words[0..] == x.words[..];
    TrimmedIntro(x.words[..], first);
  }

  lemma TrimmedZeros(s: seq<Word>, len: nat)
    requires Trimmed(s, len)
    ensures forall i :: len <= i < |s| ==> s[i] == 0
  {
  }

  lemma TrimmedIntro(s: seq<Word>, len: nat)
    requires len <= |s| && (forall i :: len <= i < |s| ==> s[i] == 0) && (len > 0 ==> s[len - 1] != 0)
    ensures Trimmed(s, len)
  {
  }

  lemma DigitDivided(X: seq<Word>, Q: seq<Word>, r: Word, r': Word, y: Word)
    requires |X| > 0 && |Q| > 0
    requires Val(X[1..]) == Val(Q[1..]) * y + r
    requires r * B + X[0] == Q[0] * y + r'
    ensures Val(X) == Val(Q) * y + r'
  {
    hide Val, Pow;
    WindowSplit(X);
    WindowSplit(Q);
    DigitQuotient(X[0], Q[0], Val(X[1..]), Val(Q[1..]), r, r', y, Val(X), Val(Q));
  }

  lemma DigitQuotient(x: int, q: int, hx: int, hq: int, r: int, r': int, y: int, vx: int, vq: int)
    requires hx == hq * y + r && r * B + x == q * y + r'
    requires vx == x + B * hx && vq == q + B * hq
    ensures vx == vq * y + r'
  {
    Distribute(y, q, B * hq);
    assert (B * hq) * y == B * (hq * y);
  }

  /** Quotient and remainder of any two integers, the divisor not zero. */
  method DivMod(x: Int1024, y: Int1024) returns (q: Int1024, r: Int1024)
    requires x.Valid() && y.Valid() && y.Value() > 0
    ensures fresh(q) && fresh(q.words) && fresh(r) && fresh(r.words) && q != r && q.words != r.words
    ensures q.Valid() && r.Valid()
    ensures x.Value() == q.Value() * y.Value() + r.Value() && r.Value() < y.Value()
  {
    hide Val, Pow, Trimmed;
    var cmp := x.Cmp(y);
    if cmp < 0 {
      q := new Int1024.Zero();
      r := new Int1024.Clone(x);
      return;
    }
    y.EqualsWordIs(0);
    if y.length == 1 {
      TrimmedTop(y.words[..], 1);
      y.EqualsWordIs(y.words[0]);
      q := new Int1024.Clone(x);
      var rr := DivW(q, y.words[0]);
      r := new Int1024.FromUint(rr);
      return;
    }
    q, r := DivLarge(x, y);
  }

  method DivLarge(x: Int1024, y: Int1024) returns (q: Int1024, r: Int1024)
    requires x.Valid() && y.Valid() && y.length >= 2 && x.Value() >= y.Value()
    ensures fresh(q) && fresh(q.words) && fresh(r) && fresh(r.words) && q != r && q.words != r.words
    ensures q.Valid() && r.Valid()
    ensures x.Value() == q.Value() * y.Value() + r.Value() && r.Value() < y.Value()
  {
    hide Val, Pow, Trimmed;
    if x.length < y.length {
      ShorterIsSmaller(x.words[..], x.length, y.words[..], y.length);
    }
    var qw, ql, rw, rl := Divide(x.words, x.length, y.words, y.length);
    q := new Int1024(qw, ql);
    r := new Int1024(rw, rl);
  }

  /** The canonical residue. */
  method Mod(x: Int1024, n: Int1024) returns (r: Int1024)
    requires x.Valid() && n.Valid() && n.Value() > 0
    ensures fresh(r) && fresh(r.words) && r.Valid()
    ensures r.Value() == x.Value() % n.Value()
  {
    hide Val, Pow, Trimmed;
    var cmp := x.Cmp(n);
    if cmp == -1 {
      r := new Int1024.Clone(x);
      SmallMod(x.Value(), n.Value());
    } else if cmp == 0 {
      r := new Int1024.Zero();
      DivModIs(x.Value(), 1, 0, n.Value());
    } else {
      var q;
      q, r := DivMod(x, n);
      DivModIs(x.Value(), q.Value(), r.Value(), n.Value());
    }
  }
}
