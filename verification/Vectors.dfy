/** Vector routines: carry chains over slices of word arrays. A slice is an
    array with an offset and a length; the result slice may be one of the
    operand slices, as the callers pass them. */
module Vectors {
  import opened Integers
  import opened Words
  import opened Bits
  import opened WordArith

  /** Everything outside the slice keeps its value. */
  twostate predicate OnlySlice(z: array<Word>, zo: nat, n: nat)
    requires zo + n <= z.Length
    reads z
  {
    z[..zo] == old(z[..zo]) && z[zo + n..] == old(z[zo + n..])
  }

  lemma SumStep(zs: seq<Word>, w: Word, c: nat, X: seq<Word>, Y: seq<Word>, c': nat)
    requires |zs| < |X| == |Y|
    requires Val(zs) + c * Pow(|zs|) == Val(X[..|zs|]) + Val(Y[..|zs|])
    requires c' * B + w == X[|zs|] + Y[|zs|] + c
    ensures Val(zs + [w]) + c' * Pow(|zs| + 1) == Val(X[..|zs| + 1]) + Val(Y[..|zs| + 1])
  {
    hide Val;
    var i := |zs|;
    ValSnoc(zs, w);
    ValExtend(X, i);
    ValExtend(Y, i);
    DigitSum(w, c, X[i], Y[i], c', Pow(i));
  }

  lemma DigitSum(w: int, c: int, x: int, y: int, c': int, p: int)
    requires c' * B + w == x + y + c
    ensures w * p + c' * (B * p) == x * p + y * p + c * p
  {
    Distribute(p, x, y);
    Distribute(p, x + y, c);
    Distribute(p, c' * B, w);
    assert (c' * B) * p == c' * (B * p);
  }

  /** Reading a subtraction X - Y = Z as the addition Z + Y = X. */
  lemma DifferenceStep(zs: seq<Word>, w: Word, c: nat, X: seq<Word>, Y: seq<Word>, c': nat)
    requires |zs| < |X| == |Y|
    requires Val(zs) + Val(Y[..|zs|]) == Val(X[..|zs|]) + c * Pow(|zs|)
    requires w == X[|zs|] - Y[|zs|] - c + c' * B
    ensures Val(zs + [w]) + Val(Y[..|zs| + 1]) == Val(X[..|zs| + 1]) + c' * Pow(|zs| + 1)
  {
    hide Val;
    var i := |zs|;
    ValSnoc(zs, w);
    ValExtend(X, i);
    ValExtend(Y, i);
    DigitSum(X[i], c, w, Y[i], c', Pow(i));
  }

  /** One word of a sum, with the carry from the bitwise formula. */
  method AddStep(x: Word, y: Word, c: Word) returns (c': Word, w: Word)
    requires c <= 1
    ensures c' <= 1 && c' * B + w == x + y + c
  {
    hide AddCarry;
    w := Wrap(x + y + c);
    AddCarryCorrect(x, y, c);
    AddCarryTop(x, y, w);
    c' := AddCarry(x, y, w);
  }

  /** One word of a difference, with the borrow from the bitwise formula. */
  method SubStep(x: Word, y: Word, c: Word) returns (c': Word, w: Word)
    requires c <= 1
    ensures c' <= 1 && w == x - y - c + c' * B
  {
    hide SubBorrow;
    w := Wrap(x - y - c);
    SubBorrowCorrect(x, y, c);
    SubBorrowTop(x, y, w);
    c' := SubBorrow(x, y, w);
  }

  method AddVV(z: array<Word>, zo: nat, x: array<Word>, xo: nat, y: array<Word>, yo: nat, n: nat) returns (c: Word)
    requires zo + n <= z.Length && xo + n <= x.Length && yo + n <= y.Length
    requires (z == x ==> zo == xo) && (z == y ==> zo == yo)
    modifies z
    ensures c <= 1
    ensures Val(z[zo..zo + n]) + c * Pow(n) == old(Val(x[xo..xo + n])) + old(Val(y[yo..yo + n]))
    ensures OnlySlice(z, zo, n)
  {
    hide Val, Pow;
    ghost var X, Y := x[xo..xo + n], y[yo..yo + n];
    c := 0;
    var i := 0;
    ghost var zs: seq<Word> := [];
    EmptyVectors(zs, X[..0], Y[..0]);
    while i < n
      invariant 0 <= i <= n && c <= 1
      invariant |zs| == i && (forall k :: 0 <= k < i ==> z[zo + k] == zs[k])
      invariant Val(zs) + c * Pow(i) == Val(X[..i]) + Val(Y[..i])
      invariant forall k :: i <= k < n ==> x[xo + k] == X[k] && y[yo + k] == Y[k]
      invariant forall k :: 0 <= k < zo || zo + n <= k < z.Length ==> z[k] == old(z[k])
    {
      var c', w := AddStep(x[xo + i], y[yo + i], c);
      SumStep(zs, w, c, X, Y, c');
      z[zo + i] := w;
      zs := zs + [w];
      c := c';
      i := i + 1;
    }
    assert X[..n] == X && Y[..n] == Y && z[zo..zo + n] == zs;
  }

  lemma EmptyVectors(a: seq<Word>, b: seq<Word>, c: seq<Word>)
    requires |a| == |b| == |c| == 0
    ensures Val(a) == Val(b) == Val(c) == 0 && Pow(0) == 1
  {
  }

  method SubVV(z: array<Word>, zo: nat, x: array<Word>, xo: nat, y: array<Word>, yo: nat, n: nat) returns (c: Word)
    requires zo + n <= z.Length && xo + n <= x.Length && yo + n <= y.Length
    requires (z == x ==> zo == xo) && (z == y ==> zo == yo)
    modifies z
    ensures c <= 1
    ensures Val(z[zo..zo + n]) == old(Val(x[xo..xo + n]) - Val(y[yo..yo + n])) + c * Pow(n)
    ensures OnlySlice(z, zo, n)
  {
    hide Val, Pow;
    ghost var X, Y := x[xo..xo + n], y[yo..yo + n];
    c := 0;
    var i := 0;
    ghost var zs: seq<Word> := [];
    EmptyVectors(zs, X[..0], Y[..0]);
    while i < n
      invariant 0 <= i <= n && c <= 1
      invariant |zs| == i && (forall k :: 0 <= k < i ==> z[zo + k] == zs[k])
      invariant Val(zs) + Val(Y[..i]) == Val(X[..i]) + c * Pow(i)
      invariant forall k :: i <= k < n ==> x[xo + k] == X[k] && y[yo + k] == Y[k]
      invariant forall k :: 0 <= k < zo || zo + n <= k < z.Length ==> z[k] == old(z[k])
    {
      var c', w := SubStep(x[xo + i], y[yo + i], c);
      DifferenceStep(zs, w, c, X, Y, c');
      z[zo + i] := w;
      zs := zs + [w];
      c := c';
      i := i + 1;
    }
    assert X[..n] == X && Y[..n] == Y && z[zo..zo + n] == zs;
  }

  /** Adding w and a carry to a vector whose carry chain has value total. */
  lemma CarryStep(zs: seq<Word>, w: Word, c: int, c': int, total: int, d: int)
    requires Val(zs) + c * Pow(|zs|) == total
    requires c' * B + w == d + c
    ensures Val(zs + [w]) + c' * Pow(|zs| + 1) == total + d * Pow(|zs|)
  {
    hide Val;
    ValSnoc(zs, w);
    DigitSum(w, c, d, 0, c', Pow(|zs|));
  }

  /** Vector plus word. The lowest word can lose its carry, and only for an
      addend above 2^63. */
  method AddVW(z: array<Word>, zo: nat, x: array<Word>, xo: nat, y: Word, n: nat) returns (c: Word)
    requires zo + n <= z.Length && xo + n <= x.Length
    requires z == x ==> zo == xo
    modifies z
    ensures c <= if n == 0 then y else 1
    ensures Val(z[zo..zo + n]) + c * Pow(n) ==
            old(Val(x[xo..xo + n])) + y - if n > 0 then CarryGone(old(x[xo]), y) else 0
    ensures OnlySlice(z, zo, n)
  {
    hide Val, Pow, CarryGone;
    ghost var X := x[xo..xo + n];
    ghost var gone := 0;
    c := y;
    var i := 0;
    ghost var zs: seq<Word> := [];
    EmptyVectors(zs, X[..0], []);
    while i < n
      invariant 0 <= i <= n && |zs| == i && (forall k :: 0 <= k < i ==> z[zo + k] == zs[k])
      invariant c <= if i == 0 then y else 1
      invariant Val(zs) + c * Pow(i) == Val(X[..i]) + y - gone
      invariant gone == if i > 0 then CarryGone(X[0], y) else 0
      invariant forall k :: i <= k < n ==> x[xo + k] == X[k]
      invariant forall k :: 0 <= k < zo || zo + n <= k < z.Length ==> z[k] == old(z[k])
    {
      var c', w := AddWordStep(x[xo + i], c);
      if i == 0 {
        gone := CarryGone(X[0], y);
      }
      AddWordExtends(zs, w, c, c', X, y, gone);
      z[zo + i] := w;
      zs := zs + [w];
      c := c';
      i := i + 1;
    }
    assert X[..n] == X && z[zo..zo + n] == zs;
  }

  /** One word of a sum with a word, with the carry from the bitwise formula. */
  method AddWordStep(x: Word, c: Word) returns (c': Word, w: Word)
    ensures c' <= 1 && c' * B + w == x + c - CarryGone(x, c)
    ensures c <= TOP ==> CarryGone(x, c) == 0
  {
    w := Wrap(x + c);
    AddWordCarryCorrect(x, c);
    c' := AddWordCarry(x, w);
  }

  lemma AddWordExtends(zs: seq<Word>, w: Word, c: nat, c': nat, X: seq<Word>, y: nat, lost: nat)
    requires |zs| < |X|
    requires Val(zs) + c * Pow(|zs|) == Val(X[..|zs|]) + y - if |zs| > 0 then lost else 0
    requires c' * B + w == X[|zs|] + c - if |zs| > 0 then 0 else lost
    ensures Val(zs + [w]) + c' * Pow(|zs| + 1) == Val(X[..|zs| + 1]) + y - lost
  {
    hide Val;
    var i := |zs|;
    ValExtend(X, i);
    if i == 0 {
      CarryStep(zs, w, c, c', Val(X[..i]) + y, X[i] - lost);
      LowestDigit(X[i], lost);
    } else {
      CarryStep(zs, w, c, c', Val(X[..i]) + y - lost, X[i]);
    }
  }

  /** The digit of the lowest word counts as it is. */
  lemma LowestDigit(x: int, lost: int)
    ensures (x - lost) * Pow(0) == x * Pow(0) - lost && (x + lost) * Pow(0) == x * Pow(0) + lost
  {
  }

  /** Vector minus word. The lowest word can lose its borrow, and only for a
      subtrahend above 2^63. */
  method SubVW(z: array<Word>, zo: nat, x: array<Word>, xo: nat, y: Word, n: nat) returns (c: Word)
    requires zo + n <= z.Length && xo + n <= x.Length
    requires z == x ==> zo == xo
    modifies z
    ensures c <= if n == 0 then y else 1
    ensures Val(z[zo..zo + n]) + y ==
            old(Val(x[xo..xo + n])) + c * Pow(n) + if n > 0 then BorrowGone(old(x[xo]), y) else 0
    ensures OnlySlice(z, zo, n)
  {
    hide Val, Pow, BorrowGone;
    ghost var X := x[xo..xo + n];
    ghost var gone := 0;
    c := y;
    var i := 0;
    ghost var zs: seq<Word> := [];
    EmptyVectors(zs, X[..0], []);
    while i < n
      invariant 0 <= i <= n && |zs| == i && (forall k :: 0 <= k < i ==> z[zo + k] == zs[k])
      invariant c <= if i == 0 then y else 1
      invariant Val(zs) + y == Val(X[..i]) + c * Pow(i) + gone
      invariant gone == if i > 0 then BorrowGone(X[0], y) else 0
      invariant forall k :: i <= k < n ==> x[xo + k] == X[k]
      invariant forall k :: 0 <= k < zo || zo + n <= k < z.Length ==> z[k] == old(z[k])
    {
      var c', w := SubWordStep(x[xo + i], c);
      if i == 0 {
        gone := BorrowGone(X[0], y);
      }
      SubWordExtends(zs, w, c, c', X, y, gone);
      z[zo + i] := w;
      zs := zs + [w];
      c := c';
      i := i + 1;
    }
    assert X[..n] == X && z[zo..zo + n] == zs;
  }

  /** One word of a difference with a word, with the borrow from the bitwise
      formula. */
  method SubWordStep(x: Word, c: Word) returns (c': Word, w: Word)
    ensures c' <= 1 && w == x - c + c' * B + BorrowGone(x, c)
    ensures c <= TOP ==> BorrowGone(x, c) == 0
  {
    w := Wrap(x - c);
    SubWordBorrowCorrect(x, c);
    c' := SubWordBorrow(x, w);
  }

  lemma SubWordExtends(zs: seq<Word>, w: Word, c: nat, c': nat, X: seq<Word>, y: nat, lost: nat)
    requires |zs| < |X|
    requires Val(zs) + y == Val(X[..|zs|]) + c * Pow(|zs|) + if |zs| > 0 then lost else 0
    requires w == X[|zs|] - c + c' * B + if |zs| > 0 then 0 else lost
    ensures Val(zs + [w]) + y == Val(X[..|zs| + 1]) + c' * Pow(|zs| + 1) + lost
  {
    hide Val;
    var i := |zs|;
    ValExtend(X, i);
    if i == 0 {
      BorrowStep(zs, w, c, c', Val(X[..i]) - y, X[i] + lost);
      LowestDigit(X[i], lost);
    } else {
      BorrowStep(zs, w, c, c', Val(X[..i]) - y + lost, X[i]);
    }
  }

  lemma BorrowStep(zs: seq<Word>, w: Word, c: nat, c': nat, total: int, d: int)
    requires Val(zs) == total + c * Pow(|zs|)
    requires w == d - c + c' * B
    ensures Val(zs + [w]) == total + d * Pow(|zs|) + c' * Pow(|zs| + 1)
  {
    hide Val, Pow;
    var b: int, b': int := c, c';
    assert (-b) * Pow(|zs|) == -(b * Pow(|zs|));
    CarryStep(zs, w, -b, -b', total, d);
    assert (-b') * Pow(|zs| + 1) == -(b' * Pow(|zs| + 1));
  }

  /** The product of a vector and a word, plus a word. */
  method MulAddVWW(z: array<Word>, x: array<Word>, y: Word, r: Word, n: nat) returns (c: Word)
    requires n <= z.Length && n <= x.Length
    modifies z
    ensures Val(z[..n]) + c * Pow(n) == old(Val(x[..n])) * y + r
    ensures OnlySlice(z, 0, n)
  {
    hide Val, Pow, MulAddWWW;
    ghost var X := x[..n];
    c := r;
    var i := 0;
    EmptyVectors(z[..0], X[..0], []);
    while i < n
      invariant 0 <= i <= n
      invariant Val(z[..i]) + c * Pow(i) == Val(X[..i]) * y + r
      invariant forall k :: i <= k < n ==> x[k] == X[k]
      invariant OnlySlice(z, 0, n)
    {
      ghost var zs := z[..i];
      var (c', w) := MulAddWWW(x[i], y, c);
      CarryStep(zs, w, c, c', Val(X[..i]) * y + r, X[i] * y);
      ProductStep(X, i, y);
      z[i] := w;
      c := c';
      assert z[..i + 1] == zs + [w];
      i := i + 1;
    }
    assert X[..n] == X;
  }

  lemma ProductStep(X: seq<Word>, i: nat, y: Word)
    requires i < |X|
    ensures Val(X[..i + 1]) * y == Val(X[..i]) * y + (X[i] * y) * Pow(i)
  {
    hide Val, Pow;
    ValExtend(X, i);
    Distribute(y, Val(X[..i]), X[i] * Pow(i));
    assert (X[i] * Pow(i)) * y == (X[i] * y) * Pow(i) by {
      MulSwap(y, X[i], Pow(i));
    }
  }

  /** The words of X shifted left by s. */
  ghost predicate ShiftedLeft(Z: seq<Word>, X: seq<Word>, s: nat)
    requires s <= 64
  {
    && |Z| == |X|
    && (forall k :: 1 <= k < |X| ==> Z[k] == ShlJoin(X[k], X[k - 1], s))
    && (|X| > 0 ==> Z[0] == ShlWord(X[0], s))
  }

  /** A shift of the first n words, from the top down; the bits shifted out of
      the top word are returned. */
  method ShlVU(z: array<Word>, x: array<Word>, s: nat, n: nat) returns (c: Word)
    requires n <= z.Length && n <= x.Length && s <= 63
    modifies z
    ensures c < Pow2(s)
    ensures Val(z[..n]) + c * Pow(n) == old(Val(x[..n])) * Pow2(s)
    ensures z[n..] == old(z[n..])
  {
    hide Val, Pow, Pow2, ShlWord, ShrWord, ShlJoin;
    ghost var X := x[..n];
    if n == 0 {
      EmptyVectors(z[..0], X, []);
      return 0;
    }
    var w1 := x[n - 1];
    c := ShrWord(w1, 64 - s);
    var i := n - 1;
    while i > 0
      invariant 0 <= i < n && w1 == X[i]
      invariant forall k :: 0 <= k < i ==> x[k] == X[k]
      invariant forall k :: i < k < n ==> z[k] == ShlJoin(X[k], X[k - 1], s)
      invariant z[n..] == old(z[n..])
    {
      var w := w1;
      w1 := x[i - 1];
      ShlJoinSum(w, w1, s);
      z[i] := ShlJoin(w, w1, s);
      i := i - 1;
    }
    z[0] := ShlWord(w1, s);
    assert z[..n][0] == ShlWord(X[0], s);
    ShiftParts(X[n - 1], s);
    ShiftLeftValue(z[..n], X, s, n);
    assert X[..n] == X && z[..n][..n] == z[..n];
  }

  lemma {:induction false} ShiftLeftValue(Z: seq<Word>, X: seq<Word>, s: nat, i: nat)
    requires s <= 64 && ShiftedLeft(Z, X, s) && 0 < i <= |X|
    ensures Val(Z[..i]) + ShrWord(X[i - 1], 64 - s) * Pow(i) == Val(X[..i]) * Pow2(s)
  {
    hide Val, Pow, Pow2, ShlWord, ShrWord, ShlJoin;
    var lo := ShrWord(X[i - 1], 64 - s);
    ValExtend(Z, i - 1);
    ValExtend(X, i - 1);
    ShiftParts(X[i - 1], s);
    if i == 1 {
      EmptyVectors(Z[..0], X[..0], []);
      ShiftStep(Z[0], X[0], 0, lo, 1, Pow2(s), 0, 0);
      PowStep(0);
    } else {
      ShiftLeftValue(Z, X, s, i - 1);
      ShlJoinSum(X[i - 1], X[i - 2], s);
      ShiftStep(Z[i - 1], X[i - 1], ShrWord(X[i - 2], 64 - s), lo, Pow(i - 1), Pow2(s), Val(Z[..i - 1]), Val(X[..i - 1]));
      PowStep(i - 1);
    }
  }

  lemma PowStep(n: nat)
    ensures Pow(n + 1) == B * Pow(n)
  {
  }

  lemma ShiftStep(z: int, x: int, hi: int, lo: int, p: int, m: int, vz: int, vx: int)
    requires x * m + hi == lo * B + z
    requires vz + hi * p == vx * m
    ensures vz + z * p + lo * (B * p) == (vx + x * p) * m
  {
    Distribute(p, x * m, hi);
    Distribute(p, lo * B, z);
    Distribute(m, vx, x * p);
    assert (lo * B) * p == lo * (B * p);
    assert (x * m) * p == (x * p) * m by {
      MulSwap(x, m, p);
      MulSwap(x, p, m);
      assert m * p == p * m;
    }
  }

  /** A shift of the first n words to the right; the low bits fall out. */
  method ShrVU(z: array<Word>, x: array<Word>, s: nat, n: nat)
    requires n <= z.Length && n <= x.Length && s <= 63
    modifies z
    ensures Val(z[..n]) == old(Val(x[..n])) / Pow2(s)
    ensures z[n..] == old(z[n..])
  {
    hide Val, Pow, Pow2, ShlWord, ShrWord, ShlJoin;
    ghost var X := x[..n];
    if n == 0 {
      EmptyVectors(z[..0], X, []);
      DivModIs(0, 0, 0, Pow2(s));
      return;
    }
    var w1 := x[0];
    var i := 0;
    while i < n - 1
      invariant 0 <= i <= n - 1 && w1 == X[i]
      invariant forall k :: i <= k < n ==> x[k] == X[k]
      invariant forall k :: 0 <= k < i ==> z[k] == ShlJoin(X[k + 1], X[k], 64 - s)
      invariant z[n..] == old(z[n..])
    {
      var w := w1;
      w1 := x[i + 1];
      ShlJoinSum(w1, w, 64 - s);
      z[i] := ShlJoin(w1, w, 64 - s);
      i := i + 1;
    }
    z[n - 1] := ShrWord(w1, s);
    ShiftRightTotal(z[..n], X, s);
  }

  /** The words of X shifted right by s. */
  ghost predicate ShiftedRight(Z: seq<Word>, X: seq<Word>, s: nat)
    requires s <= 64
  {
    && |Z| == |X| > 0
    && (forall k :: 0 <= k < |X| - 1 ==> Z[k] == ShlJoin(X[k + 1], X[k], 64 - s))
    && Z[|X| - 1] == ShrWord(X[|X| - 1], s)
  }

  lemma {:induction false} ShiftRightValue(Z: seq<Word>, X: seq<Word>, s: nat, i: nat)
    requires s <= 64 && ShiftedRight(Z, X, s) && i < |X|
    ensures Val(Z[..i]) * Pow2(s) + X[0] % Pow2(s) == Val(X[..i]) + (X[i] % Pow2(s)) * Pow(i)
  {
    hide Val, Pow, Pow2, ShlWord, ShrWord, ShlJoin;
    if i == 0 {
      EmptyVectors(Z[..0], X[..0], []);
    } else {
      ShiftRightValue(Z, X, s, i - 1);
      ValExtend(Z, i - 1);
      ValExtend(X, i - 1);
      WordStepRight(X[i], X[i - 1], s);
      ShiftStepRight(Z[i - 1], X[i - 1], X[i - 1] % Pow2(s), X[i] % Pow2(s), Pow(i - 1), Pow2(s),
                     Val(Z[..i - 1]), Val(X[..i - 1]), X[0] % Pow2(s));
      PowStep(i - 1);
    }
  }

  lemma ShrWordIs(x: Word, s: nat)
    ensures x == ShrWord(x, s) * Pow2(s) + x % Pow2(s)
    ensures 0 <= x % Pow2(s) < Pow2(s)
  {
    hide Pow2;
    DivTimesMod(x, Pow2(s));
  }

  /** The bits a right shift drops from one word enter the next word's top. */
  lemma ShlOfLow(x: Word, s: nat)
    requires s <= 64
    ensures ShlWord(x, 64 - s) * Pow2(s) == (x % Pow2(s)) * B
  {
    hide Pow2, ShlWord, ShrWord;
    ShrWordIs(x, s);
    ShiftedLow(x, ShrWord(x, s), x % Pow2(s), 64 - s);
    WordSplit(s);
    MulSwap(x % Pow2(s), Pow2(64 - s), Pow2(s));
    assert Pow2(64 - s) * Pow2(s) == Pow2(s) * Pow2(64 - s);
  }

  lemma WordStepRight(hi: Word, lo: Word, s: nat)
    requires s <= 64
    ensures ShlJoin(hi, lo, 64 - s) * Pow2(s) == lo - lo % Pow2(s) + (hi % Pow2(s)) * B
  {
    hide Pow2, ShlWord, ShrWord, ShlJoin;
    ShlJoinSum(hi, lo, 64 - s);
    ShrWordIs(lo, s);
    ShlOfLow(hi, s);
    assert 64 - (64 - s) == s;
    Distribute(Pow2(s), ShlWord(hi, 64 - s), ShrWord(lo, s));
  }

  lemma ShiftStepRight(z: int, x: int, lo: int, hi: int, p: int, m: int, vz: int, vx: int, l0: int)
    requires z * m == x - lo + hi * B
    requires vz * m + l0 == vx + lo * p
    ensures (vz + z * p) * m + l0 == vx + x * p + hi * (B * p)
  {
    Distribute(m, vz, z * p);
    Distribute(p, x - lo, hi * B);
    Distribute(p, x, lo);
    assert (z * p) * m == (z * m) * p by {
      MulSwap(z, p, m);
      MulSwap(z, m, p);
      assert m * p == p * m;
    }
    assert (hi * B) * p == hi * (B * p);
  }

  lemma ShiftRightTotal(Z: seq<Word>, X: seq<Word>, s: nat)
    requires s <= 64 && ShiftedRight(Z, X, s)
    ensures Val(Z) == Val(X) / Pow2(s)
  {
    hide Val, Pow, Pow2, ShlWord, ShrWord, ShlJoin;
    var n := |X| - 1;
    ShiftRightValue(Z, X, s, n);
    ValExtend(Z, n);
    ValExtend(X, n);
    assert Z[..n + 1] == Z && X[..n + 1] == X;
    ShrWordIs(X[n], s);
    ShrWordIs(X[0], s);
    ShiftStepRight(Z[n], X[n], X[n] % Pow2(s), 0, Pow(n), Pow2(s), Val(Z[..n]), Val(X[..n]), X[0] % Pow2(s));
    DivModIs(Val(X), Val(Z), X[0] % Pow2(s), Pow2(s));
  }

  /** One row of the schoolbook product: words[i..] += x * d, the carry stored
      above the row. */
  method MulRow(words: array<Word>, i: nat, x: array<Word>, l: nat, d: Word)
    requires i + l < words.Length && l <= x.Length && x != words
    modifies words
    ensures Val(words[i..i + l + 1]) == old(Val(words[i..i + l])) + Val(x[..l]) * d
    ensures OnlySlice(words, i, l + 1)
  {
    hide Val, Pow, MulWW, AddWW, Wrap;
    ghost var W, X := words[i..i + l], x[..l];
    var c: Word := 0;
    var j := 0;
    EmptyVectors(words[i..i], X[..0], W[..0]);
    while j < l
      invariant 0 <= j <= l
      invariant Val(words[i..i + j]) + c * Pow(j) == Val(W[..j]) + Val(X[..j]) * d
      invariant forall k :: j <= k < l ==> words[i + k] == W[k]
      invariant OnlySlice(words, i, l + 1)
    {
      ghost var zs := words[i..i + j];
      var c', w := MulAddStep(x[j], d, words[i + j], c);
      CarryStep(zs, w, c, c', Val(W[..j]) + Val(X[..j]) * d, W[j] + X[j] * d);
      RowTotal(W, X, j, d);
      words[i + j] := w;
      c := c';
      assert words[i..i + j + 1] == zs + [w];
      j := j + 1;
    }
    ghost var zs := words[i..i + l];
    words[i + l] := c;
    assert words[i..i + l + 1] == zs + [c];
    ValSnoc(zs, c);
    assert W[..l] == W && X[..l] == X;
  }

  lemma RowTotal(W: seq<Word>, X: seq<Word>, j: nat, d: Word)
    requires j < |W| == |X|
    ensures Val(W[..j]) + Val(X[..j]) * d + (W[j] + X[j] * d) * Pow(j) == Val(W[..j + 1]) + Val(X[..j + 1]) * d
  {
    hide Val, Pow;
    ProductStep(X, j, d);
    ValExtend(W, j);
    Distribute(Pow(j), W[j], X[j] * d);
  }

  /** x * d + w + c as (carry, word), in the steps of the source. */
  method MulAddStep(x: Word, d: Word, w: Word, c: Word) returns (c': Word, w': Word)
    ensures c' * B + w' == x * d + w + c
  {
    hide MulWW, AddWW, Wrap;
    var (z1, zz0) := MulWW(x, d);
    var z0 := Wrap(zz0 + w);
    MulAddCarry(x, d, z1, zz0, w);
    if z0 < zz0 {
      z1 := Wrap(z1 + 1);
    }
    var (k, low) := AddWW(z0, c, 0);
    WordProduct(x, d);
    CarryFits(x * d, w, c, z1, z0, k, low);
    c', w' := Wrap(k + z1), low;
  }

  lemma CarryFits(p: int, w: Word, c: Word, z1: Word, z0: Word, k: Word, low: Word)
    requires 0 <= p <= (B - 1) * (B - 1)
    requires z1 * B + z0 == p + w && k * B + low == z0 + c
    ensures Wrap(k + z1) * B + low == p + w + c
  {
    assert k + z1 < B;
  }
}
