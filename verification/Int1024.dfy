/** 1024-bit unsigned integers: sixteen words and a cached length. */
module StackInt {
  import opened Integers
  import opened Words
  import opened Vectors
  import opened LongDivision

  const WORDS: nat := 16

  /** The number of values an Int1024 can hold, 2^1024. */
  ghost function Capacity(): nat
  {
    Pow(WORDS)
  }

  /** A trimmed vector of len words lies between B^(len-1) and B^len. */
  lemma TrimmedRange(s: seq<Word>, len: nat)
    requires Trimmed(s, len)
    ensures Val(s) == Val(s[..len]) < Pow(len)
    ensures len > 0 ==> Val(s) >= Pow(len - 1)
    ensures Val(s) == 0 <==> len == 0
  {
    hide Val, Pow;
    ValTrim(s, len);
    ValBound(s[..len]);
    if len > 0 {
      ValTopNonZero(s[..len]);
    } else {
      ValZeros(s[..0]);
    }
  }

  /** Conversely, the value alone decides when a length is the trimmed one. */
  lemma TrimmedByRange(s: seq<Word>, len: nat)
    requires 0 < len <= |s| && Pow(len - 1) <= Val(s) < Pow(len)
    ensures Trimmed(s, len)
  {
    hide Val, Pow;
    HighWordsZero(s, len);
    TopWordAtLeast(s[..len], 1);
  }

  lemma ShorterIsSmaller(s: seq<Word>, m: nat, t: seq<Word>, n: nat)
    requires Trimmed(s, m) && Trimmed(t, n) && m < n
    ensures Val(s) < Val(t)
  {
    hide Val, Pow;
    TrimmedRange(s, m);
    TrimmedRange(t, n);
    PowMonotone(m, n - 1);
  }

  /** z := the first m words of a plus the first n words of b; z is one of them. */
  method AddLong(z: array<Word>, a: array<Word>, m: nat, b: array<Word>, n: nat) returns (c: Word)
    requires n <= m <= a.Length && n <= b.Length && m <= z.Length
    modifies z
    ensures c <= 1
    ensures Val(z[..m]) + c * Pow(m) == old(Val(a[..m])) + old(Val(b[..n]))
    ensures z[m..] == old(z[m..])
  {
    hide Val, Pow;
    ghost var A, T := a[..], z[n..];
    PrefixSplit(A, n, m);
    assert A[..n] == a[0..n] && b[..n] == b[0..n] && A[..m] == a[..m];
    var c1 := AddVV(z, 0, a, 0, b, 0, n);
    assert z[0 + n..] == T;
    ghost var low := z[0..n];
    assert a[n..m] == A[n..m] by {
      assert a == z ==> a[n..] == A[n..];
    }
    c := c1;
    if m > n {
      assert a[n..n + (m - n)] == A[n..m];
      c := AddVW(z, n, a, n, c1, m - n);
      PrefixSplit(z[..], n, m);
      assert z[..][..n] == low && z[..][n..m] == z[n..n + (m - n)] && z[..][..m] == z[..m];
      PowAdd(n, m - n);
      TwoPartSum(Val(low), Val(z[n..m]), c1, c, Pow(n), Pow(m - n), Val(A[..n]), Val(A[n..m]), old(Val(b[..n])));
    } else {
      EmptyVectors(A[n..m], [], []);
      assert z[..m] == low;
    }
    assert z[m..] == old(z[m..]) by {
      assert m > n ==> z[m..] == z[n + (m - n)..] == T[m - n..];
    }
  }

  class Int1024 {
    const words: array<Word>
    var length: nat

    /** Canonical form. */
    ghost predicate Valid()
      reads this, words
    {
      words.Length == WORDS && Trimmed(words[..], length)
    }

    /** Canonical, or with the full length that an overflow leaves behind. */
    ghost predicate Loose()
      reads this, words
    {
      words.Length == WORDS && (length == WORDS || Trimmed(words[..], length))
    }

    ghost function Value(): nat
      reads words
    {
      Val(words[..])
    }

    /** The integer with the given words and length. */
    constructor (ws: array<Word>, len: nat)
      ensures words == ws && length == len
    {
      words := ws;
      length := len;
    }

    constructor Zero()
      ensures Valid() && Value() == 0 && length == 0 && fresh(words)
    {
      words := new Word[WORDS](_ => 0);
      length := 0;
      new;
      hide Val;
      ValZeros(words[..]);
    }

    constructor FromUint(n: Word)
      ensures Valid() && Value() == n && fresh(words)
    {
      words := new Word[WORDS](_ => 0);
      length := 0;
      new;
      SetUint(n);
    }

    /** x := n, whatever x was. */
    method SetUint(n: Word)
      requires Loose()
      modifies this, words
      ensures Valid() && Value() == n
    {
      for i := 1 to if length < 1 then 1 else length
        invariant forall k :: 1 <= k < i ==> words[k] == 0
        invariant forall k :: i <= k < WORDS ==> words[k] == old(words[k])
      {
        words[i] := 0;
      }
      words[0] := n;
      OneWord(words[..]);
      length := if n == 0 then 0 else 1;
    }

    constructor Clone(x: Int1024)
      requires x.Valid()
      ensures Valid() && Value() == x.Value() && length == x.length && fresh(words)
    {
      var ws := new Word[WORDS](_ => 0);
      for i := 0 to x.length
        invariant forall k :: 0 <= k < i ==> ws[k] == x.words[k]
        invariant forall k :: i <= k < WORDS ==> ws[k] == 0
      {
        ws[i] := x.words[i];
      }
      words := ws;
      length := x.length;
      new;
      assert words[..] == x.words[..];
    }

    /** The single word of a small integer; none when it needs more words. */
    method ToUint() returns (ok: bool, n: Word)
      requires Valid()
      ensures ok <==> Value() < B
      ensures ok ==> n == Value()
    {
      hide Val, Pow;
      TrimmedRange(words[..], length);
      PowOne();
      var i := 1;
      while i < length
        invariant 1 <= i
        invariant forall k :: 1 <= k < i && k < WORDS ==> words[k] == 0
      {
        if words[i] != 0 {
          TrimmedAtLeast(words[..], length, i);
          PowMonotone(1, i);
          return false, 0;
        }
        i := i + 1;
      }
      assert length <= 1;
      OneWord(words[..]);
      if length == 0 {
        ZeroVector(words[..]);
      }
      return true, words[0];
    }

    predicate IsZero()
      reads this
    {
      length == 0
    }

    predicate EqualsWord(n: Word)
      requires words.Length == WORDS
      reads this, words
    {
      if n == 0 then length == 0 else length == 1 && words[0] == n
    }

    lemma EqualsWordIs(n: Word)
      requires Valid()
      ensures EqualsWord(n) <==> Value() == n
      ensures IsZero() <==> Value() == 0
    {
      hide Val, Pow;
      TrimmedRange(words[..], length);
      PowOne();
      if length == 1 {
        OneWord(words[..]);
      } else if length > 1 {
        PowMonotone(1, length - 1);
      }
    }

    /** -1, 0 or 1 as x is less than, equal to or greater than y. */
    method Cmp(y: Int1024) returns (r: int)
      requires Valid() && y.Valid()
      ensures r == if Value() < y.Value() then -1 else if Value() == y.Value() then 0 else 1
    {
      hide Val, Pow;
      if length < y.length {
        ShorterIsSmaller(words[..], length, y.words[..], y.length);
        return -1;
      } else if length > y.length {
        ShorterIsSmaller(y.words[..], y.length, words[..], length);
        return 1;
      }
      var i := length;
      while i > 0
        invariant 0 <= i <= length
        invariant forall k :: i <= k < WORDS ==> words[k] == y.words[k]
      {
        i := i - 1;
        if words[i] < y.words[i] {
          assert words[..][i + 1..] == y.words[..][i + 1..];
          ValLess(words[..], y.words[..], i);
          return -1;
        }
        if words[i] > y.words[i] {
          assert words[..][i + 1..] == y.words[..][i + 1..];
          ValLess(y.words[..], words[..], i);
          return 1;
        }
      }
      assert words[..] == y.words[..];
      return 0;
    }

    /** Recomputes the length from the words. */
    method SetLength()
      requires words.Length == WORDS
      modifies this
      ensures Valid()
    {
      var i := WORDS;
      length := 0;
      while i > 0
        invariant 0 <= i <= WORDS && length == 0
        invariant forall k :: i <= k < WORDS ==> words[k] == 0
      {
        i := i - 1;
        if words[i] != 0 {
          length := i + 1;
          break;
        }
      }
    }

    // ----- addition and subtraction in place

    /** x := x + y, modulo 2^1024. */
    method Inc(y: Int1024)
      requires Valid() && y.Valid() && (y == this || y.words != words)
      modifies this, words
      ensures Valid()
      ensures Value() == (old(Value()) + old(y.Value())) % Capacity()
    {
      hide Val, Pow, Trimmed;
      EqualsWordIs(0);
      y.EqualsWordIs(0);
      ghost var X, Y := Value(), y.Value();
      BelowCapacity(words[..]);
      BelowCapacity(y.words[..]);
      if y.IsZero() {
        SmallMod(X, Capacity());
        return;
      } else if IsZero() {
        CopyFrom(y);
        SmallMod(Y, Capacity());
        return;
      }
      var m := if length < y.length then y.length else length;
      TrimmedRange(words[..], length);
      TrimmedRange(y.words[..], y.length);
      TrimmedTop(words[..], length);
      TrimmedTop(y.words[..], y.length);
      var c := AddWords(y);
      FinishSum(m, c, X + Y);
    }

    /** Sets the length after the words of a sum have been written. */
    method FinishSum(m: nat, c: Word, ghost total: nat)
      requires words.Length == WORDS && 0 < m <= WORDS && c <= 1
      requires total >= Pow(m - 1) && Val(words[..m]) + c * Pow(m) == total
      requires forall k :: m <= k < WORDS ==> words[k] == 0
      modifies this, words
      ensures Valid() && Value() == total % Capacity()
    {
      hide Val, Pow, Trimmed;
      length := m;
      if c > 0 {
        if m < WORDS {
          words[m] := c;
          length := m + 1;
          assert words[..][..m] == words[..m];
          CarryAppended(words[..], m, total);
          BelowCapacity(words[..]);
          SmallMod(total, Capacity());
        } else {
          assert words[..m] == words[..];
          SetLength();
          BelowCapacity(words[..]);
          DivModIs(total, c, Value(), Capacity());
        }
      } else {
        assert words[..][..m] == words[..m];
        NoCarry(words[..], m, total);
        BelowCapacity(words[..]);
        SmallMod(total, Capacity());
      }
    }

    method CopyFrom(y: Int1024)
      requires Valid() && y.Valid() && length == 0 && y.words != words
      modifies this, words
      ensures Valid() && Value() == y.Value()
    {
      for i := 0 to y.length
        invariant forall k :: 0 <= k < i ==> words[k] == y.words[k]
        invariant forall k :: i <= k < WORDS ==> words[k] == 0
      {
        words[i] := y.words[i];
      }
      length := y.length;
      assert words[..] == y.words[..];
    }

    /** Adds the words of y over the longer of the two lengths. */
    method AddWords(y: Int1024) returns (c: Word)
      requires Valid() && y.Valid() && (y == this || y.words != words)
      modifies words
      ensures c <= 1
      ensures
        var m := if length < y.length then y.length else length;
        && Val(words[..m]) + c * Pow(m) == old(Value()) + old(y.Value())
        && forall k :: m <= k < WORDS ==> words[k] == 0
    {
      hide Val, Pow;
      TrimmedRange(words[..], length);
      TrimmedRange(y.words[..], y.length);
      assert words[..][..length] == words[..length] && y.words[..][..y.length] == y.words[..y.length];
      var m := length;
      if length < y.length {
        m := y.length;
        c := AddLong(words, y.words, y.length, words, length);
      } else {
        c := AddLong(words, words, length, y.words, y.length);
      }
      forall k | m <= k < WORDS ensures words[k] == 0 {
        assert words[k] == words[m..][k - m];
        assert old(words[k]) == 0;
      }
    }

    /** Subtracts the words of y; a borrow leaves n words to be completed. */
    method SubWords(y: Int1024) returns (c: Word)
      requires Valid() && y.Valid() && (y == this || y.words != words)
      modifies words
      ensures c == 0 ==> Value() + old(y.Value()) == old(Value())
      ensures c != 0 ==> Val(words[..y.length]) + old(y.Value()) == old(Value()) + Pow(y.length)
    {
      hide Val, Pow;
      var m, n := length, y.length;
      ghost var X, Y := words[..], y.words[..];
      TrimmedRange(X, m);
      TrimmedRange(Y, n);
      ValSplit(X, n);
      var c1 := SubVV(words, 0, words, 0, y.words, 0, n);
      assert X[..n] == old(words[0..n]) && Y[..n] == old(y.words[0..n]);
      ghost var low := words[0..n];
      assert words[n..] == X[n..];
      c := c1;
      if m > n {
        assert words[n..n + (WORDS - n)] == X[n..];
        c := SubVW(words, n, words, n, c1, WORDS - n);
        assert words[..][..n] == low && words[..][n..] == words[n..n + (WORDS - n)];
        ValSplit(words[..], n);
        PowAdd(n, WORDS - n);
        TwoPartDifference(Val(low), Val(words[n..]), c1, c, Pow(n), Pow(WORDS - n), Val(X[..n]), Val(X[n..]), Val(Y));
        ShorterIsSmaller(Y, n, X, m);
        BelowCapacity(words[..]);
      } else {
        ValZeros(X[n..]);
        ValSplit(words[..], n);
        assert words[..][..n] == words[..n] && words[..][n..] == X[n..];
      }
    }

    method FillOnes(n: nat)
      requires words.Length == WORDS && n <= WORDS
      modifies words
      ensures Value() == old(Val(words[..n])) + Capacity() - Pow(n)
    {
      hide Val, Pow;
      for i := n to WORDS
        invariant words[..n] == old(words[..n])
        invariant forall k :: n <= k < i ==> words[k] == B - 1
      {
        words[i] := B - 1;
      }
      ValSplit(words[..], n);
      assert words[..][..n] == words[..n] && words[..][n..] == words[n..];
      OnesValue(words[n..]);
      PowAdd(n, WORDS - n);
      Distribute(Pow(n), Pow(WORDS - n), 1);
    }

    /** x := x - y, modulo 2^1024. The length is wrong exactly when y exceeds x
        by so much that the wrapped result has a zero top word. */
    method Dec(y: Int1024)
      requires Valid() && y.Valid() && (y == this || y.words != words)
      modifies this, words
      ensures Value() == (old(Value()) - old(y.Value())) % Capacity()
      ensures words.Length == WORDS
      ensures Valid() <==> old(y.Value()) - old(Value()) <= Capacity() - Pow(WORDS - 1)
      ensures old(Value()) < old(y.Value()) ==> length == WORDS
    {
      hide Val, Pow, Trimmed;
      ghost var X: int, Y: int := Value(), y.Value();
      BelowCapacity(words[..]);
      BelowCapacity(y.words[..]);
      TrimmedTop(y.words[..], y.length);
      y.EqualsWordIs(0);
      if y.IsZero() {
        SmallMod(X, Capacity());
        PowMonotone(WORDS - 1, WORDS);
        return;
      }
      var n := y.length;
      var c := SubWords(y);
      if c != 0 {
        ValBound(words[..n]);
        FillOnes(n);
        length := WORDS;
        BelowCapacity(words[..]);
        DivModIs(X - Y, -1, Value(), Capacity());
        TrimmedFull(words[..]);
        assert Value() == X - Y + Capacity();
      } else {
        SetLength();
        SmallMod(X - Y, Capacity());
        PowMonotone(WORDS - 1, WORDS);
      }
    }
  }

  lemma PowOne()
    ensures Pow(1) == B && Pow(0) == 1
  {
    assert Pow(1) == B * Pow(0);
  }

  /** A vector whose words above the lowest are zero is that word. */
  lemma OneWord(s: seq<Word>)
    requires |s| > 0
    ensures (forall i :: 1 <= i < |s| ==> s[i] == 0) ==> Val(s) == s[0]
  {
    hide Val, Pow;
    if forall i :: 1 <= i < |s| ==> s[i] == 0 {
      ValTrim(s, 1);
      ValExtend(s, 0);
      EmptyVectors(s[..0], [], []);
    }
  }

  lemma TrimmedAtLeast(s: seq<Word>, len: nat, i: nat)
    requires Trimmed(s, len) && i < len
    ensures Val(s) >= Pow(i)
  {
    hide Val, Pow;
    TrimmedRange(s, len);
    PowMonotone(i, len - 1);
  }

  lemma BelowCapacity(s: seq<Word>)
    requires |s| == WORDS
    ensures Val(s) < Capacity()
  {
    hide Val;
    ValBound(s);
  }

  lemma CarryAppended(s: seq<Word>, m: nat, total: nat)
    requires m < |s| && s[m] == 1 && (forall k :: m < k < |s| ==> s[k] == 0)
    requires Val(s[..m]) + s[m] * Pow(m) == total
    ensures Trimmed(s, m + 1) && Val(s) == total
  {
    hide Val, Pow;
    ValExtend(s, m);
    ValTrim(s, m + 1);
  }

  lemma NoCarry(s: seq<Word>, m: nat, total: nat)
    requires 0 < m <= |s| && (forall k :: m <= k < |s| ==> s[k] == 0)
    requires Val(s[..m]) == total >= Pow(m - 1)
    ensures Trimmed(s, m) && Val(s) == total
  {
    hide Val, Pow;
    ValTrim(s, m);
    ValBound(s[..m]);
    TrimmedByRange(s, m);
  }

  lemma TwoPartSum(low: int, high: int, c1: int, c: int, p: int, p': int, a0: int, a1: int, b: int)
    requires low + c1 * p == a0 + b
    requires high + c * p' == a1 + c1
    ensures low + p * high + c * (p * p') == a0 + p * a1 + b
  {
    Distribute(p, high, c * p');
    Distribute(p, a1, c1);
    MulSwap(p, c, p');
  }

  lemma TrimmedFull(s: seq<Word>)
    requires |s| == WORDS
    ensures Trimmed(s, WORDS) <==> Val(s) >= Pow(WORDS - 1)
  {
    hide Val, Pow;
    ValBound(s);
    if Trimmed(s, WORDS) {
      TrimmedRange(s, WORDS);
    }
    if Val(s) >= Pow(WORDS - 1) {
      TrimmedByRange(s, WORDS);
    }
  }

  lemma TwoPartDifference(low: int, high: int, c1: int, c: int, p: int, p': int, x0: int, x1: int, y: int)
    requires low + y == x0 + c1 * p
    requires high + c1 == x1 + c * p'
    ensures low + p * high + y == x0 + p * x1 + c * (p * p')
  {
    Distribute(p, high, c1);
    Distribute(p, x1, c * p');
    MulSwap(p, c, p');
  }

  lemma {:induction false} OnesValue(s: seq<Word>)
    requires forall i :: 0 <= i < |s| ==> s[i] == B - 1
    ensures Val(s) == Pow(|s|) - 1
  {
    if s != [] {
      OnesValue(s[..|s| - 1]);
    }
  }
}
