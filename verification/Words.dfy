/** Little-endian vectors of 64-bit words and the natural numbers they denote. */
module Words {
  import opened Integers

  /** The digit base 2^64, half of it, and the half-word base 2^32. */
  const B: nat := 0x1_0000_0000_0000_0000
  const TOP: nat := 0x8000_0000_0000_0000
  const H: nat := 0x1_0000_0000

  type Word = w: int | 0 <= w < B

  function Pow(n: nat): (p: nat)
    ensures p > 0
  {
    if n == 0 then 1 else B * Pow(n - 1)
  }

  /** The number a word vector stands for; the word at index i weighs B^i. */
  function Val(s: seq<Word>): nat
  {
    if s == [] then 0 else Val(s[..|s| - 1]) + s[|s| - 1] * Pow(|s| - 1)
  }

  lemma ValSnoc(s: seq<Word>, w: Word)
    ensures Val(s + [w]) == Val(s) + w * Pow(|s|)
  {
    assert (s + [w])[..|s|] == s;
  }

  lemma ValExtend(s: seq<Word>, i: nat)
    requires i < |s|
    ensures Val(s[..i + 1]) == Val(s[..i]) + s[i] * Pow(i)
  {
    assert s[..i + 1] == s[..i] + [s[i]];
    ValSnoc(s[..i], s[i]);
  }

  lemma {:induction false} ValBound(s: seq<Word>)
    ensures Val(s) < Pow(|s|)
  {
    if s != [] {
      var n := |s| - 1;
      ValBound(s[..n]);
      MulLe(s[n], B - 1, Pow(n));
    }
  }

  lemma {:induction false} ValConcat(a: seq<Word>, b: seq<Word>)
    ensures Val(a + b) == Val(a) + Pow(|a|) * Val(b)
  {
    if b == [] {
      assert a + b == a;
    } else {
      var n := |b| - 1;
      ValConcat(a, b[..n]);
      assert (a + b)[..|a + b| - 1] == a + b[..n];
      PowAdd(|a|, n);
      assert b[n] * (Pow(|a|) * Pow(n)) == Pow(|a|) * (b[n] * Pow(n)) by {
        MulSwap(b[n], Pow(|a|), Pow(n));
      }
      Distribute(Pow(|a|), Val(b[..n]), b[n] * Pow(n));
    }
  }

  lemma ValSplit(s: seq<Word>, i: nat)
    requires i <= |s|
    ensures Val(s) == Val(s[..i]) + Pow(i) * Val(s[i..])
  {
    assert s == s[..i] + s[i..];
    ValConcat(s[..i], s[i..]);
  }

  /** Prepending a least significant word shifts the rest up by one place. */
  lemma ValCons(w: Word, s: seq<Word>)
    ensures Val([w] + s) == w + B * Val(s)
  {
    ValConcat([w], s);
    assert Pow(1) == B * Pow(0);
    assert Val([w]) == Val([w][..0]) + w * Pow(0);
  }

  lemma {:induction false} ValZeros(s: seq<Word>)
    requires forall i :: 0 <= i < |s| ==> s[i] == 0
    ensures Val(s) == 0
  {
    if s != [] {
      ValZeros(s[..|s| - 1]);
    }
  }

  /** Zero words above position n do not count. */
  lemma ValTrim(s: seq<Word>, n: nat)
    requires n <= |s|
    requires forall i :: n <= i < |s| ==> s[i] == 0
    ensures Val(s) == Val(s[..n])
  {
    ValSplit(s, n);
    ValZeros(s[n..]);
  }

  /** A non-zero top word puts the value in the range its length promises. */
  lemma ValTopNonZero(s: seq<Word>)
    requires s != [] && s[|s| - 1] != 0
    ensures Pow(|s| - 1) <= Val(s) < Pow(|s|)
  {
    ValBound(s);
    MulLe(1, s[|s| - 1], Pow(|s| - 1));
  }

  /** The words are the digits of the value: equal values, equal vectors. */
  lemma {:induction false} ValInjective(s: seq<Word>, t: seq<Word>)
    requires |s| == |t|
    requires Val(s) == Val(t)
    ensures s == t
  {
    if s != [] {
      var n := |s| - 1;
      ValBound(s[..n]);
      ValBound(t[..n]);
      DivUnique(s[n], Val(s[..n]), t[n], Val(t[..n]), Pow(n));
      ValInjective(s[..n], t[..n]);
      assert s == s[..n] + [s[n]] && t == t[..n] + [t[n]];
    }
  }

  /** The vector compare: the highest differing word decides. */
  lemma ValLess(s: seq<Word>, t: seq<Word>, i: nat)
    requires i < |s| == |t|
    requires s[i + 1..] == t[i + 1..] && s[i] < t[i]
    ensures Val(s) < Val(t)
  {
    ValSplit(s, i + 1);
    ValSplit(t, i + 1);
    assert Val(s[..i + 1]) < Val(t[..i + 1]) by {
      ValExtend(s, i);
      ValExtend(t, i);
      ValBound(s[..i]);
      MulLe(s[i] + 1, t[i], Pow(i));
      Distribute(Pow(i), s[i], 1);
    }
  }

  lemma {:induction false} PowAdd(m: nat, n: nat)
    ensures Pow(m + n) == Pow(m) * Pow(n)
  {
    if n > 0 {
      PowAdd(m, n - 1);
      MulSwap(B, Pow(m), Pow(n - 1));
    }
  }

  lemma {:induction false} PowMonotone(m: nat, n: nat)
    requires m <= n
    ensures Pow(m) <= Pow(n)
    decreases n
  {
    if m < n {
      PowMonotone(m, n - 1);
    }
  }
}
