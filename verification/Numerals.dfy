/** Powers of 1024-bit integers, and reading and writing them as text. */
module Numerals {
  import opened Options
  import opened Integers
  import opened Residues
  import opened Words
  import opened LongDivision
  import opened StackInt
  import opened IntArith

  /** ---- Powers ---- */

  lemma {:induction false} PowerMod(a: int, n: nat, c: int)
    requires c > 0
    ensures Power(a % c, n) % c == Power(a, n) % c
  {
    if n > 0 {
      PowerMod(a, n - 1, c);
      ModMulLeft(Power(a % c, n - 1), a % c, c);
      ModMulLeft(Power(a, n - 1), a % c, c);
      ModMulLeft(a, Power(a, n - 1), c);
      assert Power(a % c, n - 1) * (a % c) == (a % c) * Power(a % c, n - 1);
      assert Power(a, n - 1) * (a % c) == (a % c) * Power(a, n - 1);
    }
  }

  lemma {:induction false} PowerOfSquare(x: int, h: nat)
    ensures Power(x * x, h) == Power(x, 2 * h)
  {
    if h > 0 {
      PowerOfSquare(x, h - 1);
      assert 2 * h == 1 + (1 + 2 * (h - 1));
      MulSwap(x, x, Power(x, 2 * (h - 1)));
    }
  }

  lemma {:induction false} PowerNonNeg(x: nat, n: nat)
    ensures Power(x, n) >= 0 && (x >= 1 ==> Power(x, n) >= 1)
  {
    if n > 0 {
      PowerNonNeg(x, n - 1);
      MulLe(0, x, Power(x, n - 1));
      if x >= 1 {
        MulLe(1, x, Power(x, n - 1));
      }
    }
  }

  /** The square and the power before are no larger. */
  lemma PowerSteps(x: nat, n: nat)
    requires n >= 2
    ensures x * x <= Power(x, n) && 0 <= Power(x, n - 1) <= Power(x, n)
  {
    var p := Power(x, n - 2);
    PowerNonNeg(x, n - 2);
    PowerNonNeg(x, n - 1);
    assert Power(x, n - 1) == x * p && Power(x, n) == x * Power(x, n - 1);
    MulSwap(x, x, p);
    if x >= 1 {
      MulLe(1, p, x * x);
      MulLe(1, x, Power(x, n - 1));
    }
  }

  lemma LowestBit(x: Int1024)
    requires x.Valid()
    ensures x.words[0] % 2 == x.Value() % 2
  {
    hide Val;
    var s := x.words[..];
    assert s == [s[0]] + s[1..];
    ValCons(s[0], s[1..]);
    Parity(s[0], Val(s[1..]));
  }

  lemma Parity(w: nat, v: nat)
    ensures (w + B * v) % 2 == w % 2
  {
    var half := 0x8000_0000_0000_0000;
    assert B * v == 2 * (half * v);
  }

  /** x to the power y modulo 2^1024, by repeated squaring; canonical whenever
      the power fits. */
  method Exp(x: Int1024, y: Int1024) returns (z: Int1024)
    requires x.Loose() && y.Valid()
    ensures z.Loose() && z.Value() == Power(x.Value(), y.Value()) % Capacity()
    ensures x.Valid() && Power(x.Value(), y.Value()) < Capacity() ==> z.Valid()
    decreases y.Value(), 1
  {
    hide Val, Pow, Trimmed, Power, StackInt.Int1024.EqualsWord;
    ghost var a, n := x.Value(), y.Value();
    y.EqualsWordIs(0);
    y.EqualsWordIs(1);
    BelowCapacity(x.words[..]);
    SmallPowers(a);
    if y.IsZero() {
      z := new Int1024.FromUint(1);
      BelowCapacity(z.words[..]);
      SmallMod(1, Capacity());
      return;
    } else if y.EqualsWord(1) {
      SmallMod(a, Capacity());
      return x;
    }
    LowestBit(y);
    if y.words[0] % 2 == 0 {
      z := ExpEven(x, y);
      return;
    }
    var one := new Int1024.FromUint(1);
    var less := Sub(y, one);
    var power := ExpEven(x, less);
    PowerSteps(a, n);
    NextPower(a, n, power.Value(), Capacity());
    z := Mul(x, power);
  }

  /** An even exponent: half of it on the square. */
  method ExpEven(x: Int1024, y: Int1024) returns (z: Int1024)
    requires x.Loose() && y.Valid() && y.Value() >= 2 && y.Value() % 2 == 0
    ensures z.Loose() && z.Value() == Power(x.Value(), y.Value()) % Capacity()
    ensures x.Valid() && Power(x.Value(), y.Value()) < Capacity() ==> z.Valid()
    decreases y.Value(), 0
  {
    hide Val, Pow, Trimmed, Power;
    ghost var a, n := x.Value(), y.Value();
    var square := Mul(x, x);
    var two := new Int1024.FromUint(2);
    var half, rest := DivMod(y, two);
    BelowCapacity(x.words[..]);
    HalfPower(a, n, half.Value(), rest.Value(), square.Value(), Capacity());
    PowerSteps(a, n);
    z := Exp(square, half);
  }

  lemma SmallPowers(a: int)
    ensures Power(a, 0) == 1 && Power(a, 1) == a
  {
    assert Power(a, 1) == a * Power(a, 0);
  }

  /** Half the exponent on the square. */
  lemma HalfPower(a: nat, n: nat, h: nat, r: nat, s: nat, c: nat)
    requires c > 0 && n % 2 == 0 && n == h * 2 + r && r < 2 && s == (a * a) % c
    ensures r == 0 && Power(s, h) % c == Power(a, n) % c
    ensures a * a < c ==> Power(s, h) == Power(a, n)
  {
    hide Power;
    PowerMod(a * a, h, c);
    PowerOfSquare(a, h);
    if a * a < c {
      MulLe(0, a, a);
      SmallMod(a * a, c);
    }
  }

  lemma NextPower(a: nat, n: nat, p: nat, c: nat)
    requires c > 0 && n > 0 && p == Power(a, n - 1) % c
    ensures (a * p) % c == Power(a, n) % c
    ensures 0 <= Power(a, n - 1) < c ==> a * p == Power(a, n)
  {
    if 0 <= Power(a, n - 1) < c {
      SmallMod(Power(a, n - 1), c);
    }
    ModMulLeft(Power(a, n - 1), a, c);
    assert p * a == a * p && Power(a, n - 1) * a == a * Power(a, n - 1);
  }

  lemma {:induction false} PowerMonotone(b: nat, m: nat, n: nat)
    requires b >= 1 && m <= n
    ensures 0 < Power(b, m) <= Power(b, n)
    decreases n
  {
    PowerNonNeg(b, m);
    if m < n {
      PowerMonotone(b, m, n - 1);
      MulLe(1, b, Power(b, n - 1));
    }
  }

  /** ---- Digits ---- */

  /** The value of a digit; 36 for a character that is none. */
  function Digit(c: char): (d: nat)
    ensures d <= 36
  {
    if '0' <= c <= '9' then c as int - '0' as int
    else if 'a' <= c <= 'z' then c as int - 'a' as int + 10
    else if 'A' <= c <= 'Z' then c as int - 'A' as int + 10
    else 36
  }

  function DigitChar(d: nat): (c: char)
    requires d < 10
    ensures Digit(c) == d && '0' <= c <= '9'
  {
    '0' + d as char
  }

  predicate Digits(s: string, base: nat)
  {
    forall i :: 0 <= i < |s| ==> Digit(s[i]) < base
  }

  /** The number that a string of digits stands for. */
  function NumberOf(s: string, base: nat): (n: nat)
  {
    if s == [] then 0 else NumberOf(s[..|s| - 1], base) * base + Digit(s[|s| - 1])
  }

  /** The library's parser of unsigned words. */
  function ParseUint(s: string, base: nat): (w: Option<Word>)
  {
    if s != [] && Digits(s, base) && NumberOf(s, base) < B then Some(NumberOf(s, base)) else None
  }

  /** The usual decimal form: no leading zero. This is also what the library
      writes for a word. */
  function Decimal(n: nat): (s: string)
  {
    if n < 10 then [DigitChar(n)] else Decimal(n / 10) + [DigitChar(n % 10)]
  }

  ghost predicate Canonical(s: string)
  {
    s != [] && Digits(s, 10) && (forall i :: 0 <= i < |s| ==> '0' <= s[i] <= '9') && (|s| > 1 ==> s[0] != '0')
  }

  lemma {:induction false} NumberConcat(s: string, t: string, base: nat)
    ensures NumberOf(s + t, base) == NumberOf(s, base) * Power(base, |t|) + NumberOf(t, base)
  {
    if t == [] {
      assert s + t == s;
    } else {
      var t', d := t[..|t| - 1], Digit(t[|t| - 1]);
      assert (s + t)[..|s + t| - 1] == s + t';
      NumberConcat(s, t', base);
      var n, p := NumberOf(s, base), Power(base, |t'|);
      Distribute(base, n * p, NumberOf(t', base));
      MulSwap(n, base, p);
      MulSwap(base, n, p);
    }
  }

  lemma {:induction false} NumberBound(s: string, base: nat)
    requires base > 0 && Digits(s, base)
    ensures NumberOf(s, base) < Power(base, |s|)
  {
    if s != [] {
      var t := s[..|s| - 1];
      NumberBound(t, base);
      MulLe(NumberOf(t, base) + 1, Power(base, |t|), base);
      Distribute(base, NumberOf(t, base), 1);
    }
  }

  lemma DigitsConcat(s: string, t: string, base: nat)
    ensures Digits(s + t, base) <==> Digits(s, base) && Digits(t, base)
  {
    if Digits(s + t, base) {
      assert forall i :: 0 <= i < |s| ==> s[i] == (s + t)[i];
      assert forall i :: 0 <= i < |t| ==> t[i] == (s + t)[|s| + i];
    }
  }

  lemma {:induction false} ZerosAreZero(s: string, base: nat)
    requires forall i :: 0 <= i < |s| ==> s[i] == '0'
    ensures NumberOf(s, base) == 0
  {
    if s != [] {
      ZerosAreZero(s[..|s| - 1], base);
    }
  }

  /** A decimal form is canonical and stands for its number. */
  lemma {:induction false} DecimalReads(n: nat)
    ensures Canonical(Decimal(n)) && NumberOf(Decimal(n), 10) == n
    ensures n > 0 ==> Decimal(n)[0] != '0'
  {
    if n >= 10 {
      DecimalReads(n / 10);
      var s, c := Decimal(n / 10), DigitChar(n % 10);
      assert (s + [c])[..|s|] == s;
    } else {
      var s := Decimal(n);
      assert s[..0] == [] && NumberOf(s[..0], 10) == 0;
    }
  }

  /** Conversely, a canonical string is the decimal form of its number. */
  lemma {:induction false} CanonicalIsDecimal(s: string)
    requires Canonical(s)
    ensures s == Decimal(NumberOf(s, 10))
  {
    hide Decimal, Digit, Canonical;
    CanonicalParts(s);
    var t, c := s[..|s| - 1], s[|s| - 1];
    assert s == t + [c];
    DecimalNext(NumberOf(t, 10), c);
    if t != [] {
      CanonicalIsDecimal(t);
    }
  }

  lemma CanonicalParts(s: string)
    requires Canonical(s)
    ensures s != [] && '0' <= s[|s| - 1] <= '9'
    ensures if |s| == 1 then NumberOf(s[..|s| - 1], 10) == 0 else Canonical(s[..|s| - 1]) && NumberOf(s[..|s| - 1], 10) > 0
  {
    var t := s[..|s| - 1];
    if t != [] {
      assert t[0] == s[0];
      LeadingDigit(t);
      PowerNonNeg(10, |t| - 1);
    }
  }

  lemma DecimalNext(n: nat, c: char)
    requires '0' <= c <= '9'
    ensures Decimal(n * 10 + Digit(c)) == (if n == 0 then [] else Decimal(n)) + [c]
  {
    var d := Digit(c);
    assert DigitChar(d) == c;
    assert (n * 10 + d) / 10 == n && (n * 10 + d) % 10 == d;
  }

  lemma DecimalLength(n: nat, k: nat)
    requires n < Power(10, k) && k > 0
    ensures |Decimal(n)| <= k
  {
    DecimalReads(n);
    var s := Decimal(n);
    if n > 0 {
      LeadingDigit(s);
      PowerCompare(10, k, |s| - 1);
    }
  }

  lemma PowerCompare(b: nat, m: nat, n: nat)
    requires b >= 1
    ensures m <= n ==> Power(b, m) <= Power(b, n)
  {
    if m <= n {
      PowerMonotone(b, m, n);
    }
  }

  lemma {:induction false} LeadingDigit(s: string)
    requires Digits(s, 10) && s != [] && Digit(s[0]) > 0
    ensures NumberOf(s, 10) >= Power(10, |s| - 1)
  {
    var t := s[..|s| - 1];
    if t == [] {
      assert NumberOf(t, 10) == 0;
    } else {
      assert t[0] == s[0];
      LeadingDigit(t);
    }
  }

  /** ---- The size of a block ---- */

  function BlockOf(base: nat): (n: nat)
    requires base == 2 || base == 10 || base == 16
  {
    if base == 2 then 63 else if base == 10 then 19 else 16
  }

  const LIMIT: nat := 0x7fff_ffff_ffff_ffff

  lemma PowerSum(x: nat, m: nat, p: nat, n: nat, q: nat) returns (k: nat)
    requires Power(x, m) == p && Power(x, n) == q
    ensures k == m + n && Power(x, k) == p * q
  {
    k := m + n;
    PowerAdd(x, m, n);
  }

  /** The powers around the limit of each base. */
  lemma BlockPowers(base: nat, n: nat)
    requires base == 2 || base == 10 || base == 16
    requires n == BlockOf(base)
    ensures Power(base, n - 2) < LIMIT / base <= Power(base, n - 1) && Power(base, n) <= B
  {
    hide Power;
    SmallPowers(base);
    var k := PowerSum(base, 1, base, 1, base);
    if base == 2 {
      k := PowerSum(2, k, 4, k, 4);
      k := PowerSum(2, k, 16, k, 16);
      k := PowerSum(2, k, 256, k, 256);
      k := PowerSum(2, k, 0x1_0000, k, 0x1_0000);
      var l := PowerBefore(2, k, 0x1_0000_0000);
      l := PowerSum(2, k, 0x1_0000_0000, l, 0x8000_0000);
      var l1 := PowerBefore(2, l, 0x8000_0000_0000_0000);
      var l2 := PowerBefore(2, l1, 0x4000_0000_0000_0000);
    } else if base == 10 {
      k := PowerSum(10, k, 100, k, 100);
      k := PowerSum(10, k, 10_000, k, 10_000);
      k := PowerSum(10, k, 100_000_000, k, 100_000_000);
      k := PowerSum(10, k, 1_0000_0000_0000_0000, 1, 10);
      var l := PowerSum(10, k, 10_0000_0000_0000_0000, 1, 10);
      var m := PowerSum(10, l, 100_0000_0000_0000_0000, 1, 10);
    } else {
      k := PowerSum(16, k, 256, k, 256);
      k := PowerSum(16, k, 0x1_0000, k, 0x1_0000);
      k := PowerSum(16, k, 0x1_0000_0000, k, 0x1_0000_0000);
      var l := PowerBefore(16, k, 0x1_0000_0000_0000_0000);
      var m := PowerBefore(16, l, 0x1000_0000_0000_0000);
    }
  }

  lemma PowerBefore(x: nat, n: nat, p: nat) returns (m: nat)
    requires x > 0 && n > 0 && Power(x, n) == p
    ensures m == n - 1 && Power(x, m) * x == p
  {
    m := n - 1;
    assert Power(x, n) == x * Power(x, n - 1);
  }

  /** How many digits of a base are sure to fit in a word. */
  method BlockSize(base: nat) returns (blockSize: nat)
    requires base == 2 || base == 10 || base == 16
    ensures blockSize == BlockOf(base)
  {
    hide Power;
    blockSize := 1;
    var limit: Word := LIMIT / base;
    var basePower: Word := 1;
    SmallPowers(base);
    while basePower < limit
      invariant blockSize >= 1 && basePower == Power(base, blockSize - 1)
      invariant blockSize >= 2 ==> Power(base, blockSize - 2) < limit
      decreases LIMIT - basePower
    {
      MulLe(basePower, limit - 1, base);
      NextPowerIs(base, blockSize);
      basePower := basePower * base;
      blockSize := blockSize + 1;
    }
    ghost var n := BlockOf(base);
    BlockPowers(base, n);
    if blockSize < n {
      PowerMonotone(base, blockSize - 1, n - 2);
    } else if blockSize > n {
      PowerMonotone(base, n - 1, blockSize - 2);
    }
  }

  lemma NextPowerIs(x: nat, n: nat)
    requires n >= 1
    ensures Power(x, n) == Power(x, n - 1) * x
  {
  }

  /** ---- Reading ---- */

  /** The digits of a number and their base, after a prefix that names it. */
  function Strip(number: string): (r: (string, nat))
    ensures r.1 == 2 || r.1 == 10 || r.1 == 16
  {
    if |number| > 2 && number[..2] == "0x" then (number[2..], 16)
    else if |number| > 2 && number[..2] == "0b" then (number[2..], 2)
    else (number, 10)
  }

  /** Zero, a letter, and at least one more character. */
  predicate Prefixed(number: string, letter: char)
  {
    |number| > 2 && number[0] == '0' && number[1] == letter
  }

  const BINARY: string := "01"
  const DECIMAL: string := "0123456789"
  const HEX_LOWER: string := "0123456789abcdef"
  const HEX_UPPER: string := "0123456789ABCDEF"

  /** The digits of each base, character by character. */
  lemma DigitIs(c: char)
    ensures Digit(c) < 2 <==> c in BINARY
    ensures Digit(c) < 10 <==> c in DECIMAL
    ensures Digit(c) < 16 <==> c in HEX_LOWER || c in HEX_UPPER
  {
    assert c in BINARY <==> c == '0' || c == '1';
    assert c in DECIMAL <==> '0' <= c <= '9' by { InDecimal(c); }
    assert c in HEX_LOWER <==> '0' <= c <= '9' || 'a' <= c <= 'f' by { InHex(c); }
    assert c in HEX_UPPER <==> '0' <= c <= '9' || 'A' <= c <= 'F' by { InHex(c); }
  }

  lemma InDecimal(c: char)
    ensures c in DECIMAL <==> '0' <= c <= '9'
  {
    if '0' <= c <= '9' {
      var d := c as int - '0' as int;
      DecimalChar(d);
      assert DECIMAL[d] == c;
    }
    if c in DECIMAL {
      var d :| 0 <= d < |DECIMAL| && DECIMAL[d] == c;
      DecimalChar(d);
    }
  }

  lemma DecimalChar(d: nat)
    requires d < 10
    ensures DECIMAL[d] as int == '0' as int + d
  {
  }

  lemma InHex(c: char)
    ensures c in HEX_LOWER <==> '0' <= c <= '9' || 'a' <= c <= 'f'
    ensures c in HEX_UPPER <==> '0' <= c <= '9' || 'A' <= c <= 'F'
  {
    if '0' <= c <= '9' {
      HexChar(c as int - '0' as int);
    } else if 'a' <= c <= 'f' {
      HexChar(c as int - 'a' as int + 10);
    } else if 'A' <= c <= 'F' {
      HexChar(c as int - 'A' as int + 10);
    }
    if c in HEX_LOWER {
      var d :| 0 <= d < |HEX_LOWER| && HEX_LOWER[d] == c;
      HexChar(d);
    }
    if c in HEX_UPPER {
      var d :| 0 <= d < |HEX_UPPER| && HEX_UPPER[d] == c;
      HexChar(d);
    }
  }

  lemma HexChar(d: nat)
    requires d < 16
    ensures HEX_LOWER[d] as int == if d < 10 then '0' as int + d else 'a' as int + d - 10
    ensures HEX_UPPER[d] as int == if d < 10 then '0' as int + d else 'A' as int + d - 10
    ensures HEX_LOWER[d] in HEX_LOWER && HEX_UPPER[d] in HEX_UPPER
  {
  }

  lemma StripIs(number: string)
    ensures Prefixed(number, 'x') ==> Strip(number) == (number[2..], 16)
    ensures Prefixed(number, 'b') ==> Strip(number) == (number[2..], 2)
    ensures !Prefixed(number, 'x') && !Prefixed(number, 'b') ==> Strip(number) == (number, 10)
    ensures Digits(number, 10) <==> forall i :: 0 <= i < |number| ==> number[i] in DECIMAL
    ensures |number| >= 2 ==> (Digits(number[2..], 2) <==> forall i :: 2 <= i < |number| ==> number[i] in BINARY)
    ensures |number| >= 2 ==>
              (Digits(number[2..], 16) <==> forall i :: 2 <= i < |number| ==> number[i] in HEX_LOWER || number[i] in HEX_UPPER)
  {
    hide Digit;
    forall i | 0 <= i < |number|
      ensures Digit(number[i]) < 2 <==> number[i] in BINARY
      ensures Digit(number[i]) < 10 <==> number[i] in DECIMAL
      ensures Digit(number[i]) < 16 <==> number[i] in HEX_LOWER || number[i] in HEX_UPPER
    {
      DigitIs(number[i]);
    }
    if |number| >= 2 {
      assert number[..2][0] == number[0] && number[..2][1] == number[1];
      assert number[..2] == [number[0], number[1]];
      forall i | 2 <= i < |number|
        ensures number[2..][i - 2] == number[i]
      {
      }
      if Digits(number[2..], 2) {
        forall i | 2 <= i < |number| ensures Digit(number[i]) < 2 { assert number[2..][i - 2] == number[i]; }
      }
      if Digits(number[2..], 16) {
        forall i | 2 <= i < |number| ensures Digit(number[i]) < 16 { assert number[2..][i - 2] == number[i]; }
      }
    }
  }

  /** A number written with the given digits, most significant first. */
  function Written(n: nat, digits: string): (s: string)
    requires |digits| >= 2
  {
    if n < |digits| then [digits[n]] else Written(Quotient(n, |digits|), digits) + [digits[n % |digits|]]
  }

  function Quotient(n: nat, d: nat): (q: nat)
    requires d >= 2 && n >= d
    ensures q < n && n == q * d + n % d
  {
    DivTimesMod(n, d);
    DivNonNeg(n, d);
    Smaller(n / d, d, n);
    n / d
  }

  lemma Smaller(q: nat, d: nat, n: nat)
    requires d >= 2 && q * d <= n && n > 0
    ensures q < n
  {
    MulLe(2, d, q);
  }

  /** Reading what was written with the digits of a base. */
  lemma {:induction false} WrittenReads(n: nat, digits: string)
    requires |digits| >= 2 && forall d :: 0 <= d < |digits| ==> Digit(digits[d]) == d
    ensures Written(n, digits) != [] && Digits(Written(n, digits), |digits|) && NumberOf(Written(n, digits), |digits|) == n
    ensures forall i :: 0 <= i < |Written(n, digits)| ==> Written(n, digits)[i] in digits
  {
    var s := Written(n, digits);
    if n < |digits| {
      assert s[..0] == [] && NumberOf(s[..0], |digits|) == 0;
    } else {
      var q := Quotient(n, |digits|);
      WrittenReads(q, digits);
      var t := Written(q, digits);
      assert s == t + [digits[n % |digits|]] && s[..|s| - 1] == t;
    }
  }

  lemma DigitsSpelled()
    ensures forall d :: 0 <= d < 16 ==> Digit(HEX_LOWER[d]) == d && Digit(HEX_UPPER[d]) == d
    ensures forall d :: 0 <= d < 2 ==> Digit(BINARY[d]) == d
  {
    forall d | 0 <= d < 16
      ensures Digit(HEX_LOWER[d]) == d && Digit(HEX_UPPER[d]) == d
    {
      HexChar(d);
    }
  }

  /** A hexadecimal number in either case is read back after its prefix. */
  method ReadHexadecimal(n: nat, upper: bool) returns (r: Option<Int1024>)
    ensures r.Some? && r.value.Valid() && r.value.Value() == n % Capacity()
  {
    hide Val, Pow, Trimmed, NumberOf, Written, Digit;
    var digits := if upper then HEX_UPPER else HEX_LOWER;
    DigitsSpelled();
    WrittenReads(n, digits);
    var s := Written(n, digits);
    var number := "0x" + s;
    assert number[2..] == s;
    forall i | 2 <= i < |number|
      ensures number[i] in HEX_LOWER || number[i] in HEX_UPPER
    {
      assert number[i] == s[i - 2];
    }
    r := FromString(number);
  }

  /** And so is a binary one. */
  method ReadBinary(n: nat) returns (r: Option<Int1024>)
    ensures r.Some? && r.value.Valid() && r.value.Value() == n % Capacity()
  {
    hide Val, Pow, Trimmed, NumberOf, Written, Digit;
    DigitsSpelled();
    WrittenReads(n, BINARY);
    var s := Written(n, BINARY);
    var number := "0b" + s;
    assert number[2..] == s;
    forall i | 2 <= i < |number|
      ensures number[i] in BINARY
    {
      assert number[i] == s[i - 2];
    }
    r := FromString(number);
  }

  /** One more block in front of the digits read so far. */
  lemma BlockStep(block: string, suffix: string, base: nat, w: nat, acc: nat, product: nat, sum: nat, sum': nat, c: nat)
    requires c > 0 && w == NumberOf(block, base)
    requires acc == Power(base, |suffix|) % c && product == (w * acc) % c
    requires sum == NumberOf(suffix, base) % c && sum' == (sum + product) % c
    ensures sum' == NumberOf(block + suffix, base) % c
  {
    hide Power, NumberOf;
    var p, n := Power(base, |suffix|), NumberOf(suffix, base);
    ModMulLeft(p, w, c);
    assert acc * w == w * acc && p * w == w * p;
    ModAdd(n, w * p, c);
    NumberConcat(block, suffix, base);
  }

  lemma AccStep(base: nat, k: nat, n: nat, acc: nat, shift: nat, c: nat)
    requires c > 0 && acc == Power(base, k) % c && shift == Power(base, n)
    ensures (acc * shift) % c == Power(base, k + n) % c
  {
    hide Power;
    ModMulLeft(Power(base, k), shift, c);
    PowerAdd(base, k, n);
  }

  /** A block of digits that is not too long always parses. */
  lemma BlockParses(block: string, base: nat)
    requires base == 2 || base == 10 || base == 16
    requires 0 < |block| <= BlockOf(base)
    ensures ParseUint(block, base) == if Digits(block, base) then Some(NumberOf(block, base)) else None
  {
    hide Power, NumberOf, Digits;
    BlockPowers(base, BlockOf(base));
    if Digits(block, base) {
      NumberBound(block, base);
      PowerMonotone(base, |block|, BlockOf(base));
    }
  }

  /** Reads a number in base 10, 16 or 2: it is accepted if and only if it is a
      non-empty string of digits, and is right modulo 2^1024 at any length. */
  method FromString(number: string) returns (r: Option<Int1024>)
    ensures r.Some? <==> Strip(number).0 != [] && Digits(Strip(number).0, Strip(number).1)
    ensures r.Some? ==> r.value.Valid() && r.value.Value() == NumberOf(Strip(number).0, Strip(number).1) % Capacity()
    ensures Prefixed(number, 'x') ==>
              && (r.Some? <==> forall i :: 2 <= i < |number| ==> number[i] in HEX_LOWER || number[i] in HEX_UPPER)
              && (r.Some? ==> r.value.Value() == NumberOf(number[2..], 16) % Capacity())
    ensures Prefixed(number, 'b') ==>
              && (r.Some? <==> forall i :: 2 <= i < |number| ==> number[i] in BINARY)
              && (r.Some? ==> r.value.Value() == NumberOf(number[2..], 2) % Capacity())
    ensures !Prefixed(number, 'x') && !Prefixed(number, 'b') ==>
              && (r.Some? <==> number != [] && forall i :: 0 <= i < |number| ==> number[i] in DECIMAL)
              && (r.Some? ==> r.value.Value() == NumberOf(number, 10) % Capacity())
  {
    hide Val, Pow, Trimmed, Power, NumberOf;
    StripIs(number);
    var (digits, base) := Strip(number);
    var length := |digits|;
    if length == 0 {
      return None;
    }
    var sum := new Int1024.Zero();
    BelowCapacity(sum.words[..]);
    SmallMod(0, Capacity());
    if digits == "0" {
      ZerosAreZero(digits, base);
      return Some(sum);
    }
    r := ReadBlocks(digits, base);
  }

  method ReadBlocks(digits: string, base: nat) returns (r: Option<Int1024>)
    requires digits != [] && (base == 2 || base == 10 || base == 16)
    ensures r.Some? <==> Digits(digits, base)
    ensures r.Some? ==> r.value.Valid() && r.value.Value() == NumberOf(digits, base) % Capacity()
  {
    hide Val, Pow, Trimmed, Power, NumberOf, Digits, ParseUint, BlockCount, Read;
    var length := |digits|;
    var blockSize := BlockSize(base);
    var count := BlockCount(length, blockSize);
    var shift := ShiftOf(base, blockSize);
    var shiftAcc := new Int1024.FromUint(1);
    var sum := new Int1024.Zero();
    ghost var suffix: string := [];
    ReadNothing(base);
    ReadEnds(length, blockSize);
    for i := 0 to count
      invariant sum.Valid() && shiftAcc.Loose() && shift.Valid() && shift.Value() == Power(base, blockSize)
      invariant |suffix| == Read(length, blockSize, i) <= length
      invariant suffix == digits[length - |suffix|..] && Digits(suffix, base)
      invariant i < count ==> shiftAcc.Value() == Power(base, |suffix|) % Capacity()
      invariant sum.Value() == NumberOf(suffix, base) % Capacity()
    {
      var start, end := BlockRange(length, blockSize, i);
      var block := digits[start..end];
      var read := ReadBlock(block, base, suffix, sum, shiftAcc);
      BlockDigits(digits, start, end, base);
      if read.None? {
        return None;
      }
      AccStep(base, |suffix|, blockSize, shiftAcc.Value(), shift.Value(), Capacity());
      sum := read.value;
      suffix := digits[start..];
      shiftAcc := Mul(shiftAcc, shift);
    }
    assert suffix == digits;
    r := Some(sum);
  }

  function BlockCount(length: nat, size: nat): (count: nat)
    requires size > 0
  {
    DivNonNeg(length, size);
    if length % size != 0 then length / size + 1 else length / size
  }

  /** How many digits the first i blocks from the end have. */
  ghost function Read(length: nat, size: nat, i: nat): (n: int)
  {
    if i * size < length then i * size else length
  }

  lemma ReadEnds(length: nat, size: nat)
    requires size > 0
    ensures Read(length, size, 0) == 0 && Read(length, size, BlockCount(length, size)) == length
  {
    DivTimesMod(length, size);
    DivNonNeg(length, size);
    Distribute(size, length / size, 1);
  }

  /** The digits of block i, counted from the end. */
  method BlockRange(length: nat, size: nat, i: nat) returns (start: nat, end: nat)
    requires size > 0 && i < BlockCount(length, size)
    ensures start < end <= length && end - start <= size
    ensures end == length - Read(length, size, i) && start == length - Read(length, size, i + 1)
    ensures i + 1 < BlockCount(length, size) ==> end - start == size
  {
    BlockBounds(length, size, BlockCount(length, size), i);
    end := length - i * size;
    var low := length - (i + 1) * size;
    if low < 0 {
      low := 0;
    }
    start := low;
  }

  lemma BlockDigits(digits: string, start: nat, end: nat, base: nat)
    requires start <= end <= |digits|
    ensures digits[start..] == digits[start..end] + digits[end..]
    ensures Digits(digits[start..], base) <==> Digits(digits[start..end], base) && Digits(digits[end..], base)
    ensures Digits(digits, base) ==> Digits(digits[start..], base)
  {
    assert digits[start..] == digits[start..end] + digits[end..];
    assert digits == digits[..start] + digits[start..];
    DigitsConcat(digits[start..end], digits[end..], base);
    DigitsConcat(digits[..start], digits[start..], base);
  }

  /** Adds the value of a block, shifted past the digits read so far. */
  method ReadBlock(block: string, base: nat, ghost suffix: string, sum: Int1024, shiftAcc: Int1024) returns (r: Option<Int1024>)
    requires (base == 2 || base == 10 || base == 16) && 0 < |block| <= BlockOf(base)
    requires sum.Valid() && sum.Value() == NumberOf(suffix, base) % Capacity()
    requires shiftAcc.Loose() && shiftAcc.Value() == Power(base, |suffix|) % Capacity()
    ensures r.Some? <==> Digits(block, base)
    ensures r.Some? ==> r.value.Valid() && r.value.Value() == NumberOf(block + suffix, base) % Capacity()
  {
    hide Val, Pow, Trimmed, Power, NumberOf, Digits, ParseUint;
    BlockParses(block, base);
    var word := ParseUint(block, base);
    if word.None? {
      return None;
    }
    var wordI := new Int1024.FromUint(word.value);
    AtMostOneWord(wordI);
    var product := Mul(wordI, shiftAcc);
    var sum' := Add(sum, product);
    BelowCapacity(sum.words[..]);
    BlockStep(block, suffix, base, word.value, shiftAcc.Value(), product.Value(), sum.Value(), sum'.Value(), Capacity());
    return Some(sum');
  }

  lemma AtMostOneWord(x: Int1024)
    requires x.Valid() && x.Value() < B
    ensures x.length <= 1
  {
    hide Val, Pow;
    TrimmedRange(x.words[..], x.length);
    PowOne();
    if x.length > 1 {
      PowMonotone(1, x.length - 1);
    }
  }

  /** Where block i of a number lies, counted from the end. */
  lemma BlockBounds(length: nat, size: nat, count: nat, i: nat)
    requires size > 0 && length > 0 && i < count
    requires count == length / size + if length % size != 0 then 1 else 0
    ensures 0 <= i * size < length && (i + 1) * size == i * size + size
    ensures i + 1 < count <==> (i + 1) * size < length
  {
    DivTimesMod(length, size);
    Distribute(size, i, 1);
    MulLe(i + 1, count, size);
    Distribute(size, count, 1);
    if i + 1 < count {
      MulLe(i + 2, count, size);
      Distribute(size, i + 1, 1);
    } else {
      assert i + 1 == count;
    }
  }

  lemma ReadNothing(base: nat)
    ensures Power(base, 0) % Capacity() == 1 && NumberOf([], base) % Capacity() == 0 && Digits([], base)
  {
    hide Pow;
    WordBelowCapacity();
    SmallMod(1, Capacity());
    SmallMod(0, Capacity());
  }

  method ShiftOf(base: nat, blockSize: nat) returns (shift: Int1024)
    requires (base == 2 || base == 10 || base == 16) && blockSize == BlockOf(base)
    ensures shift.Valid() && shift.Value() == Power(base, blockSize)
  {
    hide Val, Pow, Trimmed, Power;
    BlockPowers(base, blockSize);
    PowerNonNeg(base, blockSize);
    var b := new Int1024.FromUint(base);
    var e := new Int1024.FromUint(blockSize);
    WordBelowCapacity();
    SmallMod(Power(base, blockSize), Capacity());
    shift := Exp(b, e);
  }

  lemma WordBelowCapacity()
    ensures B < Capacity()
  {
    hide Pow;
    PowOne();
    PowMonotone(2, WORDS);
    PowAdd(1, 1);
    MulLt(1, B, B);
  }

  /** ---- Writing ---- */

  const BLOCK: nat := 19

  function Zeroes(n: nat): (s: string)
    ensures |s| == n && forall i :: 0 <= i < n ==> s[i] == '0'
  {
    seq(n, _ => '0')
  }

  ghost predicate Decimals(s: string)
  {
    forall i :: 0 <= i < |s| ==> '0' <= s[i] <= '9'
  }

  /** A word below 10^19 as exactly nineteen digits. */
  method FormatBlock(w: Word) returns (s: string)
    requires w < Power(10, BLOCK)
    ensures |s| == BLOCK && Decimals(s) && NumberOf(s, 10) == w
  {
    hide Power, NumberOf, Decimal;
    DecimalReads(w);
    DecimalLength(w, BLOCK);
    var chars := Decimal(w);
    var zeroes := Zeroes(BLOCK - |chars|);
    ZerosAreZero(zeroes, 10);
    NumberConcat(zeroes, chars, 10);
    s := zeroes + chars;
  }

  /** Drops the zeros in front. */
  method TrimLeft(s: string) returns (t: string)
    requires Decimals(s)
    ensures Decimals(t) && NumberOf(t, 10) == NumberOf(s, 10) && (t != [] ==> t[0] != '0')
  {
    hide Power, NumberOf;
    var i := 0;
    while i < |s| && s[i] == '0'
      invariant i <= |s| && forall k :: 0 <= k < i ==> s[k] == '0'
    {
      i := i + 1;
    }
    t := s[i..];
    ZerosAreZero(s[..i], 10);
    NumberConcat(s[..i], t, 10);
    assert s == s[..i] + t;
  }

  /** One more block of digits in front. */
  lemma BlockWritten(block: string, ret: string, base: nat, q: nat, q': nat, x: nat)
    requires q == q' * base + NumberOf(block, 10) && base == Power(10, |block|)
    requires x == q * Power(10, |ret|) + NumberOf(ret, 10)
    ensures x == q' * Power(10, |block + ret|) + NumberOf(block + ret, 10)
  {
    hide Power, NumberOf;
    var n, p := NumberOf(block, 10), Power(10, |ret|);
    NumberConcat(block, ret, 10);
    PowerAdd(10, |block|, |ret|);
    assert |block + ret| == |block| + |ret|;
    Distribute(p, q' * base, n);
    MulSwap(q', base, p);
  }

  /** Writes the usual decimal form of an integer. */
  method ToString(x: Int1024) returns (s: string)
    requires x.Valid()
    ensures s == Decimal(x.Value())
  {
    hide Val, Pow, Trimmed, Power, NumberOf, Decimal, Decimals, Canonical;
    var base := ShiftOf(10, BLOCK);
    BlockPowers(10, BLOCK);
    PowerMonotone(10, BLOCK - 1, BLOCK);
    ghost var X := x.Value();
    var q := x;
    s := [];
    WriteNothing(X);
    x.EqualsWordIs(0);
    while !q.IsZero()
      invariant q.Valid() && base.Valid() && base.Value() == Power(10, BLOCK) >= 2 && Decimals(s)
      invariant X == q.Value() * Power(10, |s|) + NumberOf(s, 10)
      invariant q.IsZero() <==> q.Value() == 0
      decreases q.Value()
    {
      var q', r := DivMod(q, base);
      LowWord(r);
      var block := FormatBlock(r.words[0]);
      BlockWritten(block, s, base.Value(), q.Value(), q'.Value(), X);
      JoinDecimals(block, s);
      QuotientShrinks(q.Value(), q'.Value(), base.Value(), r.Value());
      q'.EqualsWordIs(0);
      s := block + s;
      q := q';
    }
    s := TrimLeft(s);
    if s == [] {
      EmptyIsZero();
      return "0";
    }
    TrimmedCanonical(s);
    CanonicalIsDecimal(s);
  }

  lemma WriteNothing(x: nat)
    ensures x == x * Power(10, 0) + NumberOf([], 10) && Decimals([])
  {
  }

  lemma LowWord(r: Int1024)
    requires r.Valid() && r.Value() < B
    ensures r.words[0] == r.Value()
  {
    hide Val, Pow;
    AtMostOneWord(r);
    TrimmedZeros(r.words[..], r.length);
    OneWord(r.words[..]);
  }

  lemma JoinDecimals(s: string, t: string)
    requires Decimals(s) && Decimals(t)
    ensures Decimals(s + t)
  {
  }

  lemma QuotientShrinks(q: nat, q': nat, base: nat, r: nat)
    requires q > 0 && base >= 2 && q == q' * base + r
    ensures q' < q
  {
    MulLe(2, base, q');
  }

  lemma EmptyIsZero()
    ensures NumberOf([], 10) == 0 && Decimal(0) == "0"
  {
  }

  lemma TrimmedCanonical(s: string)
    requires s != [] && Decimals(s) && s[0] != '0'
    ensures Canonical(s)
  {
  }

  /** ---- Round trips ---- */

  /** Reading what was written gives the integer back. */
  method WriteThenRead(x: Int1024) returns (y: Option<Int1024>)
    requires x.Valid()
    ensures y.Some? && y.value.Valid() && y.value.Value() == x.Value()
  {
    hide Val, Pow, Trimmed, NumberOf, Decimal;
    var s := ToString(x);
    DecimalPlain(x.Value());
    BelowCapacity(x.words[..]);
    SmallMod(x.Value(), Capacity());
    y := FromString(s);
  }

  /** Writing what was read gives the usual form of the number. */
  method ReadThenWrite(s: string) returns (t: Option<string>)
    ensures t.Some? <==> Strip(s).0 != [] && Digits(Strip(s).0, Strip(s).1)
    ensures t.Some? ==> t.value == Decimal(NumberOf(Strip(s).0, Strip(s).1) % Capacity())
    ensures Canonical(s) && NumberOf(s, 10) < Capacity() ==> t == Some(s)
  {
    hide Val, Pow, Trimmed, NumberOf, Decimal;
    var x := FromString(s);
    if Canonical(s) && NumberOf(s, 10) < Capacity() {
      CanonicalIsDecimal(s);
      DecimalPlain(NumberOf(s, 10));
      SmallMod(NumberOf(s, 10), Capacity());
    }
    if x.None? {
      return None;
    }
    var written := ToString(x.value);
    return Some(written);
  }

  /** A decimal form has no prefix, and reads as its number. */
  lemma DecimalPlain(n: nat)
    ensures var s := Decimal(n); Strip(s) == (s, 10) && s != [] && Digits(s, 10) && NumberOf(s, 10) == n
  {
    hide NumberOf, Decimal;
    DecimalReads(n);
    var s := Decimal(n);
    if |s| > 2 {
      assert s[..2][0] == s[0] && s[..2][1] == s[1];
    }
  }
}
