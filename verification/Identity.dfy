/** Addresses of nodes and the XOR distance between them. */
module Identity {
  import opened Integers
  import opened Bits

  const ID_BITS: nat := 160

  type ID = s: seq<bv8> | |s| == 20 witness seq(20, _ => 0)

  /** An address is text: it spells out an identifier or it is malformed. */
  datatype Address = Address(id: ID) | Malformed(text: seq<char>)

  datatype Result<+T> = Ok(value: T) | Err

  /** ---- Bytes and bits ---- */

  /** The mask of bit j of a byte, the most significant bit first. */
  function Mask(j: nat): (m: bv8)
    requires j < 8
  {
    if j == 0 then 0x80 else if j == 1 then 0x40 else if j == 2 then 0x20 else if j == 3 then 0x10
    else if j == 4 then 0x08 else if j == 5 then 0x04 else if j == 6 then 0x02 else 0x01
  }

  predicate ByteBit(b: bv8, j: nat)
    requires j < 8
  {
    b & Mask(j) != 0
  }

  /** Bit p of an identifier, counting from its start. */
  predicate IdBit(id: ID, p: nat)
    requires p < ID_BITS
  {
    ByteBit(id[p / 8], p % 8)
  }

  lemma XorBit(a: bv8, b: bv8, j: nat)
    requires j < 8
    ensures ByteBit(a ^ b, j) <==> (ByteBit(a, j) != ByteBit(b, j))
  {
    var m := Mask(j);
    assert m == 0x80 || m == 0x40 || m == 0x20 || m == 0x10 || m == 0x08 || m == 0x04 || m == 0x02 || m == 0x01;
    XorMask(a, b, m);
  }

  lemma XorMask(a: bv8, b: bv8, m: bv8)
    requires m == 0x80 || m == 0x40 || m == 0x20 || m == 0x10 || m == 0x08 || m == 0x04 || m == 0x02 || m == 0x01
    ensures ((a ^ b) & m != 0) <==> ((a & m != 0) != (b & m != 0))
  {
  }

  lemma XorZero(a: bv8, b: bv8)
    ensures a ^ b == 0 <==> a == b
  {
  }

  lemma XorCancel(a: bv8, b: bv8, c: bv8)
    ensures a ^ c == b ^ c <==> a == b
  {
  }

  lemma ByteZero(b: bv8)
    ensures b == 0 <==> forall j: nat :: j < 8 ==> !ByteBit(b, j)
  {
    if forall j: nat :: j < 8 ==> !ByteBit(b, j) {
      assert !ByteBit(b, 0) && !ByteBit(b, 1) && !ByteBit(b, 2) && !ByteBit(b, 3);
      assert !ByteBit(b, 4) && !ByteBit(b, 5) && !ByteBit(b, 6) && !ByteBit(b, 7);
    }
  }

  /** The leading bit of a byte gives its size. */
  lemma LeadingBit(b: bv8, j: nat)
    requires j < 8 && ByteBit(b, j) && forall i: nat :: i < j ==> !ByteBit(b, i)
    ensures Pow2(7 - j) <= Num(b) < Pow2(8 - j)
  {
    if j >= 1 { assert !ByteBit(b, 0); }
    if j >= 2 { assert !ByteBit(b, 1); }
    if j >= 3 { assert !ByteBit(b, 2); }
    if j >= 4 { assert !ByteBit(b, 3); }
    if j >= 5 { assert !ByteBit(b, 4); }
    if j >= 6 { assert !ByteBit(b, 5); }
    if j >= 7 { assert !ByteBit(b, 6); }
  }

  /** ---- Distances ---- */

  function Xor(a: ID, b: ID): (r: ID)
  {
    seq(20, i requires 0 <= i < 20 => a[i] ^ b[i])
  }

  function Num(b: bv8): (n: nat)
    ensures n < 256
  {
    b as nat
  }

  /** A bit of the distance is one exactly where the two identifiers differ. */
  lemma XorBits(a: ID, b: ID, p: nat)
    requires p < ID_BITS
    ensures IdBit(Xor(a, b), p) <==> (IdBit(a, p) != IdBit(b, p))
  {
    hide ByteBit;
    XorBit(a[p / 8], b[p / 8], p % 8);
  }

  /** The number that the bytes spell, most significant first. */
  function Value(s: seq<bv8>): nat
  {
    if s == [] then 0 else Num(s[0]) * Pow2(8 * (|s| - 1)) + Value(s[1..])
  }

  function Gap(a: ID, b: ID): (d: nat)
  {
    Value(Xor(a, b))
  }

  lemma Shifted(n: nat)
    ensures Pow2(8 * (n + 1)) == 256 * Pow2(8 * n)
  {
    Pow2Add(8, 8 * n);
    assert 8 * (n + 1) == 8 + 8 * n;
    assert Pow2(8) == 256;
  }

  lemma {:induction false} ValueBound(s: seq<bv8>)
    ensures Value(s) < Pow2(8 * |s|)
  {
    if s != [] {
      hide Pow2, Num;
      var m := |s| - 1;
      ValueBound(s[1..]);
      Shifted(m);
      MulLe(Num(s[0]) + 1, 256, Pow2(8 * m));
      Distribute(Pow2(8 * m), Num(s[0]), 1);
    }
  }

  /** The first byte in which two numbers differ decides. */
  lemma {:induction false} ValueLess(s: seq<bv8>, t: seq<bv8>, i: nat)
    requires |s| == |t| && i < |s| && s[i] < t[i] && forall k :: 0 <= k < i ==> s[k] == t[k]
    ensures Value(s) < Value(t)
  {
    hide Pow2, Num;
    if i == 0 {
      var p := Pow2(8 * (|s| - 1));
      ValueBound(s[1..]);
      assert Num(s[0]) + 1 <= Num(t[0]) by { ByteLess(s[0], t[0]); }
      MulLe(Num(s[0]) + 1, Num(t[0]), p);
      Distribute(p, Num(s[0]), 1);
    } else {
      ValueLess(s[1..], t[1..], i - 1);
    }
  }

  lemma ByteLess(a: bv8, b: bv8)
    ensures a < b <==> Num(a) < Num(b)
  {
  }

  lemma GapZero(a: ID, b: ID)
    ensures Gap(a, b) == 0 <==> a == b
  {
    hide Value;
    var z: ID := seq(20, _ => 0 as bv8);
    ValueOfZeros(z);
    if a == b {
      forall i | 0 <= i < 20 ensures Xor(a, b)[i] == 0 { XorZero(a[i], b[i]); }
      assert Xor(a, b) == z;
    } else {
      var i := FirstDifference(a, b);
      XorZero(a[i], b[i]);
      forall k | 0 <= k < i ensures Xor(a, b)[k] == 0 { XorZero(a[k], b[k]); }
      ValueLess(z, Xor(a, b), i);
    }
  }

  lemma {:induction false} ValueOfZeros(s: seq<bv8>)
    requires forall i :: 0 <= i < |s| ==> s[i] == 0
    ensures Value(s) == 0
  {
    if s != [] {
      ValueOfZeros(s[1..]);
    }
  }

  lemma FirstDifference(a: ID, b: ID) returns (i: nat)
    requires a != b
    ensures i < 20 && a[i] != b[i] && forall k :: 0 <= k < i ==> a[k] == b[k]
  {
    i := 0;
    while a[i] == b[i]
      invariant i < 20 && forall k :: 0 <= k < i ==> a[k] == b[k]
      decreases 20 - i
    {
      assert i == 19 ==> a == b;
      i := i + 1;
    }
  }

  /** Two nodes are never equally far from a target. */
  lemma GapUnique(a: ID, b: ID, t: ID)
    ensures Gap(a, t) == Gap(b, t) <==> a == b
  {
    hide Value;
    if a != b {
      var i := FirstDifference(a, b);
      var x, y := Xor(a, t), Xor(b, t);
      XorCancel(a[i], b[i], t[i]);
      assert forall k :: 0 <= k < i ==> x[k] == y[k];
      if x[i] < y[i] {
        ValueLess(x, y, i);
      } else {
        ValueLess(y, x, i);
      }
    }
  }

  /** Being strictly closer is being at most as far except for a node compared
      with itself. */
  lemma CloserAtTies(left: ID, right: ID, target: ID)
    ensures (Gap(left, target) < Gap(right, target) <==> Gap(left, target) <= Gap(right, target)) <==> left != right
  {
    hide Gap;
    GapUnique(left, right, target);
  }

  /** The number of leading bits that two identifiers share, from bit p on. */
  function PrefixFrom(a: ID, b: ID, p: nat): (n: nat)
    requires p <= ID_BITS
    ensures p <= n <= ID_BITS
    ensures n < ID_BITS ==> IdBit(a, n) != IdBit(b, n)
    ensures forall q: nat :: p <= q < n ==> IdBit(a, q) == IdBit(b, q)
    decreases ID_BITS - p
  {
    if p == ID_BITS || IdBit(a, p) != IdBit(b, p) then p else PrefixFrom(a, b, p + 1)
  }

  function Prefix(a: ID, b: ID): (n: nat)
    ensures n <= ID_BITS
    ensures n < ID_BITS ==> IdBit(a, n) != IdBit(b, n)
    ensures forall q: nat :: q < n ==> IdBit(a, q) == IdBit(b, q)
  {
    PrefixFrom(a, b, 0)
  }

  /** The shared prefix is the position of the leading bit of the distance: nodes
      that share p bits are between 2^(159-p) and 2^(160-p) apart. */
  lemma PrefixGap(a: ID, b: ID)
    ensures Prefix(a, b) == ID_BITS <==> a == b
    ensures Prefix(a, b) < ID_BITS ==> Pow2(ID_BITS - 1 - Prefix(a, b)) <= Gap(a, b) < Pow2(ID_BITS - Prefix(a, b))
  {
    hide Prefix, Value, Pow2;
    var p := Prefix(a, b);
    if p == ID_BITS {
      forall i | 0 <= i < 20 ensures a[i] == b[i] {
        SameByte(a, b, i);
      }
    } else {
      var k, j := p / 8, p % 8;
      var x := Xor(a, b);
      forall i | 0 <= i < k ensures x[i] == 0 {
        SameByte(a, b, i);
        XorZero(a[i], b[i]);
      }
      XorBit(a[k], b[k], j);
      forall i: nat | i < j ensures !ByteBit(x[k], i) {
        assert IdBit(a, 8 * k + i) == IdBit(b, 8 * k + i);
        XorBit(a[k], b[k], i);
      }
      LeadingBit(x[k], j);
      SkipZeros(x, k);
      ValueRange(x[k..], 7 - j);
    }
  }

  lemma SameByte(a: ID, b: ID, i: nat)
    requires i < 20 && forall q: nat :: 8 * i <= q < 8 * i + 8 ==> (IdBit(a, q) <==> IdBit(b, q))
    ensures a[i] == b[i]
  {
    hide ByteBit;
    var x := a[i] ^ b[i];
    forall j: nat | j < 8 ensures !ByteBit(x, j) {
      assert IdBit(a, 8 * i + j) == IdBit(b, 8 * i + j);
      XorBit(a[i], b[i], j);
    }
    ByteZero(x);
    XorZero(a[i], b[i]);
  }

  lemma {:induction false} SkipZeros(s: seq<bv8>, k: nat)
    requires k <= |s| && forall i :: 0 <= i < k ==> s[i] == 0
    ensures Value(s) == Value(s[k..])
  {
    if k > 0 {
      SkipZeros(s[1..], k - 1);
      assert s[1..][k - 1..] == s[k..];
    } else {
      assert s[0..] == s;
    }
  }

  lemma ValueRange(s: seq<bv8>, e: nat)
    requires s != [] && Pow2(e) <= Num(s[0]) < Pow2(e + 1)
    ensures Pow2(e + 8 * (|s| - 1)) <= Value(s) < Pow2(e + 1 + 8 * (|s| - 1))
  {
    hide Pow2, Num;
    var m := 8 * (|s| - 1);
    ValueBound(s[1..]);
    Pow2Add(e, m);
    Pow2Add(e + 1, m);
    MulLe(Pow2(e), Num(s[0]), Pow2(m));
    MulLe(Num(s[0]) + 1, Pow2(e + 1), Pow2(m));
    Distribute(Pow2(m), Num(s[0]), 1);
  }

  lemma {:induction false} PrefixSkip(a: ID, b: ID, p: nat, q: nat)
    requires p <= q <= ID_BITS
    requires forall k: nat {:trigger IdBit(a, k)} :: p <= k < q ==> IdBit(a, k) == IdBit(b, k)
    ensures PrefixFrom(a, b, p) == PrefixFrom(a, b, q)
    decreases q - p
  {
    if p < q {
      PrefixSkip(a, b, p + 1, q);
    }
  }

  /** Equal bytes, then equal bits, then a bit that differs. */
  lemma PrefixAt(a: ID, b: ID, i: nat, x: bv8, j: nat)
    requires i < 20 && j < 8 && (forall k :: 0 <= k < i ==> a[k] == b[k]) && x == a[i] ^ b[i]
    requires ByteBit(x, j) && forall l: nat :: l < j ==> !ByteBit(x, l)
    ensures Prefix(a, b) == 8 * i + j
  {
    hide ByteBit;
    var p := 8 * i + j;
    assert IdBit(a, p) != IdBit(b, p) by {
      XorBit(a[i], b[i], j);
    }
    forall k: nat {:trigger IdBit(a, k)} | k < p ensures IdBit(a, k) == IdBit(b, k) {
      BitBefore(a, b, i, x, j, k);
    }
    hide IdBit;
    PrefixSkip(a, b, 0, p);
  }

  lemma BitBefore(a: ID, b: ID, i: nat, x: bv8, j: nat, p: nat)
    requires i < 20 && j < 8 && (forall k :: 0 <= k < i ==> a[k] == b[k]) && x == a[i] ^ b[i]
    requires p < 8 * i + j && forall l: nat :: l < j ==> !ByteBit(x, l)
    ensures IdBit(a, p) == IdBit(b, p)
  {
    hide ByteBit;
    if p / 8 == i {
      XorBit(a[i], b[i], p % 8);
    }
  }

  /** ---- The operations ---- */

  method Distance(address: Address, other: Address) returns (r: Result<ID>)
    ensures r == if address.Address? && other.Address? then Ok(Xor(address.id, other.id)) else Err
  {
    if address.Malformed? || other.Malformed? {
      return Err;
    }
    var xor := new bv8[20];
    for i := 0 to 20
      invariant forall k :: 0 <= k < i ==> xor[k] == address.id[k] ^ other.id[k]
    {
      xor[i] := address.id[i] ^ other.id[i];
    }
    assert xor[..] == Xor(address.id, other.id);
    return Ok(xor[..]);
  }

  method SamePrefixLength(address: Address, other: Address) returns (r: Result<nat>)
    ensures r == if address.Address? && other.Address? then Ok(Prefix(address.id, other.id)) else Err
  {
    var diff := Distance(address, other);
    if diff.Err? {
      return Err;
    }
    hide Prefix, ByteBit;
    var d := diff.value;
    var ret: nat := 0;
    for i := 0 to 20
      invariant ret == 8 * i && forall k :: 0 <= k < i ==> address.id[k] == other.id[k]
    {
      XorZero(address.id[i], other.id[i]);
      if d[i] == 0 {
        ret := ret + 8;
      } else {
        for j := 0 to 8
          invariant ret == 8 * i + j && forall l: nat :: l < j ==> !ByteBit(d[i], l)
        {
          if ByteBit(d[i], j) {
            PrefixAt(address.id, other.id, i, d[i], j);
            return Ok(ret);
          }
          ret := ret + 1;
        }
        ByteZero(d[i]);
      }
    }
    assert address.id == other.id;
    PrefixGap(address.id, other.id);
    return Ok(ret);
  }

  /** Strictly closer, as numbers; a node is not closer than itself. */
  method Closer(left: Address, right: Address, target: Address) returns (r: Result<bool>)
    ensures r == if left.Address? && right.Address? && target.Address?
                 then Ok(Gap(left.id, target.id) < Gap(right.id, target.id)) else Err
  {
    hide Value;
    var leftDist := Distance(left, target);
    if leftDist.Err? {
      return Err;
    }
    var rightDist := Distance(right, target);
    if rightDist.Err? {
      return Err;
    }
    var s, t := leftDist.value, rightDist.value;
    for i := 0 to 20
      invariant forall k :: 0 <= k < i ==> s[k] == t[k]
    {
      if s[i] < t[i] {
        ValueLess(s, t, i);
        return Ok(true);
      } else if s[i] > t[i] {
        ValueLess(t, s, i);
        return Ok(false);
      }
    }
    assert s == t;
    return Ok(false);
  }
}
