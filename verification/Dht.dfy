/** The table of known peers: one bucket for every length of address prefix that
    a peer can share with the node that owns the table. */
module Dht {
  import opened Options
  import opened Identity

  /** An address together with where to reach it. */
  datatype MultiAddress = MultiAddress(address: Address, location: seq<char>)

  datatype DhtError = BadAddress | OwnAddress | FullBucket

  datatype Outcome<+T> = Done(value: T) | Failed(error: DhtError)

  type Bucket = seq<MultiAddress>

  const BUCKETS: nat := 160

  /** ---- Buckets as values ---- */

  ghost predicate Distinct(b: Bucket)
  {
    forall i, j :: 0 <= i < j < |b| ==> b[i].address != b[j].address
  }

  /** What is left of a bucket without an address, in the same order. */
  function Without(b: Bucket, a: Address): (r: Bucket)
  {
    if b == [] then []
    else Without(b[..|b| - 1], a) + if b[|b| - 1].address == a then [] else [b[|b| - 1]]
  }

  lemma {:induction false} WithoutHolds(b: Bucket, a: Address)
    ensures forall m :: m in Without(b, a) <==> m in b && m.address != a
  {
    if b != [] {
      WithoutHolds(b[..|b| - 1], a);
      assert b == b[..|b| - 1] + [b[|b| - 1]];
    }
  }

  lemma {:induction false} WithoutDistinct(b: Bucket, a: Address)
    requires Distinct(b)
    ensures Distinct(Without(b, a)) && |Without(b, a)| <= |b|
  {
    if b != [] {
      var c, last := b[..|b| - 1], b[|b| - 1];
      WithoutDistinct(c, a);
      WithoutHolds(c, a);
      DistinctConcat(Without(c, a), if last.address == a then [] else [last]);
    }
  }

  lemma {:induction false} WithoutAbsent(b: Bucket, a: Address)
    requires forall i :: 0 <= i < |b| ==> b[i].address != a
    ensures Without(b, a) == b
  {
    if b != [] {
      WithoutAbsent(b[..|b| - 1], a);
      assert b == b[..|b| - 1] + [b[|b| - 1]];
    }
  }

  /** Cutting out the one place of an address. */
  lemma {:induction false} CutIsWithout(b: Bucket, a: Address, k: nat)
    requires Distinct(b) && k < |b| && b[k].address == a
    ensures b[..k] + b[k + 1..] == Without(b, a) && |Without(b, a)| == |b| - 1
  {
    var c, last := b[..|b| - 1], b[|b| - 1];
    if k == |c| {
      WithoutAbsent(c, a);
    } else {
      CutIsWithout(c, a, k);
      assert b[..k] + b[k + 1..] == c[..k] + c[k + 1..] + [last];
    }
  }

  /** ---- The table as a value ---- */

  /** A peer in bucket i shares 159 - i bits with the owner of the table. */
  predicate Placed(own: Address, m: MultiAddress, i: int)
  {
    own.Address? && m.address.Address? && Prefix(own.id, m.address.id) == BUCKETS - 1 - i
  }

  ghost predicate BucketOk(own: Address, max: nat, b: Bucket, i: int)
  {
    |b| <= max && Distinct(b) && forall m :: m in b ==> Placed(own, m, i)
  }

  ghost predicate Tidy(own: Address, max: nat, bs: seq<Bucket>)
  {
    forall i :: 0 <= i < |bs| ==> BucketOk(own, max, bs[i], i)
  }

  ghost predicate Known(bs: seq<Bucket>, m: MultiAddress)
  {
    exists i :: 0 <= i < |bs| && m in bs[i]
  }

  function Flat(bs: seq<Bucket>): (ms: seq<MultiAddress>)
  {
    if bs == [] then [] else Flat(bs[..|bs| - 1]) + bs[|bs| - 1]
  }

  /** The flat list of peers holds the contents of the buckets, and every
      address once. */
  lemma {:induction false} FlatIs(own: Address, max: nat, bs: seq<Bucket>)
    ensures forall m :: m in Flat(bs) <==> Known(bs, m)
    ensures Tidy(own, max, bs) ==> Distinct(Flat(bs))
  {
    if bs != [] {
      var rest, last := bs[..|bs| - 1], bs[|bs| - 1];
      FlatIs(own, max, rest);
      forall m
        ensures Known(bs, m) <==> Known(rest, m) || m in last
      {
        KnownSplit(bs, m);
      }
      if Tidy(own, max, bs) {
        assert Tidy(own, max, rest) by {
          forall i | 0 <= i < |rest| ensures BucketOk(own, max, rest[i], i) { assert rest[i] == bs[i]; }
        }
        forall x, y | x in Flat(rest) && y in last
          ensures x.address != y.address
        {
          var i :| 0 <= i < |rest| && x in rest[i];
          assert BucketOk(own, max, bs[i], i) && BucketOk(own, max, last, |rest|);
          assert Placed(own, x, i) && Placed(own, y, |rest|);
        }
        DistinctConcat(Flat(rest), last);
      }
    }
  }

  lemma KnownSplit(bs: seq<Bucket>, m: MultiAddress)
    requires bs != []
    ensures Known(bs, m) <==> Known(bs[..|bs| - 1], m) || m in bs[|bs| - 1]
  {
    var rest := bs[..|bs| - 1];
    if Known(rest, m) {
      var i :| 0 <= i < |rest| && m in rest[i];
      assert bs[i] == rest[i];
    }
    if Known(bs, m) && m !in bs[|bs| - 1] {
      var i :| 0 <= i < |bs| && m in bs[i];
      assert bs[i] == rest[i];
    }
  }

  lemma DistinctConcat(s: Bucket, t: Bucket)
    requires Distinct(s) && Distinct(t)
    requires forall x, y :: x in s && y in t ==> x.address != y.address
    ensures Distinct(s + t)
  {
    forall i, j | 0 <= i < j < |s + t|
      ensures (s + t)[i].address != (s + t)[j].address
    {
      if i < |s| <= j {
        assert (s + t)[i] in s && (s + t)[j] in t;
      }
    }
  }

  /** A peer is looked for in the only bucket that can hold it. */
  lemma KnownInBucket(own: Address, max: nat, bs: seq<Bucket>, m: MultiAddress, i: nat)
    requires Tidy(own, max, bs) && i < |bs| && Placed(own, m, i)
    ensures Known(bs, m) <==> m in bs[i]
  {
    if Known(bs, m) {
      var k :| 0 <= k < |bs| && m in bs[k];
      assert BucketOk(own, max, bs[k], k);
    }
  }

  /** An address is known if and only if its bucket has it. */
  lemma AddressInBucket(own: Address, max: nat, bs: seq<Bucket>, m: MultiAddress, i: nat)
    requires Tidy(own, max, bs) && i < |bs|
    ensures Placed(own, m, i) ==> (Known(bs, m) <==> m in bs[i])
    ensures Placed(own, m, i) ==> ((exists x :: Known(bs, x) && x.address == m.address) <==> (exists x :: x in bs[i] && x.address == m.address))
    ensures m in bs[i] ==> Placed(own, m, i)
  {
    if m in bs[i] {
      assert BucketOk(own, max, bs[i], i);
    }
    if Placed(own, m, i) {
      KnownInBucket(own, max, bs, m, i);
      if x :| Known(bs, x) && x.address == m.address {
        KnownInBucket(own, max, bs, x, i);
        assert x in bs[i];
      }
      if x :| x in bs[i] && x.address == m.address {
        assert Known(bs, x);
      }
    }
  }

  /** No peer has an address without a bucket. */
  lemma NoneUnbucketed(own: Address, max: nat, bs: seq<Bucket>, a: Address)
    requires Tidy(own, max, bs) && |bs| == BUCKETS
    requires own.Malformed? || a.Malformed? || a == own
    ensures forall x :: Known(bs, x) ==> x.address != a
  {
    forall x | Known(bs, x)
      ensures x.address != a
    {
      var i :| 0 <= i < |bs| && x in bs[i];
      assert BucketOk(own, max, bs[i], i);
      assert Placed(own, x, i);
      PrefixGap(own.id, x.address.id);
    }
  }

  lemma PeersWellFormed(own: Address, max: nat, bs: seq<Bucket>, peers: seq<MultiAddress>)
    requires Tidy(own, max, bs) && forall m :: m in peers ==> Known(bs, m)
    ensures WellFormed(peers)
  {
    forall m | m in peers
      ensures m.address.Address?
    {
      var i :| 0 <= i < |bs| && m in bs[i];
      assert BucketOk(own, max, bs[i], i);
    }
  }

  lemma CutOk(own: Address, max: nat, b: Bucket, i: int, a: Address)
    requires BucketOk(own, max, b, i)
    ensures BucketOk(own, max, Without(b, a), i)
  {
    WithoutDistinct(b, a);
    WithoutHolds(b, a);
  }

  lemma MovedOk(own: Address, max: nat, b: Bucket, i: int, m: MultiAddress)
    requires BucketOk(own, max, b, i) && Placed(own, m, i)
    requires |b| < max || exists x :: x in b && x.address == m.address
    ensures BucketOk(own, max, Without(b, m.address) + [m], i)
  {
    WithoutDistinct(b, m.address);
    WithoutHolds(b, m.address);
    DistinctConcat(Without(b, m.address), [m]);
    if x :| x in b && x.address == m.address {
      var k :| 0 <= k < |b| && b[k] == x;
      CutIsWithout(b, m.address, k);
    }
  }

  /** Replacing one bucket. */
  lemma TidyUpdate(own: Address, max: nat, bs: seq<Bucket>, i: nat, b: Bucket)
    requires Tidy(own, max, bs) && i < |bs| && BucketOk(own, max, b, i)
    ensures Tidy(own, max, bs[i := b])
    ensures forall m :: Known(bs[i := b], m) <==> m in b || (Known(bs, m) && !Placed(own, m, i))
  {
    hide BucketOk;
    var bs' := bs[i := b];
    forall m
      ensures Known(bs', m) <==> m in b || (Known(bs, m) && !Placed(own, m, i))
    {
      if Known(bs', m) {
        var k :| 0 <= k < |bs'| && m in bs'[k];
        if k != i {
          BucketPlaced(own, max, bs[k], k, m);
          assert m in bs[k];
        }
      }
      if m in b {
        assert m in bs'[i];
      }
      if Known(bs, m) && !Placed(own, m, i) {
        var k :| 0 <= k < |bs| && m in bs[k];
        BucketPlaced(own, max, bs[k], k, m);
        assert m in bs'[k];
      }
    }
  }

  lemma BucketPlaced(own: Address, max: nat, b: Bucket, i: int, m: MultiAddress)
    requires BucketOk(own, max, b, i) && m in b
    ensures Placed(own, m, i)
  {
  }

  ghost predicate Sorted(ms: seq<MultiAddress>, target: ID)
  {
    forall i, j :: 0 <= i < j < |ms| ==> Rank(ms[i], target) <= Rank(ms[j], target)
  }

  /** How far a peer is from a target. */
  function Rank(m: MultiAddress, target: ID): (d: nat)
  {
    if m.address.Address? then Gap(m.address.id, target) else 0
  }

  ghost predicate WellFormed(ms: seq<MultiAddress>)
  {
    forall m :: m in ms ==> m.address.Address?
  }

  /** The peers nearest to a target, nearest first, and as many as were asked
      for if there are that many. */
  ghost predicate Nearest(peers: seq<MultiAddress>, target: ID, count: nat, ms: seq<MultiAddress>)
  {
    && |ms| == (if |peers| < count then |peers| else count)
    && (forall m :: m in ms ==> m in peers)
    && (forall i, j :: 0 <= i < j < |ms| ==> Rank(ms[i], target) < Rank(ms[j], target))
    && (forall m, n :: m in ms && n in peers && n !in ms ==> Rank(m, target) < Rank(n, target))
  }

  lemma DistinctOnce(ms: seq<MultiAddress>, m: MultiAddress)
    requires Distinct(ms)
    ensures multiset(ms)[m] <= 1
  {
    if ms != [] {
      var rest := ms[..|ms| - 1];
      DistinctOnce(rest, m);
      assert ms == rest + [ms[|ms| - 1]];
      if ms[|ms| - 1] == m {
        assert m !in rest;
      }
    }
  }

  lemma TwiceCounted(ms: seq<MultiAddress>, i: nat, j: nat)
    requires i < j < |ms| && ms[i] == ms[j]
    ensures multiset(ms)[ms[i]] >= 2
  {
    assert ms == ms[..j] + ms[j..];
    assert ms[i] in ms[..j] && ms[j] in ms[j..];
  }

  /** A sorted arrangement of distinct peers starts with the nearest ones. */
  lemma SortedNearest(peers: seq<MultiAddress>, sorted: seq<MultiAddress>, target: ID, count: nat)
    requires Distinct(peers) && WellFormed(peers)
    requires multiset(sorted) == multiset(peers) && Sorted(sorted, target)
    ensures |sorted| == |peers|
    ensures Nearest(peers, target, count, sorted[..if |peers| < count then |peers| else count])
  {
    forall i, j | 0 <= i < j < |sorted|
      ensures Rank(sorted[i], target) < Rank(sorted[j], target)
    {
      StrictlySorted(peers, sorted, target, i, j);
    }
    hide Rank, Distinct, Sorted, WellFormed;
    SameMembers(peers, sorted);
    var k := if |peers| < count then |peers| else count;
    var ms := sorted[..k];
    forall m | m in ms
      ensures m in peers
    {
      assert m in sorted;
    }
    forall m, n | m in ms && n in peers && n !in ms
      ensures Rank(m, target) < Rank(n, target)
    {
      var i :| 0 <= i < |ms| && ms[i] == m;
      assert n in sorted;
      var j :| 0 <= j < |sorted| && sorted[j] == n;
      TakeMember(sorted, k, j);
      assert sorted[i] == m;
    }
  }

  lemma TakeMember(s: seq<MultiAddress>, k: nat, j: nat)
    requires j < |s| && k <= |s|
    ensures j < k ==> s[j] in s[..k]
  {
    if j < k {
      assert s[..k][j] == s[j];
    }
  }

  lemma SameMembers(s: seq<MultiAddress>, t: seq<MultiAddress>)
    requires multiset(s) == multiset(t)
    ensures |s| == |t| && forall m :: m in s <==> m in t
  {
    assert |multiset(s)| == |multiset(t)|;
    assert forall m :: m in s <==> m in multiset(s);
    assert forall m :: m in t <==> m in multiset(t);
  }

  lemma StrictlySorted(peers: seq<MultiAddress>, sorted: seq<MultiAddress>, target: ID, i: nat, j: nat)
    requires Distinct(peers) && WellFormed(peers)
    requires multiset(sorted) == multiset(peers) && Sorted(sorted, target) && i < j < |sorted|
    ensures Rank(sorted[i], target) < Rank(sorted[j], target)
  {
    hide Gap;
    var x, y := sorted[i], sorted[j];
    assert x in multiset(peers) && y in multiset(peers);
    if x == y {
      DistinctOnce(peers, x);
      TwiceCounted(sorted, i, j);
    }
    var k :| 0 <= k < |peers| && peers[k] == x;
    var l :| 0 <= l < |peers| && peers[l] == y;
    assert x.address != y.address;
    GapUnique(x.address.id, y.address.id, target);
  }

  function Inserted(ms: seq<MultiAddress>, m: MultiAddress, k: nat): (r: seq<MultiAddress>)
    requires k <= |ms|
    ensures |r| == |ms| + 1
    ensures forall i {:trigger r[i]} :: 0 <= i < |r| ==> r[i] == if i < k then ms[i] else if i == k then m else ms[i - 1]
  {
    ms[..k] + [m] + ms[k..]
  }

  lemma InsertedHolds(ms: seq<MultiAddress>, m: MultiAddress, k: nat)
    requires k <= |ms|
    ensures multiset(Inserted(ms, m, k)) == multiset(ms) + multiset{m}
    ensures WellFormed(ms) && m.address.Address? ==> WellFormed(Inserted(ms, m, k))
  {
    assert ms == ms[..k] + ms[k..];
  }

  lemma InsertedSorted(ms: seq<MultiAddress>, m: MultiAddress, k: nat, target: ID)
    requires Sorted(ms, target) && k <= |ms|
    requires k > 0 ==> Rank(ms[k - 1], target) <= Rank(m, target)
    requires forall i :: k <= i < |ms| ==> Rank(m, target) < Rank(ms[i], target)
    ensures Sorted(Inserted(ms, m, k), target)
  {
    hide Rank, Inserted;
    var r := Inserted(ms, m, k);
    assert forall i :: 0 <= i < k ==> Rank(ms[i], target) <= Rank(m, target);
    forall i, j | 0 <= i < j < |r|
      ensures Rank(r[i], target) <= Rank(r[j], target)
    {
    }
  }

  /** ---- The table ---- */

  class DHT {
    const address: Address
    const maxLength: nat
    const buckets: array<Bucket>

    /** Every peer is once in the table, in the bucket of its prefix, and no
        bucket is over its maximum. */
    ghost predicate Valid()
      reads this, buckets
    {
      buckets.Length == BUCKETS && Tidy(address, maxLength, buckets[..])
    }

    constructor (address: Address, maxBucketLength: nat)
      ensures Valid() && fresh(buckets) && this.address == address && maxLength == maxBucketLength
      ensures forall m :: !Known(buckets[..], m)
    {
      this.address := address;
      maxLength := maxBucketLength;
      buckets := new Bucket[160](_ => []);
    }

    /** The place of the bucket of an address. */
    ghost function Index(a: Address): (i: nat)
      requires address.Address? && a.Address? && a != address
      ensures i < BUCKETS
    {
      PrefixGap(address.id, a.id);
      BUCKETS - 1 - Prefix(address.id, a.id)
    }

    /** The bucket of an address; the owner has none. */
    method FindBucket(target: Address) returns (r: Outcome<nat>)
      requires Valid()
      ensures address.Malformed? || target.Malformed? ==> r == Failed(BadAddress)
      ensures address.Address? && target == address ==> r == Failed(OwnAddress)
      ensures address.Address? && target.Address? && target != address ==>
                r == Done(Index(target))
    {
      var same := SamePrefixLength(address, target);
      if same.Err? {
        return Failed(BadAddress);
      }
      PrefixGap(address.id, target.id);
      if same.value == ID_BITS {
        return Failed(OwnAddress);
      }
      return Done(buckets.Length - same.value - 1);
    }

    /** Where an address stands in a bucket. */
    static method FindInBucket(b: Bucket, target: Address) returns (position: int)
      ensures -1 <= position < |b|
      ensures position >= 0 ==> b[position].address == target
      ensures position == -1 <==> forall m :: m in b ==> m.address != target
    {
      for i := 0 to |b|
        invariant forall k :: 0 <= k < i ==> b[k].address != target
      {
        if b[i].address == target {
          return i;
        }
      }
      return -1;
    }

    /** Moves an address to the end, or adds it where there is room. */
    static method UpdateBucket(b: Bucket, max: nat, m: MultiAddress) returns (r: Outcome<Bucket>)
      requires Distinct(b)
      ensures (forall x :: x in b ==> x.address != m.address) && |b| == max ==> r == Failed(FullBucket)
      ensures (exists x :: x in b && x.address == m.address) || |b| != max ==> r == Done(Without(b, m.address) + [m])
    {
      var position := FindInBucket(b, m.address);
      if position == -1 {
        WithoutAbsent(b, m.address);
        if |b| == max {
          return Failed(FullBucket);
        }
        return Done(b + [m]);
      }
      var c := b;
      for i := position + 1 to |b|
        invariant |c| == |b| && forall k :: 0 <= k < position || i <= k < |b| ==> c[k] == b[k]
        invariant forall k :: position <= k < i - 1 ==> c[k] == b[k + 1]
      {
        c := c[i - 1 := c[i]];
      }
      c := c[|b| - 1 := m];
      CutIsWithout(b, m.address, position);
      ghost var moved := b[..position] + b[position + 1..] + [m];
      assert |moved| == |c| && forall k :: 0 <= k < |c| ==> c[k] == moved[k];
      assert c == moved;
      return Done(c);
    }

    /** Adds a peer as the most recent one of its bucket, in place of what was
        known of its address; refused for a full bucket. */
    method UpdateMultiAddress(m: MultiAddress) returns (r: Outcome<nat>)
      requires Valid()
      modifies buckets
      ensures Valid()
      ensures r.Failed? ==> buckets[..] == old(buckets[..])
      ensures r == Failed(BadAddress) <==> address.Malformed? || m.address.Malformed?
      ensures r == Failed(OwnAddress) <==> address.Address? && m.address == address
      ensures r == Failed(FullBucket) <==>
                && address.Address? && m.address.Address? && m.address != address
                && |old(buckets[..])[Index(m.address)]| == maxLength
                && forall x :: old(Known(buckets[..], x)) ==> x.address != m.address
      ensures r.Done? ==> forall x :: Known(buckets[..], x) <==> x == m || (old(Known(buckets[..], x)) && x.address != m.address)
      ensures r.Done? ==> buckets[..] == old(buckets[..])[Index(m.address) := Without(old(buckets[..])[Index(m.address)], m.address) + [m]]
    {
      hide Distinct, Without;
      var found := FindBucket(m.address);
      if found.Failed? {
        return found;
      }
      var i := found.value;
      var b := buckets[i];
      ghost var bs := buckets[..];
      assert BucketOk(address, maxLength, bs[i], i);
      AddressInBucket(address, maxLength, bs, m, i);
      var updated := UpdateBucket(b, maxLength, m);
      if updated.Failed? {
        return Failed(updated.error);
      }
      MovedOk(address, maxLength, b, i, m);
      TidyUpdate(address, maxLength, bs, i, updated.value);
      WithoutHolds(b, m.address);
      forall x
        ensures Known(bs[i := updated.value], x) <==> x == m || (Known(bs, x) && x.address != m.address)
      {
        AddressInBucket(address, maxLength, bs, x, i);
      }
      buckets[i] := updated.value;
      assert buckets[..] == bs[i := updated.value];
      return Done(i);
    }

    /** Drops what is known of an address. */
    method RemoveMultiAddress(m: MultiAddress) returns (r: Outcome<nat>)
      requires Valid()
      modifies buckets
      ensures Valid()
      ensures r == Failed(BadAddress) <==> address.Malformed? || m.address.Malformed?
      ensures r == Failed(OwnAddress) <==> address.Address? && m.address == address
      ensures forall x :: Known(buckets[..], x) <==> old(Known(buckets[..], x)) && x.address != m.address
      ensures r.Failed? ==> buckets[..] == old(buckets[..])
      ensures r.Done? ==> buckets[..] == old(buckets[..])[Index(m.address) := Without(old(buckets[..])[Index(m.address)], m.address)]
    {
      hide Distinct, Without;
      ghost var bs := buckets[..];
      var found := FindBucket(m.address);
      if found.Failed? {
        NoneUnbucketed(address, maxLength, bs, m.address);
        return found;
      }
      var i := found.value;
      var b := buckets[i];
      assert BucketOk(address, maxLength, bs[i], i);
      AddressInBucket(address, maxLength, bs, m, i);
      var position := FindInBucket(b, m.address);
      if position >= 0 {
        var cut := if position == |b| - 1 then b[..position] else b[..position] + b[position + 1..];
        CutIsWithout(b, m.address, position);
        assert cut == b[..position] + b[position + 1..];
        CutOk(address, maxLength, b, i, m.address);
        TidyUpdate(address, maxLength, bs, i, cut);
        WithoutHolds(b, m.address);
        forall x
          ensures Known(bs[i := cut], x) <==> Known(bs, x) && x.address != m.address
        {
          AddressInBucket(address, maxLength, bs, x, i);
        }
        buckets[i] := cut;
        assert buckets[..] == bs[i := cut];
      } else {
        WithoutAbsent(b, m.address);
        assert bs == bs[i := b];
      }
      return Done(i);
    }

    /** Looking an address up agrees with the whole list of peers. */
    method FindMultiAddress(target: Address) returns (r: Outcome<Option<MultiAddress>>)
      requires Valid()
      ensures r == Failed(BadAddress) <==> address.Malformed? || target.Malformed?
      ensures r == Failed(OwnAddress) <==> address.Address? && target == address
      ensures r.Done? && r.value.Some? ==> r.value.value.address == target && Known(buckets[..], r.value.value)
      ensures r.Done? && r.value.None? ==> forall x :: Known(buckets[..], x) ==> x.address != target
      ensures !(r.Done? && r.value.Some?) ==> forall x :: x in Flat(buckets[..]) ==> x.address != target
    {
      hide Flat;
      FlatIs(address, maxLength, buckets[..]);
      var found := FindBucket(target);
      if found.Failed? {
        NoneUnbucketed(address, maxLength, buckets[..], target);
        return Failed(found.error);
      }
      var i := found.value;
      AddressInBucket(address, maxLength, buckets[..], MultiAddress(target, []), i);
      var position := FindInBucket(buckets[i], target);
      if position < 0 {
        return Done(None);
      }
      assert buckets[i][position] in buckets[..][i];
      return Done(Some(buckets[i][position]));
    }

    /** All peers, bucket by bucket, each address once. */
    method MultiAddresses() returns (ms: seq<MultiAddress>)
      requires Valid()
      ensures ms == Flat(buckets[..]) && Distinct(ms)
      ensures forall m :: m in ms <==> Known(buckets[..], m)
    {
      FlatIs(address, maxLength, buckets[..]);
      ms := [];
      for i := 0 to buckets.Length
        invariant ms == Flat(buckets[..i])
      {
        ms := ms + buckets[i];
        assert buckets[..i + 1][..i] == buckets[..i];
      }
      assert buckets[..buckets.Length] == buckets[..];
    }

    /** The peers nearest to a target. When distances to the target make no
        sense the peers stay in table order, and an error is reported as soon
        as there are two to compare. */
    method FindMultiAddressNeighbors(target: Address, count: nat) returns (ms: seq<MultiAddress>, err: bool)
      requires Valid()
      ensures target.Address? ==> !err && Nearest(Flat(buckets[..]), target.id, count, ms)
      ensures target.Malformed? ==>
                && err == (|Flat(buckets[..])| >= 2)
                && ms == Flat(buckets[..])[..if |Flat(buckets[..])| < count then |Flat(buckets[..])| else count]
    {
      hide Flat;
      var peers := MultiAddresses();
      var k := if |peers| < count then |peers| else count;
      if target.Malformed? {
        return peers[..k], |peers| >= 2;
      }
      PeersWellFormed(address, maxLength, buckets[..], peers);
      var sorted := SortByDistance(peers, target.id);
      SortedNearest(peers, sorted, target.id, count);
      return sorted[..k], false;
    }

    /** A stable sort, as the library's: every peer is moved forward past the
        ones that it is strictly closer than. */
    static method SortByDistance(ms: seq<MultiAddress>, target: ID) returns (sorted: seq<MultiAddress>)
      requires WellFormed(ms)
      ensures multiset(sorted) == multiset(ms) && Sorted(sorted, target)
    {
      sorted := [];
      for i := 0 to |ms|
        invariant multiset(sorted) == multiset(ms[..i]) && Sorted(sorted, target) && WellFormed(sorted)
      {
        assert ms[..i + 1] == ms[..i] + [ms[i]];
        assert ms[i] in ms;
        sorted := InsertByDistance(sorted, ms[i], target);
      }
      assert ms[..|ms|] == ms;
    }

    static method InsertByDistance(ms: seq<MultiAddress>, m: MultiAddress, target: ID) returns (r: seq<MultiAddress>)
      requires WellFormed(ms) && m.address.Address? && Sorted(ms, target)
      ensures multiset(r) == multiset(ms) + multiset{m} && Sorted(r, target) && WellFormed(r)
    {
      hide Gap, Sorted;
      var k := |ms|;
      while k > 0
        invariant 0 <= k <= |ms|
        invariant forall i :: k <= i < |ms| ==> Rank(m, target) < Rank(ms[i], target)
      {
        assert ms[k - 1] in ms;
        var closer := Closer(m.address, ms[k - 1].address, Address(target));
        if !closer.value {
          break;
        }
        k := k - 1;
      }
      assert k > 0 ==> Rank(ms[k - 1], target) <= Rank(m, target);
      InsertedHolds(ms, m, k);
      InsertedSorted(ms, m, k, target);
      r := Inserted(ms, m, k);
    }
  }
}
