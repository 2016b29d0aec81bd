/** Finding a peer by asking the peers already known, and those that they name. */
module Swarm {
  import opened Options
  import opened Identity
  import opened Dht

  /** The rest of the network: who we are, what a node answers when it is pinged
      at some moment, and what it answers when it is asked for a fixed target,
      which happens once; no value where the call fails. */
  datatype Client = Client(self: MultiAddress, ping: (MultiAddress, nat) -> Option<MultiAddress>, query: MultiAddress -> Option<seq<MultiAddress>>)

  datatype QueryResult = Found(peer: MultiAddress) | NotFound | Finished | Broken

  predicate Names(client: Client, q: MultiAddress, m: MultiAddress)
  {
    client.query(q).Some? && m in client.query(q).value
  }

  /** Whether a search may begin at a known peer: everywhere when bootstrapping,
      else where it gets strictly nearer to the target. */
  predicate Starts(self: Address, target: Address, bootstrapping: bool, m: MultiAddress)
  {
    if bootstrapping then m.address != target
    else self.Address? && target.Address? && m.address.Address? && Gap(m.address.id, target.id) < Gap(self.id, target.id)
  }

  /** A chain of nodes other than ourselves: one we know and may begin at, then
      at every step one that the node before names. */
  ghost predicate Chain(client: Client, start: set<MultiAddress>, p: seq<MultiAddress>)
  {
    && p != [] && p[0] in start
    && (forall i :: 0 <= i < |p| ==> p[i].address != client.self.address)
    && (forall i :: 0 < i < |p| ==> Names(client, p[i - 1], p[i]))
  }

  /** Someone at the end of a chain names the target. */
  ghost predicate Reachable(client: Client, start: set<MultiAddress>, target: Address)
  {
    exists p, m :: Chain(client, start, p) && Names(client, p[|p| - 1], m) && m.address == target
  }

  /** What a node answers does not depend on which way it is reached. */
  ghost predicate ByAddress(client: Client)
  {
    forall q: MultiAddress, q': MultiAddress :: q.address == q'.address ==> client.query(q) == client.query(q')
  }

  /** ---- The state of a search ---- */

  ghost predicate Linked(client: Client, start: set<MultiAddress>, asked: seq<MultiAddress>, m: MultiAddress)
  {
    m in start || exists k :: 0 <= k < |asked| && Names(client, asked[k], m)
  }

  /** Each node is asked once, never ourselves, and only if a node that was asked
      before names it or we knew it. */
  ghost predicate Asked(client: Client, start: set<MultiAddress>, asked: seq<MultiAddress>, visited: set<Address>)
  {
    && Distinct(asked) && client.self.address in visited
    && (forall i :: 0 <= i < |asked| ==>
          asked[i].address in visited && asked[i].address != client.self.address && Linked(client, start, asked[..i], asked[i]))
  }

  /** Everyone named so far has been visited or is about to be. */
  ghost predicate Covered(client: Client, start: set<MultiAddress>, target: Address, bootstrapping: bool,
                          asked: seq<MultiAddress>, visited: set<Address>, waiting: seq<MultiAddress>)
  {
    && (forall m :: m in start ==> m.address in visited || m in waiting)
    && (forall q :: q in asked ==> client.query(q).Some?)
    && (forall q, m :: q in asked && Names(client, q, m) ==>
          (bootstrapping || m.address != target) && (m.address in visited || m in waiting))
  }

  /** Who was visited: ourselves, those asked and, when bootstrapping, those who
      did not answer a ping. */
  ghost predicate Accounted(client: Client, bootstrapping: bool, asked: seq<MultiAddress>, visited: set<Address>)
  {
    forall a :: a in visited ==>
      || a == client.self.address
      || (exists q :: q in asked && q.address == a)
      || (bootstrapping && exists x: MultiAddress, now: nat :: x.address == a && client.ping(x, now).None?)
  }

  /** A chain ends at every node that was asked. */
  lemma {:induction false} AskedChain(client: Client, start: set<MultiAddress>, asked: seq<MultiAddress>, visited: set<Address>, i: nat)
    returns (p: seq<MultiAddress>)
    requires Asked(client, start, asked, visited) && i < |asked|
    ensures Chain(client, start, p) && p[|p| - 1] == asked[i]
    decreases i
  {
    if asked[i] in start {
      p := [asked[i]];
    } else {
      var k :| 0 <= k < i && Names(client, asked[..i][k], asked[i]);
      var p' := AskedChain(client, start, asked, visited, k);
      p := p' + [asked[i]];
    }
  }

  /** When nobody is waiting, the end of every chain has been asked. */
  lemma {:induction false} ChainAsked(client: Client, start: set<MultiAddress>, target: Address,
                                      asked: seq<MultiAddress>, visited: set<Address>, p: seq<MultiAddress>)
    returns (q: MultiAddress)
    requires Covered(client, start, target, false, asked, visited, []) && Accounted(client, false, asked, visited)
    requires ByAddress(client) && Chain(client, start, p)
    ensures q in asked && q.address == p[|p| - 1].address
    decreases |p|
  {
    var m := p[|p| - 1];
    if |p| > 1 {
      var p' := p[..|p| - 1];
      assert Chain(client, start, p');
      var q' := ChainAsked(client, start, target, asked, visited, p');
      assert client.query(q') == client.query(p'[|p'| - 1]);
      assert Names(client, q', m);
    }
    q :| q in asked && q.address == m.address;
  }

  lemma NotFoundUnreachable(client: Client, start: set<MultiAddress>, target: Address, asked: seq<MultiAddress>, visited: set<Address>)
    requires Covered(client, start, target, false, asked, visited, []) && Accounted(client, false, asked, visited)
    requires ByAddress(client)
    ensures !Reachable(client, start, target)
  {
    if Reachable(client, start, target) {
      var p, m :| Chain(client, start, p) && Names(client, p[|p| - 1], m) && m.address == target;
      var q := ChainAsked(client, start, target, asked, visited, p);
      assert client.query(q) == client.query(p[|p| - 1]);
      assert Names(client, q, m);
    }
  }

  lemma FoundReachable(client: Client, start: set<MultiAddress>, asked: seq<MultiAddress>, visited: set<Address>, i: nat, m: MultiAddress)
    requires Asked(client, start, asked, visited) && i < |asked| && Names(client, asked[i], m)
    ensures Reachable(client, start, m.address)
  {
    var p := AskedChain(client, start, asked, visited, i);
  }

  /** ---- Steps of a search, on values ---- */

  lemma SkipCovered(client: Client, start: set<MultiAddress>, target: Address, bootstrapping: bool,
                    asked: seq<MultiAddress>, visited: set<Address>, waiting: seq<MultiAddress>)
    requires Covered(client, start, target, bootstrapping, asked, visited, waiting)
    requires waiting != [] && waiting[0].address in visited
    ensures Covered(client, start, target, bootstrapping, asked, visited, waiting[1..])
  {
    assert waiting == [waiting[0]] + waiting[1..];
  }

  lemma VisitCovered(client: Client, start: set<MultiAddress>, target: Address, bootstrapping: bool,
                     asked: seq<MultiAddress>, visited: set<Address>, waiting: seq<MultiAddress>)
    requires Covered(client, start, target, bootstrapping, asked, visited, waiting) && waiting != []
    ensures Covered(client, start, target, bootstrapping, asked, visited + {waiting[0].address}, waiting[1..])
  {
    assert waiting == [waiting[0]] + waiting[1..];
  }

  lemma AskCovered(client: Client, start: set<MultiAddress>, target: Address, bootstrapping: bool,
                   asked: seq<MultiAddress>, visited: set<Address>, waiting: seq<MultiAddress>,
                   q: MultiAddress, waiting': seq<MultiAddress>)
    requires Covered(client, start, target, bootstrapping, asked, visited, waiting)
    requires client.query(q).Some? && waiting <= waiting'
    requires forall m :: m in client.query(q).value ==>
               (bootstrapping || m.address != target) && (m.address in visited || m in waiting')
    ensures Covered(client, start, target, bootstrapping, asked + [q], visited, waiting')
  {
    assert forall m :: m in waiting ==> m in waiting';
  }

  lemma VisitAsked(client: Client, start: set<MultiAddress>, asked: seq<MultiAddress>, visited: set<Address>, q: MultiAddress)
    requires Asked(client, start, asked, visited) && q.address !in visited && Linked(client, start, asked, q)
    ensures Asked(client, start, asked + [q], visited + {q.address})
    ensures Asked(client, start, asked, visited + {q.address})
  {
    var asked' := asked + [q];
    assert forall i :: 0 <= i <= |asked| ==> asked'[..i] == asked[..i];
    assert asked[..|asked|] == asked;
  }

  /** ---- Operations ---- */

  /** Everything that is in the network is reachable in finitely many steps. */
  ghost predicate Within(client: Client, network: set<Address>)
  {
    forall q, m :: Names(client, q, m) ==> m.address in network
  }

  /** ---- Taking note of peers ---- */

  ghost predicate AddressKnown(bs: seq<Bucket>, a: Address)
  {
    exists x :: Known(bs, x) && x.address == a
  }

  /** A peer that the table of own can hold and that is not ourselves. */
  predicate Noteworthy(own: Address, self: Address, m: MultiAddress)
  {
    own.Address? && m.address.Address? && m.address != own && m.address != self
  }

  /** The address has a bucket in the table. */
  predicate Placeable(own: Address, m: MultiAddress)
  {
    own.Address? && m.address.Address? && m.address != own
  }

  /** The place of its bucket. */
  ghost function Slot(own: Address, m: MultiAddress): (i: nat)
    requires Placeable(own, m)
    ensures i < BUCKETS
  {
    PrefixGap(own.id, m.address.id);
    BUCKETS - 1 - Prefix(own.id, m.address.id)
  }

  ghost function BucketOf(own: Address, bs: seq<Bucket>, m: MultiAddress): Bucket
    requires Placeable(own, m) && |bs| == BUCKETS
  {
    bs[Slot(own, m)]
  }

  /** There is no place for a new address. */
  ghost predicate Crowded(own: Address, max: nat, bs: seq<Bucket>, m: MultiAddress)
    requires Placeable(own, m) && |bs| == BUCKETS
  {
    !AddressKnown(bs, m.address) && |BucketOf(own, bs, m)| == max
  }

  /** m is the most recent peer of its bucket, in place of what was known of its
      address; the rest is as it was. */
  ghost predicate Added(own: Address, bs: seq<Bucket>, m: MultiAddress, bs': seq<Bucket>)
    requires Placeable(own, m) && |bs| == BUCKETS
  {
    && bs' == bs[Slot(own, m) := Without(BucketOf(own, bs, m), m.address) + [m]]
    && forall x :: Known(bs', x) <==> x == m || (Known(bs, x) && x.address != m.address)
  }

  /** m is the most recent peer in the place of the oldest one of its bucket. */
  ghost predicate Replaced(own: Address, bs: seq<Bucket>, m: MultiAddress, bs': seq<Bucket>)
    requires Placeable(own, m) && |bs| == BUCKETS && BucketOf(own, bs, m) != []
  {
    var b := BucketOf(own, bs, m);
    && bs' == bs[Slot(own, m) := b[1..] + [m]]
    && forall x :: Known(bs', x) <==> x == m || (Known(bs, x) && x.address != b[0].address)
  }

  /** m is added if there is a place for it. */
  ghost predicate AddedIfRoom(own: Address, max: nat, bs: seq<Bucket>, m: MultiAddress, bs': seq<Bucket>)
    requires |bs| == BUCKETS
  {
    if Placeable(own, m) && !Crowded(own, max, bs, m) then Added(own, bs, m, bs') else bs' == bs
  }

  /** What becomes of the table when a peer is noted at some moment. In a full
      bucket the oldest peer gives way if it does not answer a ping; if it does,
      its answer is noted instead. */
  ghost predicate Noted(own: Address, max: nat, client: Client, bs: seq<Bucket>, m: MultiAddress, now: nat, bs': seq<Bucket>)
    requires |bs| == BUCKETS
  {
    if !Noteworthy(own, client.self.address, m) then bs' == bs
    else if !Crowded(own, max, bs, m) then Added(own, bs, m, bs')
    else
      var b := BucketOf(own, bs, m);
      if b == [] then bs' == bs
      else
        match client.ping(b[0], now)
        case None => Replaced(own, bs, m, bs')
        case Some(y) => AddedIfRoom(own, max, bs, y, bs')
  }

  /** When taking note fails. */
  ghost predicate Refused(own: Address, max: nat, client: Client, bs: seq<Bucket>, m: MultiAddress, now: nat)
    requires |bs| == BUCKETS
  {
    && m.address != client.self.address
    && (!Noteworthy(own, client.self.address, m) ||
        (Crowded(own, max, bs, m) &&
         (var b := BucketOf(own, bs, m); b == [] || client.ping(b[0], now).Some?)))
  }

  /** Makes room in a full bucket if its oldest peer no longer answers; if it
      does, it becomes the most recent one. */
  method PruneDHT(dht: DHT, client: Client, m: MultiAddress, now: nat) returns (room: bool)
    requires dht.Valid()
    modifies dht.buckets
    ensures dht.Valid()
    ensures !Placeable(dht.address, m) ==> !room && dht.buckets[..] == old(dht.buckets[..])
    ensures Placeable(dht.address, m) ==>
              Pruned(dht.address, dht.maxLength, client, old(dht.buckets[..]), m, now, room, dht.buckets[..])
  {
    hide Tidy, Prefix, Without, Crowded;
    ghost var bs, own, max := dht.buckets[..], dht.address, dht.maxLength;
    var found := dht.FindBucket(m.address);
    if found.Failed? {
      return false;
    }
    var b := dht.buckets[found.value];
    assert found.value == Slot(own, m) && b == BucketOf(own, bs, m);
    if |b| == 0 {
      return false;
    }
    var answer := client.ping(b[0], now);
    if answer.None? {
      OldestPlaced(own, max, bs, m);
      var _ := dht.RemoveMultiAddress(b[0]);
      return true;
    }
    var r := dht.UpdateMultiAddress(answer.value);
    UpdateMeans(own, max, bs, answer.value, r, dht.buckets[..]);
    return false;
  }

  /** There is room if and only if the oldest peer of the bucket does not answer:
      it alone is gone. If it answers, its answer is noted. */
  ghost predicate Pruned(own: Address, max: nat, client: Client, bs: seq<Bucket>, m: MultiAddress, now: nat, room: bool, bs': seq<Bucket>)
    requires Placeable(own, m) && |bs| == |bs'| == BUCKETS
  {
    var b := BucketOf(own, bs, m);
    if b == [] then !room && bs' == bs
    else
      match client.ping(b[0], now)
      case None =>
        && room && bs' == bs[Slot(own, m) := b[1..]]
        && forall x :: Known(bs', x) <==> Known(bs, x) && x.address != b[0].address
      case Some(y) => !room && AddedIfRoom(own, max, bs, y, bs')
  }

  /** The oldest peer of a bucket belongs there, and is cut out of the front. */
  lemma OldestPlaced(own: Address, max: nat, bs: seq<Bucket>, m: MultiAddress)
    requires Tidy(own, max, bs) && |bs| == BUCKETS && Placeable(own, m) && BucketOf(own, bs, m) != []
    ensures
      var b := BucketOf(own, bs, m);
      Placeable(own, b[0]) && Slot(own, b[0]) == Slot(own, m) && Without(b, b[0].address) == b[1..]
  {
    var i := Slot(own, m);
    var b := bs[i];
    assert BucketOk(own, max, b, i);
    assert b[0] in b;
    PrefixGap(own.id, own.id);
    CutIsWithout(b, b[0].address, 0);
  }

  /** What the table's own update means here. */
  lemma UpdateMeans(own: Address, max: nat, bs: seq<Bucket>, m: MultiAddress, r: Outcome<nat>, bs': seq<Bucket>)
    requires |bs| == BUCKETS && (r.Failed? ==> bs' == bs)
    requires r == Failed(BadAddress) <==> own.Malformed? || m.address.Malformed?
    requires r == Failed(OwnAddress) <==> own.Address? && m.address == own
    requires r == Failed(FullBucket) <==>
               Placeable(own, m) && |BucketOf(own, bs, m)| == max && forall x :: Known(bs, x) ==> x.address != m.address
    requires r.Done? && Placeable(own, m) ==> Added(own, bs, m, bs')
    ensures AddedIfRoom(own, max, bs, m, bs')
    ensures r.Done? <==> Placeable(own, m) && !Crowded(own, max, bs, m)
    ensures r == Failed(FullBucket) <==> Placeable(own, m) && Crowded(own, max, bs, m)
  {
    hide Known, Slot, BucketOf, Added;
    if r.Failed? {
      assert r.error.BadAddress? || r.error.OwnAddress? || r.error.FullBucket?;
    }
  }

  /** Takes note of a peer, other than ourselves. */
  method UpdateDHT(dht: DHT, client: Client, m: MultiAddress, now: nat) returns (err: bool)
    requires dht.Valid()
    modifies dht.buckets
    ensures dht.Valid()
    ensures Noted(dht.address, dht.maxLength, client, old(dht.buckets[..]), m, now, dht.buckets[..])
    ensures err <==> Refused(dht.address, dht.maxLength, client, old(dht.buckets[..]), m, now)
  {
    hide Tidy, Prefix, Crowded, Without;
    if client.self.address == m.address {
      return false;
    }
    ghost var bs := dht.buckets[..];
    ghost var own, max := dht.address, dht.maxLength;
    var r := dht.UpdateMultiAddress(m);
    UpdateMeans(own, max, bs, m, r, dht.buckets[..]);
    if r.Done? {
      return false;
    }
    if r != Failed(FullBucket) {
      return true;
    }
    var room := PruneDHT(dht, client, m, now);
    if room {
      ghost var cut := dht.buckets[..];
      CutNotCrowded(own, max, bs, cut, m);
      r := dht.UpdateMultiAddress(m);
      UpdateMeans(own, max, cut, m, r, dht.buckets[..]);
      RoomTaken(own, bs, cut, dht.buckets[..], m);
    }
    return r.Failed?;
  }

  lemma CutNotCrowded(own: Address, max: nat, bs: seq<Bucket>, cut: seq<Bucket>, m: MultiAddress)
    requires Placeable(own, m) && |bs| == |cut| == BUCKETS && Crowded(own, max, bs, m) && BucketOf(own, bs, m) != []
    requires cut == bs[Slot(own, m) := BucketOf(own, bs, m)[1..]]
    ensures !Crowded(own, max, cut, m)
  {
  }

  /** A new peer in the place of one that was cut out. */
  lemma RoomTaken(own: Address, bs: seq<Bucket>, cut: seq<Bucket>, bs': seq<Bucket>, m: MultiAddress)
    requires Placeable(own, m) && |bs| == |cut| == BUCKETS && BucketOf(own, bs, m) != [] && !AddressKnown(bs, m.address)
    requires cut == bs[Slot(own, m) := BucketOf(own, bs, m)[1..]]
    requires forall x :: Known(cut, x) <==> Known(bs, x) && x.address != BucketOf(own, bs, m)[0].address
    requires Added(own, cut, m, bs')
    ensures Replaced(own, bs, m, bs')
  {
    var b := BucketOf(own, bs, m);
    assert forall x :: x in b ==> Known(bs, x);
    WithoutAbsent(b[1..], m.address);
  }

  /** One peer after another is noted, each at its moment. */
  ghost predicate NotedAll(own: Address, max: nat, client: Client, tables: seq<seq<Bucket>>, ms: seq<MultiAddress>)
  {
    && |tables| == |ms| + 1
    && (forall j :: 0 <= j < |tables| ==> |tables[j]| == BUCKETS && Tidy(own, max, tables[j]))
    && (forall j :: 0 <= j < |ms| ==> NotedNext(own, max, client, tables[j], ms[j], tables[j + 1]))
  }

  ghost predicate NotedNext(own: Address, max: nat, client: Client, bs: seq<Bucket>, m: MultiAddress, bs': seq<Bucket>)
  {
    |bs| == BUCKETS && exists now: nat :: Noted(own, max, client, bs, m, now, bs')
  }

  lemma NotedOne(own: Address, max: nat, client: Client, tables: seq<seq<Bucket>>, ms: seq<MultiAddress>, m: MultiAddress, bs': seq<Bucket>)
    requires NotedAll(own, max, client, tables, ms) && |bs'| == BUCKETS && Tidy(own, max, bs')
    requires NotedNext(own, max, client, tables[|tables| - 1], m, bs')
    ensures NotedAll(own, max, client, tables + [bs'], ms + [m])
  {
    hide Tidy, NotedNext;
  }

  lemma NotedMore(own: Address, max: nat, client: Client, tables: seq<seq<Bucket>>, ms: seq<MultiAddress>,
                  tables': seq<seq<Bucket>>, ms': seq<MultiAddress>)
    requires NotedAll(own, max, client, tables, ms) && NotedAll(own, max, client, tables', ms')
    requires tables[|tables| - 1] == tables'[0]
    ensures |tables'| > 0 && NotedAll(own, max, client, tables + tables'[1..], ms + ms') && |tables + tables'[1..]| == |ms + ms'| + 1
    ensures (tables + tables'[1..])[|ms + ms'|] == tables'[|ms'|] && (tables + tables'[1..])[0] == tables[0]
  {
    hide Tidy, NotedNext;
    var ts, ns := tables + tables'[1..], ms + ms';
    forall j | 0 <= j < |ns|
      ensures NotedNext(own, max, client, ts[j], ns[j], ts[j + 1])
    {
      if j < |ms| {
        assert ts[j] == tables[j] && ts[j + 1] == tables[j + 1] && ns[j] == ms[j];
      } else {
        var l := j - |ms|;
        assert ts[j] == tables'[l] && ts[j + 1] == tables'[l + 1] && ns[j] == ms'[l];
      }
    }
  }

  /** ---- With room for everyone nobody is forgotten ---- */

  /** Whoever is known belongs to a set of addresses that fits in one bucket. */
  ghost predicate Roomy(max: nat, bs: seq<Bucket>, all: set<Address>)
  {
    |all| <= max && forall x :: Known(bs, x) ==> x.address in all
  }

  lemma {:induction false} DistinctFits(b: Bucket, all: set<Address>)
    requires Distinct(b) && forall x :: x in b ==> x.address in all
    ensures |b| <= |all|
  {
    if b != [] {
      var n := |b| - 1;
      forall x | x in b[..n]
        ensures x.address in all - {b[n].address}
      {
        var k :| 0 <= k < n && b[k] == x;
      }
      assert b[n] in b;
      DistinctFits(b[..n], all - {b[n].address});
    }
  }

  lemma RoomyNoted(own: Address, max: nat, client: Client, bs: seq<Bucket>, m: MultiAddress, bs': seq<Bucket>, all: set<Address>)
    requires |bs| == BUCKETS && Tidy(own, max, bs) && Roomy(max, bs, all) && m.address in all
    requires NotedNext(own, max, client, bs, m, bs')
    ensures Roomy(max, bs', all)
    ensures forall a :: AddressKnown(bs, a) ==> AddressKnown(bs', a)
    ensures Noteworthy(own, client.self.address, m) ==> AddressKnown(bs', m.address)
  {
    hide Tidy, Prefix;
    if Noteworthy(own, client.self.address, m) {
      if Crowded(own, max, bs, m) {
        NeverCrowded(own, max, bs, m, all);
      }
      var now: nat :| Noted(own, max, client, bs, m, now, bs');
      assert Known(bs', m);
      forall a | AddressKnown(bs, a)
        ensures AddressKnown(bs', a)
      {
        var x :| Known(bs, x) && x.address == a;
        assert x.address != m.address ==> Known(bs', x);
      }
    }
  }

  lemma NeverCrowded(own: Address, max: nat, bs: seq<Bucket>, m: MultiAddress, all: set<Address>)
    requires own.Address? && m.address.Address? && m.address != own && |bs| == BUCKETS
    requires Tidy(own, max, bs) && Roomy(max, bs, all) && m.address in all
    ensures !Crowded(own, max, bs, m)
  {
    hide Prefix;
    var b := BucketOf(own, bs, m);
    PrefixGap(own.id, m.address.id);
    var i := BUCKETS - 1 - Prefix(own.id, m.address.id);
    assert BucketOk(own, max, bs[i], i) && b == bs[i];
    assert forall x :: x in b ==> Known(bs, x);
    if !AddressKnown(bs, m.address) {
      DistinctFits(b, all - {m.address});
    }
  }

  lemma {:induction false} RoomyAll(own: Address, max: nat, client: Client, tables: seq<seq<Bucket>>, ms: seq<MultiAddress>, all: set<Address>)
    requires NotedAll(own, max, client, tables, ms) && Roomy(max, tables[0], all) && forall m :: m in ms ==> m.address in all
    ensures Roomy(max, tables[|ms|], all)
    ensures forall a :: AddressKnown(tables[0], a) ==> AddressKnown(tables[|ms|], a)
    ensures forall m :: m in ms && Noteworthy(own, client.self.address, m) ==> AddressKnown(tables[|ms|], m.address)
    decreases |ms|
  {
    hide Tidy, NotedNext, AddressKnown, Roomy;
    if ms != [] {
      var n := |ms| - 1;
      var ts, ns := tables[..n + 1], ms[..n];
      assert NotedAll(own, max, client, ts, ns);
      RoomyAll(own, max, client, ts, ns, all);
      assert ts[n] == tables[n] && ms[n] in ms;
      RoomyNoted(own, max, client, tables[n], ms[n], tables[n + 1], all);
      assert forall m :: m in ms ==> m in ns || m == ms[n];
    }
  }

  /** ---- The search ---- */

  /** The peers at which a search may begin, in the order of the table. */
  function StartList(peers: seq<MultiAddress>, self: Address, target: Address, bootstrapping: bool): (list: seq<MultiAddress>)
  {
    if peers == [] then []
    else
      var n := |peers| - 1;
      StartList(peers[..n], self, target, bootstrapping) + if Starts(self, target, bootstrapping, peers[n]) then [peers[n]] else []
  }

  lemma StartListEmpty(self: Address, target: Address, bootstrapping: bool)
    ensures StartList([], self, target, bootstrapping) == []
  {
  }

  lemma StartListNext(peers: seq<MultiAddress>, m: MultiAddress, self: Address, target: Address, bootstrapping: bool)
    ensures StartList(peers + [m], self, target, bootstrapping) ==
            StartList(peers, self, target, bootstrapping) + if Starts(self, target, bootstrapping, m) then [m] else []
  {
    hide Starts;
    assert (peers + [m])[..|peers|] == peers;
  }

  /** The peers named that have not been visited, in the order they are named. */
  function Unvisited(ms: seq<MultiAddress>, visited: set<Address>): (list: seq<MultiAddress>)
  {
    if ms == [] then []
    else Unvisited(ms[..|ms| - 1], visited) + if ms[|ms| - 1].address in visited then [] else [ms[|ms| - 1]]
  }

  /** The peers at which a search begins. A search that is not for
      bootstrapping ends at once at a peer that is the target. */
  method FindStart(peers: seq<MultiAddress>, self: Address, target: Address, bootstrapping: bool)
    returns (r: QueryResult, waiting: seq<MultiAddress>)
    ensures r.Found? ==> !bootstrapping && r.peer in peers && r.peer.address == target
    ensures r.Broken? ==> !bootstrapping && exists m :: m in peers && (m.address.Malformed? || self.Malformed? || target.Malformed?)
    ensures r.Found? || r.Broken? || r.Finished?
    ensures r.Finished? ==> forall m :: m in waiting <==> m in peers && Starts(self, target, bootstrapping, m)
    ensures r.Finished? && !bootstrapping ==> forall m :: m in peers ==> m.address != target
    ensures r.Finished? ==> waiting == StartList(peers, self, target, bootstrapping)
    ensures WellFormed(peers) ==>
              (r.Broken? <==> !bootstrapping && peers != [] && (self.Malformed? || target.Malformed?) && peers[0].address != target)
  {
    hide Gap, StartList;
    waiting := [];
    StartListEmpty(self, target, bootstrapping);
    for i := 0 to |peers|
      invariant waiting == StartList(peers[..i], self, target, bootstrapping)
      invariant !bootstrapping && i > 0 ==> self.Address? && target.Address?
      invariant forall m :: m in waiting <==> m in peers[..i] && Starts(self, target, bootstrapping, m)
      invariant !bootstrapping ==> forall m :: m in peers[..i] ==> m.address != target
    {
      var m := peers[i];
      assert peers[..i + 1] == peers[..i] + [m];
      StartListNext(peers[..i], m, self, target, bootstrapping);
      if bootstrapping {
        if target != m.address {
          waiting := waiting + [m];
        }
        continue;
      }
      if target == m.address {
        return Found(m), [];
      }
      var closer := Closer(m.address, self, target);
      if closer.Err? {
        return Broken, [];
      }
      if closer.value {
        waiting := waiting + [m];
      }
    }
    assert peers[..|peers|] == peers;
    return Finished, waiting;
  }

  /** The first peer of this address in the list. */
  ghost predicate FirstAt(ms: seq<MultiAddress>, k: int, a: Address)
  {
    0 <= k < |ms| && ms[k].address == a && forall j :: 0 <= j < k ==> ms[j].address != a
  }

  /** Goes through the peers that a node named: the search is over at the
      target, and those not visited yet are noted and put in the queue. */
  method Extend(dht: DHT, client: Client, target: Address, bootstrapping: bool,
                ms: seq<MultiAddress>, visited: set<Address>, waiting: seq<MultiAddress>)
    returns (found: Option<MultiAddress>, waiting': seq<MultiAddress>, ghost noted: seq<MultiAddress>, ghost tables: seq<seq<Bucket>>)
    requires dht.Valid()
    modifies dht.buckets
    ensures dht.Valid()
    ensures found.Some? ==> !bootstrapping && found.value in ms && found.value.address == target
    ensures found.Some? ==> exists k :: FirstAt(ms, k, target) && found.value == ms[k] && noted == Unvisited(ms[..k], visited)
    ensures found.None? ==> waiting' == waiting + noted && noted == Unvisited(ms, visited)
    ensures found.None? ==> forall m :: m in ms ==> (bootstrapping || m.address != target) && (m.address in visited || m in noted)
    ensures forall m :: m in noted ==> m in ms
    ensures NotedAll(dht.address, dht.maxLength, client, tables, noted) && |tables| == |noted| + 1
    ensures tables[0] == old(dht.buckets[..]) && tables[|noted|] == dht.buckets[..]
  {
    hide Tidy, Noted;
    waiting' := waiting;
    noted, tables := [], [dht.buckets[..]];
    for i := 0 to |ms|
      invariant dht.Valid() && waiting' == waiting + noted && noted == Unvisited(ms[..i], visited)
      invariant forall m :: m in noted ==> m in ms
      invariant forall m :: m in ms[..i] ==> (bootstrapping || m.address != target) && (m.address in visited || m in noted)
      invariant NotedAll(dht.address, dht.maxLength, client, tables, noted)
      invariant tables[0] == old(dht.buckets[..]) && tables[|noted|] == dht.buckets[..]
    {
      var m := ms[i];
      assert ms[..i + 1] == ms[..i] + [m];
      if m.address == target && !bootstrapping {
        assert FirstAt(ms, i, target);
        return Some(m), waiting, noted, tables;
      }
      if m.address !in visited {
        var now: nat :| now >= 0;
        ghost var before := dht.buckets[..];
        var _ := UpdateDHT(dht, client, m, now);
        assert NotedNext(dht.address, dht.maxLength, client, before, m, dht.buckets[..]);
        NotedOne(dht.address, dht.maxLength, client, tables, noted, m, dht.buckets[..]);
        noted, tables := noted + [m], tables + [dht.buckets[..]];
        waiting' := waiting' + [m];
      }
    }
    assert ms[..|ms|] == ms;
    return None, waiting', noted, tables;
  }

  /** The known peers at which this search begins. */
  ghost function Start(bs: seq<Bucket>, self: Address, target: Address, bootstrapping: bool): (start: set<MultiAddress>)
  {
    set m | m in Flat(bs) && Starts(self, target, bootstrapping, m)
  }

  ghost predicate Knows(bs: seq<Bucket>, target: Address)
  {
    exists m :: m in Flat(bs) && m.address == target
  }

  /** Some peer of this address was known at the start or has been noted. */
  ghost predicate Listed(start: set<MultiAddress>, noted: seq<MultiAddress>, a: Address)
  {
    exists m :: (m in start || m in noted) && m.address == a
  }

  /** Everyone that q names is ourselves or listed. */
  ghost predicate AllListed(client: Client, start: set<MultiAddress>, noted: seq<MultiAddress>, q: MultiAddress)
  {
    forall m :: Names(client, q, m) ==> m.address == client.self.address || Listed(start, noted, m.address)
  }

  ghost predicate HasAddress(ms: seq<MultiAddress>, a: Address)
  {
    exists q :: q in ms && q.address == a
  }

  /** The nodes of a line that come before any other of the same address,
      ourselves left out. */
  ghost function FirstSeen(line: seq<MultiAddress>, self: Address): (list: seq<MultiAddress>)
  {
    if line == [] then []
    else
      var before, m := FirstSeen(line[..|line| - 1], self), line[|line| - 1];
      if m.address == self || HasAddress(before, m.address) then before else before + [m]
  }

  /** Some of the list, in the same order. */
  ghost predicate Among(some: seq<MultiAddress>, list: seq<MultiAddress>)
    decreases |list|
  {
    if some == [] then true
    else if list == [] then false
    else
      var rest := list[..|list| - 1];
      Among(some, rest) || (some[|some| - 1] == list[|list| - 1] && Among(some[..|some| - 1], rest))
  }

  /** Who was visited when so much of the line was served, and who was asked: all
      of them, first come first served, but when bootstrapping only those who
      answer a ping. */
  ghost predicate Served(bootstrapping: bool, asked: seq<MultiAddress>, line: seq<MultiAddress>, self: Address, visited: set<Address>)
  {
    var seen := FirstSeen(line, self);
    Among(asked, seen) && (!bootstrapping ==> asked == seen) && VisitedAre(visited, self, seen)
  }

  ghost predicate VisitedAre(visited: set<Address>, self: Address, seen: seq<MultiAddress>)
  {
    forall a :: a in visited <==> a == self || HasAddress(seen, a)
  }

  /** How the table was filled while these nodes were asked: everyone they name is
      listed, only those they name were noted, and the nodes asked are those known
      at the start and those noted, first come first served. */
  ghost predicate Filled(client: Client, start: set<MultiAddress>, asked: seq<MultiAddress>, complete: nat, noted: seq<MultiAddress>)
  {
    && complete <= |asked|
    && (forall i :: 0 <= i < complete ==> AllListed(client, start, noted, asked[i]))
    && (forall m :: m in noted ==> exists i :: 0 <= i < |asked| && Names(client, asked[i], m))
    && (forall q :: q in asked ==> q in start || q in noted)
  }

  /** The search. It ends on every finite network, asks no node twice and never
      more nodes than the depth allows. What it finds was known or is named at
      the end of a chain. An exhaustive search without a failed call finds the
      target exactly when it was known or some chain leads to it. On the way the
      table takes note of everyone who is named and not visited yet; with room
      for all, everyone who is named is known afterwards. */
  method Query(dht: DHT, client: Client, target: Address, depth: int, bootstrapping: bool, ghost network: set<Address>)
    returns (r: QueryResult, ghost asked: seq<MultiAddress>, ghost visited: set<Address>,
             ghost noted: seq<MultiAddress>, ghost tables: seq<seq<Bucket>>, ghost taken: nat)
    requires dht.Valid() && Within(client, network)
    modifies dht.buckets
    ensures dht.Valid()
    ensures bootstrapping ==> r.Finished? || r.Broken?
    ensures !bootstrapping ==> !r.Finished?
    ensures var start := old(Start(dht.buckets[..], client.self.address, target, bootstrapping));
            && Asked(client, start, asked, visited)
            && (r.Finished? && depth < 0 ==>
                  Covered(client, start, target, true, asked, visited, []) && Accounted(client, true, asked, visited))
            && (r.Found? ==>
                  && r.peer.address == target
                  && (old(Knows(dht.buckets[..], target)) || Reachable(client, start, target)))
            && (r.NotFound? ==> !old(Knows(dht.buckets[..], target)))
            && (r.NotFound? && depth < 0 && ByAddress(client) ==> !Reachable(client, start, target))
            && Filled(client, start, asked, Completed(r, asked), noted)
    ensures NotedAll(dht.address, dht.maxLength, client, tables, noted)
    ensures tables[0] == old(dht.buckets[..]) && tables[|noted|] == dht.buckets[..]
    ensures forall all: set<Address> :: network <= all && Roomy(dht.maxLength, old(dht.buckets[..]), all) ==>
              EveryoneKnown(dht.address, client, old(dht.buckets[..]), asked[..Completed(r, asked)], dht.buckets[..])
    ensures Accounted(client, bootstrapping, asked, visited)
    ensures var line := StartList(old(Flat(dht.buckets[..])), client.self.address, target, bootstrapping) + noted;
            && taken <= |line| && Served(bootstrapping, asked, line[..taken], client.self.address, visited)
            && (r.NotFound? || r.Finished? ==> taken == |line| || taken == depth)
    ensures depth >= 0 ==> |asked| <= taken <= depth
    ensures r.Broken? ==>
              || (exists q :: q in asked && client.query(q).None?)
              || (!bootstrapping && (client.self.address.Malformed? || target.Malformed?))
    ensures !r.Broken? ==> forall q :: q in asked ==> client.query(q).Some?
  {
    hide Tidy, Gap, Starts, Flat, Covered, Accounted, Reachable, Linked, ByAddress, NotedAll, Filled, EveryoneKnown, Roomy, StartList, Served;
    ghost var bs := dht.buckets[..];
    ghost var start := Start(bs, client.self.address, target, bootstrapping);
    var peers := dht.MultiAddresses();
    PeersWellFormed(dht.address, dht.maxLength, bs, peers);
    var begun, waiting := FindStart(peers, client.self.address, target, bootstrapping);
    if begun.Found? || begun.Broken? {
      NothingNoted(dht.address, dht.maxLength, client, bs, start);
      KnownNoted(dht.address, dht.maxLength, client, bs, start, [], 0, [], [bs], network);
      ServedStart(bootstrapping, client.self.address);
      StartState(client, {}, target, bootstrapping, []);
      return begun, [], {client.self.address}, [], [bs], 0;
    }
    r, asked, visited, noted, tables, taken := Search(dht, client, target, depth, bootstrapping, waiting, start, network);
    if r.Found? {
      ghost var i :| 0 <= i < |asked| && Names(client, asked[i], r.peer);
      FoundReachable(client, start, asked, visited, i, r.peer);
    }
    if r.NotFound? && depth < 0 && ByAddress(client) {
      NotFoundUnreachable(client, start, target, asked, visited);
    }
    assert forall m :: m in start ==> Known(bs, m);
    KnownNoted(dht.address, dht.maxLength, client, bs, start, asked, Completed(r, asked), noted, tables, network);
  }

  /** How many of the nodes asked had all that they named dealt with: all, unless
      the search broke off at the last. */
  ghost function Completed(r: QueryResult, asked: seq<MultiAddress>): (n: nat)
    ensures n <= |asked|
  {
    if r.NotFound? || r.Finished? || asked == [] then |asked| else |asked| - 1
  }

  /** Nobody known has been forgotten, and everyone who was named by these nodes
      and can be known is known. */
  ghost predicate EveryoneKnown(own: Address, client: Client, bs: seq<Bucket>, asked: seq<MultiAddress>, bs': seq<Bucket>)
  {
    && (forall a :: AddressKnown(bs, a) ==> AddressKnown(bs', a))
    && (forall q, m :: q in asked && Names(client, q, m) && Noteworthy(own, client.self.address, m) ==> AddressKnown(bs', m.address))
  }

  lemma NothingNoted(own: Address, max: nat, client: Client, bs: seq<Bucket>, start: set<MultiAddress>)
    requires |bs| == BUCKETS && Tidy(own, max, bs)
    ensures NotedAll(own, max, client, [bs], []) && Filled(client, start, [], 0, [])
  {
  }

  lemma KnownNoted(own: Address, max: nat, client: Client, bs: seq<Bucket>, start: set<MultiAddress>, asked: seq<MultiAddress>, complete: nat,
                   noted: seq<MultiAddress>, tables: seq<seq<Bucket>>, network: set<Address>)
    requires NotedAll(own, max, client, tables, noted) && tables[0] == bs && Within(client, network)
    requires (forall m :: m in start ==> Known(bs, m)) && Filled(client, start, asked, complete, noted)
    ensures forall all: set<Address> :: network <= all && Roomy(max, bs, all) ==>
              EveryoneKnown(own, client, bs, asked[..complete], tables[|noted|])
  {
    hide NotedNext, Tidy, Names, Roomy;
    forall all: set<Address> | network <= all && Roomy(max, bs, all)
      ensures EveryoneKnown(own, client, bs, asked[..complete], tables[|noted|])
    {
      RoomyAll(own, max, client, tables, noted, all);
      forall q, m | q in asked[..complete] && Names(client, q, m) && Noteworthy(own, client.self.address, m)
        ensures AddressKnown(tables[|noted|], m.address)
      {
        var i :| 0 <= i < complete && asked[i] == q;
        assert AllListed(client, start, noted, asked[i]);
        var x :| (x in start || x in noted) && x.address == m.address;
        assert x in start ==> AddressKnown(bs, x.address);
      }
    }
  }

  /** The queue: until it is empty or the depth is reached, the first node is
      asked unless it was visited before. */
  method Search(dht: DHT, client: Client, target: Address, depth: int, bootstrapping: bool,
                whitelist: seq<MultiAddress>, ghost start: set<MultiAddress>, ghost network: set<Address>)
    returns (r: QueryResult, ghost asked: seq<MultiAddress>, ghost visited: set<Address>,
             ghost noted: seq<MultiAddress>, ghost tables: seq<seq<Bucket>>, ghost taken: nat)
    requires dht.Valid() && Within(client, network) && forall m :: m in whitelist <==> m in start
    modifies dht.buckets
    ensures dht.Valid() && Asked(client, start, asked, visited)
    ensures r.Finished? ==> bootstrapping
    ensures r.NotFound? || r.Found? ==> !bootstrapping
    ensures r.Found? ==> r.peer.address == target && exists i :: 0 <= i < |asked| && Names(client, asked[i], r.peer)
    ensures (r.NotFound? || r.Finished?) && depth < 0 ==>
              Covered(client, start, target, bootstrapping, asked, visited, []) && Accounted(client, bootstrapping, asked, visited)
    ensures r.Broken? ==> exists q :: q in asked && client.query(q).None?
    ensures !r.Broken? ==> forall q :: q in asked ==> client.query(q).Some?
    ensures NotedAll(dht.address, dht.maxLength, client, tables, noted)
    ensures tables[0] == old(dht.buckets[..]) && tables[|noted|] == dht.buckets[..]
    ensures Filled(client, start, asked, Completed(r, asked), noted)
    ensures taken <= |whitelist + noted| && (depth >= 0 ==> |asked| <= taken <= depth)
    ensures Served(bootstrapping, asked, (whitelist + noted)[..taken], client.self.address, visited)
    ensures Accounted(client, bootstrapping, asked, visited)
    ensures r.NotFound? || r.Finished? ==> taken == |whitelist + noted| || taken == depth
  {
    hide Tidy, NotedAll, Progress, Asked, Filled, Served, Covered, Accounted, Unvisited, Within, Names;
    var self := client.self.address;
    var waiting, blacklist, i := whitelist, {self}, 0;
    asked, noted, tables, taken := [], [], [dht.buckets[..]], 0;
    ghost var all := network + set m | m in whitelist :: m.address;
    ghost var own, max := dht.address, dht.maxLength;
    ghost var line := whitelist;
    assert whitelist + [] == whitelist;
    ProgressStart(client, start, target, bootstrapping, all, whitelist);
    NothingNoted(own, max, client, dht.buckets[..], start);
    while (i < depth || depth < 0) && |waiting| > 0
      invariant dht.Valid() && 0 <= i == taken && (depth >= 0 ==> i <= depth)
      invariant Progress(client, start, target, bootstrapping, all, asked, blacklist, waiting, noted, line, i) && line == whitelist + noted
      invariant NotedAll(own, max, client, tables, noted) && |tables| == |noted| + 1
      invariant tables[0] == old(dht.buckets[..]) && tables[|noted|] == dht.buckets[..]
      decreases all - blacklist, |waiting|
    {
      var peer := waiting[0];
      ghost var queue := waiting;
      i, taken := i + 1, taken + 1;
      waiting := waiting[1..];
      if peer.address in blacklist {
        ProgressSkip(client, start, target, bootstrapping, all, asked, blacklist, queue, noted, line, i - 1);
        continue;
      }
      ProgressNew(client, start, target, bootstrapping, all, asked, blacklist, queue, noted, line, i - 1);
      ghost var visitedBefore := blacklist;
      blacklist := blacklist + {peer.address};
      if bootstrapping {
        var now: nat :| now >= 0;
        if client.ping(peer, now).None? {
          ProgressSilent(client, start, target, bootstrapping, all, asked, visitedBefore, queue, noted, line, i - 1);
          continue;
        }
      }
      var answer := client.query(peer);
      if answer.None? {
        ProgressStop(client, start, target, bootstrapping, all, asked, visitedBefore, queue, noted, line, i - 1, []);
        assert noted + [] == noted && line + [] == line && peer in asked + [peer];
        return Broken, asked + [peer], blacklist, noted, tables, taken;
      }
      var found, more, added, newTables := Extend(dht, client, target, bootstrapping, answer.value, blacklist, waiting);
      NotedMore(own, max, client, tables, noted, newTables, added);
      tables := tables + newTables[1..];
      NamedAll(client, peer, answer.value, added);
      assert whitelist + noted + added == whitelist + (noted + added);
      if found.Some? {
        ProgressStop(client, start, target, bootstrapping, all, asked, visitedBefore, queue, noted, line, i - 1, added);
        NamedAll(client, peer, answer.value, [found.value]);
        assert (asked + [peer])[|asked|] == peer && found.value in [found.value];
        return Found(found.value), asked + [peer], blacklist, noted + added, tables, taken;
      }
      ProgressAsk(client, start, target, bootstrapping, all, asked, visitedBefore, queue, noted, line, i - 1, network, answer.value, added);
      asked := asked + [peer];
      waiting, noted, line := more, noted + added, line + added;
    }
    ProgressEnd(client, start, target, bootstrapping, all, asked, blacklist, waiting, noted, line, i);
    return if bootstrapping then Finished else NotFound, asked, blacklist, noted, tables, taken;
  }

  /** ---- What a search keeps ---- */

  ghost predicate Progress(client: Client, start: set<MultiAddress>, target: Address, bootstrapping: bool, all: set<Address>,
                           asked: seq<MultiAddress>, visited: set<Address>, waiting: seq<MultiAddress>, noted: seq<MultiAddress>, line: seq<MultiAddress>, i: nat)
  {
    && Asked(client, start, asked, visited) && Accounted(client, bootstrapping, asked, visited)
    && Covered(client, start, target, bootstrapping, asked, visited, waiting)
    && Filled(client, start, asked, |asked|, noted) && VisitedListed(start, noted, client.self.address, visited)
    && Queued(client, start, all, asked, waiting) && OnLine(start, noted, line)
    && InLine(bootstrapping, line, i, asked, visited, waiting, client.self.address)
  }

  /** Whoever waits was known or is named by someone asked, and is in the network. */
  ghost predicate Queued(client: Client, start: set<MultiAddress>, all: set<Address>, asked: seq<MultiAddress>, waiting: seq<MultiAddress>)
  {
    forall m :: m in waiting ==> Linked(client, start, asked, m) && m.address in all
  }

  ghost predicate OnLine(start: set<MultiAddress>, noted: seq<MultiAddress>, line: seq<MultiAddress>)
  {
    forall m :: m in line ==> m in start || m in noted
  }

  /** The queue is the rest of the line from i on. */
  ghost predicate InLine(bootstrapping: bool, line: seq<MultiAddress>, i: nat, asked: seq<MultiAddress>, visited: set<Address>,
                         waiting: seq<MultiAddress>, self: Address)
  {
    |asked| <= i <= |line| && waiting == line[i..] && Served(bootstrapping, asked, line[..i], self, visited)
  }

  lemma ProgressStart(client: Client, start: set<MultiAddress>, target: Address, bootstrapping: bool, all: set<Address>, whitelist: seq<MultiAddress>)
    requires (forall m :: m in whitelist <==> m in start) && forall m :: m in whitelist ==> m.address in all
    ensures Progress(client, start, target, bootstrapping, all, [], {client.self.address}, whitelist, [], whitelist, 0)
  {
    hide Covered, Asked, Accounted, Linked;
    StartState(client, start, target, bootstrapping, whitelist);
    ServedStart(bootstrapping, client.self.address);
    NobodyListed(start, client.self.address);
  }

  /** The head of the queue has been visited. */
  lemma ProgressSkip(client: Client, start: set<MultiAddress>, target: Address, bootstrapping: bool, all: set<Address>,
                     asked: seq<MultiAddress>, visited: set<Address>, waiting: seq<MultiAddress>, noted: seq<MultiAddress>, line: seq<MultiAddress>, i: nat)
    requires Progress(client, start, target, bootstrapping, all, asked, visited, waiting, noted, line, i)
    requires waiting != [] && waiting[0].address in visited
    ensures Progress(client, start, target, bootstrapping, all, asked, visited, waiting[1..], noted, line, i + 1)
  {
    hide Covered, Asked, Accounted, Linked, Filled, VisitedListed, Served, OnLine;
    SkipCovered(client, start, target, bootstrapping, asked, visited, waiting);
    HeadTaken(line, i);
    ServedNext(bootstrapping, asked, line[..i], client.self.address, visited, waiting[0]);
  }

  lemma HeadTaken(line: seq<MultiAddress>, i: nat)
    requires i < |line|
    ensures line[i..][0] == line[i] && line[i..][1..] == line[i + 1..] && line[..i + 1] == line[..i] + [line[i]]
  {
  }

  /** Where the head of the queue comes from. */
  lemma ProgressNew(client: Client, start: set<MultiAddress>, target: Address, bootstrapping: bool, all: set<Address>,
                    asked: seq<MultiAddress>, visited: set<Address>, waiting: seq<MultiAddress>, noted: seq<MultiAddress>, line: seq<MultiAddress>, i: nat)
    requires Progress(client, start, target, bootstrapping, all, asked, visited, waiting, noted, line, i) && waiting != []
    ensures waiting[0].address in all && (waiting[0] in start || waiting[0] in noted) && Linked(client, start, asked, waiting[0])
    ensures |asked| <= i && forall q :: q in asked ==> client.query(q).Some?
  {
    hide Asked, Accounted, Linked, Filled, VisitedListed, Served;
    assert waiting[0] == line[i];
    assert waiting[0] in waiting && line[i] in line;
  }

  /** The head of the queue does not answer a ping. */
  lemma ProgressSilent(client: Client, start: set<MultiAddress>, target: Address, bootstrapping: bool, all: set<Address>,
                       asked: seq<MultiAddress>, visited: set<Address>, waiting: seq<MultiAddress>, noted: seq<MultiAddress>, line: seq<MultiAddress>, i: nat)
    requires Progress(client, start, target, bootstrapping, all, asked, visited, waiting, noted, line, i) && bootstrapping
    requires waiting != [] && waiting[0].address !in visited && exists now: nat :: client.ping(waiting[0], now).None?
    ensures Progress(client, start, target, bootstrapping, all, asked, visited + {waiting[0].address}, waiting[1..], noted, line, i + 1)
  {
    hide Covered, Asked, Accounted, Linked, Filled, VisitedListed, Served, OnLine;
    ProgressNew(client, start, target, bootstrapping, all, asked, visited, waiting, noted, line, i);
    var peer := waiting[0];
    VisitAsked(client, start, asked, visited, peer);
    VisitCovered(client, start, target, bootstrapping, asked, visited, waiting);
    VisitAccounted(client, bootstrapping, asked, visited, peer);
    VisitListed(start, noted, client.self.address, visited, peer);
    HeadTaken(line, i);
    ServedNext(bootstrapping, asked, line[..i], client.self.address, visited, peer);
  }

  /** The search breaks off at the head of the queue. */
  lemma ProgressStop(client: Client, start: set<MultiAddress>, target: Address, bootstrapping: bool, all: set<Address>,
                     asked: seq<MultiAddress>, visited: set<Address>, waiting: seq<MultiAddress>, noted: seq<MultiAddress>, line: seq<MultiAddress>, i: nat, added: seq<MultiAddress>)
    requires Progress(client, start, target, bootstrapping, all, asked, visited, waiting, noted, line, i)
    requires waiting != [] && waiting[0].address !in visited && forall m :: m in added ==> Names(client, waiting[0], m)
    ensures Asked(client, start, asked + [waiting[0]], visited + {waiting[0].address})
    ensures Filled(client, start, asked + [waiting[0]], |asked|, noted + added)
    ensures |asked| + 1 <= i + 1 <= |line + added|
    ensures Served(bootstrapping, asked + [waiting[0]], (line + added)[..i + 1], client.self.address, visited + {waiting[0].address})
    ensures Accounted(client, bootstrapping, asked + [waiting[0]], visited + {waiting[0].address})
  {
    hide Covered, Asked, Accounted, Linked, Filled, VisitedListed, Served, Names, Queued, InLine, OnLine;
    ProgressNew(client, start, target, bootstrapping, all, asked, visited, waiting, noted, line, i);
    var peer := waiting[0];
    VisitAsked(client, start, asked, visited, peer);
    VisitAccounted(client, bootstrapping, asked, visited, peer);
    AskedFilled(client, start, asked, noted, peer);
    MoreFilled(client, start, asked + [peer], |asked|, noted, added, peer);
    AskLine(bootstrapping, line, added, i, asked, visited, waiting, client.self.address);
    LineIs(bootstrapping, line + added, i + 1, asked + [peer], visited + {peer.address}, waiting[1..] + added, client.self.address);
  }

  lemma LineIs(bootstrapping: bool, line: seq<MultiAddress>, i: nat, asked: seq<MultiAddress>, visited: set<Address>,
               waiting: seq<MultiAddress>, self: Address)
    requires InLine(bootstrapping, line, i, asked, visited, waiting, self)
    ensures |asked| <= i <= |line| && (waiting == [] ==> i == |line|) && Served(bootstrapping, asked, line[..i], self, visited)
  {
  }

  lemma NamedAll(client: Client, q: MultiAddress, ms: seq<MultiAddress>, added: seq<MultiAddress>)
    requires client.query(q) == Some(ms) && forall m :: m in added ==> m in ms
    ensures forall m :: m in added ==> Names(client, q, m)
  {
  }

  /** The head of the queue is asked, and those it names join the queue. */
  lemma ProgressAsk(client: Client, start: set<MultiAddress>, target: Address, bootstrapping: bool, all: set<Address>,
                    asked: seq<MultiAddress>, visited: set<Address>, waiting: seq<MultiAddress>, noted: seq<MultiAddress>, line: seq<MultiAddress>, i: nat,
                    network: set<Address>, ms: seq<MultiAddress>, added: seq<MultiAddress>)
    requires Progress(client, start, target, bootstrapping, all, asked, visited, waiting, noted, line, i)
    requires waiting != [] && waiting[0].address !in visited && client.query(waiting[0]) == Some(ms) && Within(client, network) && network <= all
    requires forall m :: m in added ==> m in ms
    requires forall m :: m in ms ==>
               (bootstrapping || m.address != target) && (m.address in visited + {waiting[0].address} || m in added)
    ensures Progress(client, start, target, bootstrapping, all, asked + [waiting[0]], visited + {waiting[0].address},
                     waiting[1..] + added, noted + added, line + added, i + 1)
  {
    hide Asked, Accounted, Linked, Filled, VisitedListed, Served, Names, Covered, Within, Queued, InLine, OnLine;
    var peer, visited', rest := waiting[0], visited + {waiting[0].address}, waiting[1..];
    NamedAll(client, peer, ms, added);
    ProgressNew(client, start, target, bootstrapping, all, asked, visited, waiting, noted, line, i);
    ProgressStop(client, start, target, bootstrapping, all, asked, visited, waiting, noted, line, i, added);
    VisitCovered(client, start, target, bootstrapping, asked, visited, waiting);
    VisitAccounted(client, bootstrapping, asked, visited, peer);
    VisitListed(start, noted, client.self.address, visited, peer);
    ListedMore(start, noted, added, client.self.address, visited');
    AskLinked(client, start, network, all, asked, waiting, added);
    AskFilled(client, start, target, bootstrapping, asked, visited', rest, noted, peer, ms, added);
    AskLine(bootstrapping, line, added, i, asked, visited, waiting, client.self.address);
    OnLineMore(start, noted, line, added);
  }

  lemma OnLineMore(start: set<MultiAddress>, noted: seq<MultiAddress>, line: seq<MultiAddress>, added: seq<MultiAddress>)
    requires OnLine(start, noted, line)
    ensures OnLine(start, noted + added, line + added)
  {
  }

  lemma AskLinked(client: Client, start: set<MultiAddress>, network: set<Address>, all: set<Address>,
                  asked: seq<MultiAddress>, waiting: seq<MultiAddress>, added: seq<MultiAddress>)
    requires waiting != [] && Within(client, network) && network <= all && Queued(client, start, all, asked, waiting)
    requires forall m :: m in added ==> Names(client, waiting[0], m)
    ensures Queued(client, start, all, asked + [waiting[0]], waiting[1..] + added)
  {
    hide Linked, Names;
    forall m | m in waiting[1..] + added
      ensures Linked(client, start, asked + [waiting[0]], m) && m.address in all
    {
      StillLinked(client, start, asked, waiting[0], m);
      assert m in waiting[1..] ==> m in waiting;
    }
  }

  lemma AskFilled(client: Client, start: set<MultiAddress>, target: Address, bootstrapping: bool, asked: seq<MultiAddress>, visited: set<Address>,
                  rest: seq<MultiAddress>, noted: seq<MultiAddress>, peer: MultiAddress, ms: seq<MultiAddress>, added: seq<MultiAddress>)
    requires Covered(client, start, target, bootstrapping, asked, visited, rest) && client.query(peer) == Some(ms)
    requires forall m :: m in ms ==> (bootstrapping || m.address != target) && (m.address in visited || m in added)
    requires Filled(client, start, asked + [peer], |asked|, noted + added) && VisitedListed(start, noted + added, client.self.address, visited)
    ensures Covered(client, start, target, bootstrapping, asked + [peer], visited, rest + added)
    ensures Filled(client, start, asked + [peer], |asked| + 1, noted + added)
  {
    hide Covered, Filled, VisitedListed;
    AskCovered(client, start, target, bootstrapping, asked, visited, rest, peer, rest + added);
    AllFilled(client, start, asked + [peer], |asked|, noted + added, peer, ms, client.self.address, visited);
  }

  lemma AskLine(bootstrapping: bool, line: seq<MultiAddress>, added: seq<MultiAddress>, i: nat,
                asked: seq<MultiAddress>, visited: set<Address>, waiting: seq<MultiAddress>, self: Address)
    requires InLine(bootstrapping, line, i, asked, visited, waiting, self) && waiting != [] && waiting[0].address !in visited
    ensures InLine(bootstrapping, line + added, i + 1, asked + [waiting[0]], visited + {waiting[0].address}, waiting[1..] + added, self)
  {
    hide Served;
    HeadTaken(line, i);
    var line' := line + added;
    assert line'[..i + 1] == line[..i + 1] && line'[i + 1..] == line[i + 1..] + added;
    ServedNext(bootstrapping, asked, line[..i], self, visited, line[i]);
  }

  lemma ProgressEnd(client: Client, start: set<MultiAddress>, target: Address, bootstrapping: bool, all: set<Address>,
                    asked: seq<MultiAddress>, visited: set<Address>, waiting: seq<MultiAddress>, noted: seq<MultiAddress>, line: seq<MultiAddress>, i: nat)
    requires Progress(client, start, target, bootstrapping, all, asked, visited, waiting, noted, line, i)
    ensures Asked(client, start, asked, visited) && Accounted(client, bootstrapping, asked, visited)
    ensures Covered(client, start, target, bootstrapping, asked, visited, waiting) && Filled(client, start, asked, |asked|, noted)
    ensures |asked| <= i <= |line| && (waiting == [] ==> i == |line|)
    ensures Served(bootstrapping, asked, line[..i], client.self.address, visited)
    ensures forall q :: q in asked ==> client.query(q).Some?
  {
    hide Asked, Accounted, Linked, Filled, VisitedListed, InLine;
    LineIs(bootstrapping, line, i, asked, visited, waiting, client.self.address);
  }

  ghost predicate VisitedListed(start: set<MultiAddress>, noted: seq<MultiAddress>, self: Address, visited: set<Address>)
  {
    forall a :: a in visited ==> a == self || Listed(start, noted, a)
  }

  lemma NobodyListed(start: set<MultiAddress>, self: Address)
    ensures VisitedListed(start, [], self, {self})
  {
  }

  lemma ServedStart(bootstrapping: bool, self: Address)
    ensures Served(bootstrapping, [], [], self, {self})
  {
  }

  lemma ServedNext(bootstrapping: bool, asked: seq<MultiAddress>, line: seq<MultiAddress>, self: Address, visited: set<Address>, m: MultiAddress)
    requires Served(bootstrapping, asked, line, self, visited)
    ensures m.address in visited ==> Served(bootstrapping, asked, line + [m], self, visited)
    ensures m.address !in visited ==> Served(bootstrapping, asked + [m], line + [m], self, visited + {m.address})
    ensures m.address !in visited && bootstrapping ==> Served(bootstrapping, asked, line + [m], self, visited + {m.address})
  {
    hide FirstSeen, Among, VisitedAre;
    var seen := FirstSeen(line, self);
    SeenNext(line, self, visited, m);
    AmongNext(asked, seen, m);
  }

  lemma SeenNext(line: seq<MultiAddress>, self: Address, visited: set<Address>, m: MultiAddress)
    requires VisitedAre(visited, self, FirstSeen(line, self))
    ensures m.address in visited ==> FirstSeen(line + [m], self) == FirstSeen(line, self)
    ensures m.address !in visited ==>
              FirstSeen(line + [m], self) == FirstSeen(line, self) + [m] && VisitedAre(visited + {m.address}, self, FirstSeen(line, self) + [m])
  {
    hide HasAddress;
    var all, seen := line + [m], FirstSeen(line, self);
    assert all[..|all| - 1] == line;
    forall a
      ensures HasAddress(seen + [m], a) <==> HasAddress(seen, a) || a == m.address
    {
      AddressNext(seen, m, a);
    }
  }

  lemma AddressNext(ms: seq<MultiAddress>, m: MultiAddress, a: Address)
    ensures HasAddress(ms + [m], a) <==> HasAddress(ms, a) || a == m.address
  {
    assert m in ms + [m] && forall q :: q in ms ==> q in ms + [m];
  }

  lemma AmongNext(some: seq<MultiAddress>, list: seq<MultiAddress>, m: MultiAddress)
    requires Among(some, list)
    ensures Among(some, list + [m]) && Among(some + [m], list + [m])
  {
    assert (list + [m])[..|list|] == list && (some + [m])[..|some|] == some;
  }

  lemma VisitListed(start: set<MultiAddress>, noted: seq<MultiAddress>, self: Address, visited: set<Address>, m: MultiAddress)
    requires VisitedListed(start, noted, self, visited) && (m in start || m in noted)
    ensures VisitedListed(start, noted, self, visited + {m.address})
  {
  }

  lemma ListedMore(start: set<MultiAddress>, noted: seq<MultiAddress>, added: seq<MultiAddress>, self: Address, visited: set<Address>)
    requires VisitedListed(start, noted, self, visited)
    ensures VisitedListed(start, noted + added, self, visited)
  {
    forall a | a in visited && a != self
      ensures Listed(start, noted + added, a)
    {
      var m :| (m in start || m in noted) && m.address == a;
      assert m in start || m in noted + added;
    }
  }

  lemma AskedFilled(client: Client, start: set<MultiAddress>, asked: seq<MultiAddress>, noted: seq<MultiAddress>, q: MultiAddress)
    requires Filled(client, start, asked, |asked|, noted) && (q in start || q in noted)
    ensures Filled(client, start, asked + [q], |asked|, noted)
  {
    hide AllListed, Names;
    var asked' := asked + [q];
    forall m | m in noted
      ensures exists i :: 0 <= i < |asked'| && Names(client, asked'[i], m)
    {
      var i :| 0 <= i < |asked| && Names(client, asked[i], m);
      assert asked'[i] == asked[i];
    }
  }

  lemma MoreFilled(client: Client, start: set<MultiAddress>, asked: seq<MultiAddress>, complete: nat,
                   noted: seq<MultiAddress>, added: seq<MultiAddress>, q: MultiAddress)
    requires Filled(client, start, asked, complete, noted) && asked != [] && asked[|asked| - 1] == q
    requires forall m :: m in added ==> Names(client, q, m)
    ensures Filled(client, start, asked, complete, noted + added)
  {
    hide Names;
    forall i | 0 <= i < complete
      ensures AllListed(client, start, noted + added, asked[i])
    {
      forall m | Names(client, asked[i], m) && m.address != client.self.address
        ensures Listed(start, noted + added, m.address)
      {
        assert AllListed(client, start, noted, asked[i]);
        var x :| (x in start || x in noted) && x.address == m.address;
        assert x in start || x in noted + added;
      }
    }
    forall m | m in noted + added
      ensures exists i :: 0 <= i < |asked| && Names(client, asked[i], m)
    {
      if m in added {
        assert Names(client, asked[|asked| - 1], m);
      }
    }
  }

  lemma AllFilled(client: Client, start: set<MultiAddress>, asked: seq<MultiAddress>, complete: nat, noted: seq<MultiAddress>,
                  q: MultiAddress, ms: seq<MultiAddress>, self: Address, visited: set<Address>)
    requires Filled(client, start, asked, complete, noted) && |asked| == complete + 1 && asked[complete] == q
    requires client.query(q) == Some(ms) && self == client.self.address
    requires (forall m :: m in ms ==> m.address in visited || m in noted) && VisitedListed(start, noted, self, visited)
    ensures Filled(client, start, asked, complete + 1, noted)
  {
    assert AllListed(client, start, noted, asked[complete]);
  }

  lemma StartState(client: Client, start: set<MultiAddress>, target: Address, bootstrapping: bool, waiting: seq<MultiAddress>)
    requires forall m :: m in waiting <==> m in start
    ensures Asked(client, start, [], {client.self.address}) && Accounted(client, bootstrapping, [], {client.self.address})
    ensures Covered(client, start, target, bootstrapping, [], {client.self.address}, waiting)
    ensures forall m :: m in waiting ==> Linked(client, start, [], m)
  {
  }

  lemma VisitAccounted(client: Client, bootstrapping: bool, asked: seq<MultiAddress>, visited: set<Address>, q: MultiAddress)
    requires Accounted(client, bootstrapping, asked, visited)
    ensures Accounted(client, bootstrapping, asked + [q], visited + {q.address})
    ensures bootstrapping && (exists now: nat :: client.ping(q, now).None?) ==> Accounted(client, bootstrapping, asked, visited + {q.address})
  {
    assert q in asked + [q];
    assert forall x :: x in asked ==> x in asked + [q];
  }

  lemma StillLinked(client: Client, start: set<MultiAddress>, asked: seq<MultiAddress>, q: MultiAddress, m: MultiAddress)
    ensures Linked(client, start, asked, m) || Names(client, q, m) ==> Linked(client, start, asked + [q], m)
  {
    var asked' := asked + [q];
    if Linked(client, start, asked, m) && m !in start {
      var k :| 0 <= k < |asked| && Names(client, asked[k], m);
      assert asked'[k] == asked[k];
    } else {
      assert asked'[|asked|] == q;
    }
  }

  /** What a node that is asked for a target answers: the peers it knows that are
      strictly nearer than itself. All of them, with an error, when distances
      make no sense. */
  method ServeQuery(dht: DHT, self: Address, target: Address) returns (ms: seq<MultiAddress>, err: bool)
    requires dht.Valid()
    ensures !err ==> forall m :: m in ms <==> Known(dht.buckets[..], m) && Starts(self, target, false, m)
    ensures !err ==> ms == StartList(Flat(dht.buckets[..]), self, target, false)
    ensures err <==> (self.Malformed? || target.Malformed?) && exists m :: Known(dht.buckets[..], m)
    ensures err ==> ms == Flat(dht.buckets[..])
    ensures Distinct(ms)
  {
    hide Tidy, Gap, Flat, StartList;
    var peers := dht.MultiAddresses();
    PeersWellFormed(dht.address, dht.maxLength, dht.buckets[..], peers);
    ms := [];
    StartListEmpty(self, target, false);
    for i := 0 to |peers|
      invariant ms == StartList(peers[..i], self, target, false)
      invariant i > 0 ==> self.Address? && target.Address?
      invariant forall m :: m in ms <==> m in peers[..i] && Starts(self, target, false, m)
      invariant Distinct(ms)
    {
      assert peers[..i + 1] == peers[..i] + [peers[i]];
      StartListNext(peers[..i], peers[i], self, target, false);
      assert peers[i] in peers;
      var closer := Closer(peers[i].address, self, target);
      if closer.Err? {
        assert Known(dht.buckets[..], peers[i]);
        return peers, true;
      }
      if closer.value {
        forall m | m in ms
          ensures m.address != peers[i].address
        {
          var k :| 0 <= k < i && peers[k] == m;
        }
        DistinctConcat(ms, [peers[i]]);
        ms := ms + [peers[i]];
      }
    }
    assert peers[..|peers|] == peers;
    return ms, false;
  }
}
