/** Safety of the join protocol over all runs: every callback receives exactly
    the shared secrets, and each is called at most once. */
module SmpcSafety {
  import opened Options
  import opened Integers
  import opened Words
  import opened PrimeField
  import opened Lagrange
  import opened Shamir
  import opened Joining
  import opened Smpc

  // ----- one joiner

  ghost predicate HonestSet(polys: Sharing, id: JoinId, js: JoinSet)
    requires forall v :: 0 <= v < |polys(id)| ==> polys(id)[v] != []
  {
    && js.valuesLen == |polys(id)|
    && (forall x :: x in js.joins ==> Honest(polys, js.joins[x]))
    && (js.valuesOk ==> js.valuesLen <= |js.values| && js.values[..js.valuesLen] == Secrets(polys, id))
  }

  ghost predicate HonestSets(polys: Sharing, K: nat, sets: JoinSets)
    requires BoundedSharing(polys, K)
  {
    forall id :: id in sets ==> HonestSet(polys, id, sets[id])
  }

  /** Joining honest shares gives the secret, in whatever order they are met. */
  lemma HonestValue(polys: Sharing, K: nat, id: JoinId, js: JoinSet, v: Word, i: nat, k: nat)
    requires BoundedSharing(polys, K) && k >= K
    requires js.valuesLen == |polys(id)| && i < js.valuesLen
    requires forall x :: x in js.joins ==> Honest(polys, js.joins[x]) && js.joins[x].id == id && js.joins[x].index == x
    requires JoinedValue(v, js.joins, i, k)
    ensures v == polys(id)[i][0] % PRIME
  {
    hide Eval, Cong;
    var order: seq<Word> :| IsOrder(js.joins, order, i, k) && v == ShareSum(Column(js.joins, order, i), k) % PRIME;
    var c, f := Column(js.joins, order, i), polys(id)[i];
    forall j | 0 <= j < |c| ensures c[j].index == order[j] < TOP && Cong(c[j].value, Eval(f, c[j].index)) {
      assert order[j] in js.joins && IsShare(c[j], order[j], f);
      CongResidue(Eval(f, c[j].index));
    }
    SmallIndices(c, TOP - 1);
    Reconstruction(c, f);
  }

  lemma HonestValues(polys: Sharing, K: nat, id: JoinId, js: JoinSet, values: seq<Word>, k: nat)
    requires BoundedSharing(polys, K) && k >= K
    requires js.valuesLen == |polys(id)|
    requires forall x :: x in js.joins ==> Honest(polys, js.joins[x]) && js.joins[x].id == id && js.joins[x].index == x
    requires JoinedValues(values, js.joins, js.valuesLen, k)
    ensures values[..js.valuesLen] == Secrets(polys, id)
  {
    forall i | 0 <= i < js.valuesLen ensures values[i] == Secrets(polys, id)[i] {
      HonestValue(polys, K, id, js, values[i], i, k);
    }
  }

  /** Shares at different node indices never make an insertion panic; only a
      threshold of zero does. */
  lemma HonestPanicsIff(polys: Sharing, K: nat, k: nat, sets: JoinSets, join: Join)
    requires BoundedSharing(polys, K) && ValidSets(sets, k) && HonestSets(polys, K, sets) && Honest(polys, join)
    ensures InsertionPanics(k, sets, join) <==> k == 0 && 0 < |join.shares| <= MAX_JOIN_LENGTH
  {
    hide Eval, Cong;
    var js := Lookup(sets, join);
    var joins := js.joins[join.index := join];
    assert join.id in sets ==> ValidSet(join.id, js, k) && HonestSet(polys, join.id, js);
    forall x | x in joins
      ensures joins[x].index == x && Honest(polys, joins[x]) && |joins[x].shares| == js.valuesLen && joins[x].id == join.id
    {
    }
    forall x, y, i | x in joins && y in joins && x != y && 0 <= i < js.valuesLen
      ensures !Cong(joins[x].shares[i].index, joins[y].shares[i].index)
    {
      assert IsShare(joins[x].shares[i], x, polys(join.id)[i]) && IsShare(joins[y].shares[i], y, polys(join.id)[i]);
      SmallDifferent(x, y);
    }
  }

  /** An empty address list gives threshold 0, and the first join that carries a
      share then panics. */
  lemma EmptyListPanics(join: Join)
    requires 0 < |join.shares| <= MAX_JOIN_LENGTH
    ensures Threshold(0) == 0 && InsertionPanics(Threshold(0), map[], join)
  {
    assert Lookup(map[], join) == EmptySet(|join.shares|);
  }

  lemma SmallDifferent(x: int, y: int)
    requires 0 <= x < TOP && 0 <= y < TOP && x != y
    ensures !Cong(x, y)
  {
    SmallMod(x, PRIME);
    SmallMod(y, PRIME);
  }

  /** What an insertion of an honest join keeps and produces. */
  lemma HonestInsertion(polys: Sharing, K: nat, k: nat, sets: JoinSets, join: Join, callback: Option<Callback>, override: bool,
                        sets': JoinSets, err: Option<JoinError>, fired: Option<Fired>)
    requires BoundedSharing(polys, K) && k >= K && ValidSets(sets, k) && HonestSets(polys, K, sets)
    requires Honest(polys, join) && Insertion(k, sets, join, callback, override, sets', err, fired)
    ensures ValidSets(sets', k) && HonestSets(polys, K, sets')
    ensures fired.Some? ==> fired.value.id == join.id && fired.value.values == Secrets(polys, join.id)
  {
    hide Honest, JoinedValue, HonestSet, ValidSet;
    var js := Lookup(sets, join);
    if |join.shares| <= MAX_JOIN_LENGTH && |join.shares| == js.valuesLen {
      var js1 := Recorded(js, join, callback, override);
      RecordedValid(sets, k, join, callback, override);
      RecordedHonest(polys, K, sets, join, callback, override);
      HonestResult(polys, K, k, join.id, js1, sets'[join.id]);
    }
  }

  lemma HonestResult(polys: Sharing, K: nat, k: nat, id: JoinId, js1: JoinSet, js2: JoinSet)
    requires BoundedSharing(polys, K) && k >= K && HonestSet(polys, id, js1)
    requires |js1.joins| <= k && js1.valuesLen <= MAX_JOIN_LENGTH == |js1.values|
    requires js1.valuesOk ==> ValidSet(id, js1.(callback := None), k)
    requires forall x :: x in js1.joins ==>
               js1.joins[x].id == id && js1.joins[x].index == x && |js1.joins[x].shares| == js1.valuesLen
    requires
      if |js1.joins| < k then js2 == js1
      else
        && js2 == js1.(values := js2.values, valuesOk := true, callback := None)
        && (if js1.valuesOk then js2.values == js1.values else JoinedValues(js2.values, js1.joins, js1.valuesLen, k))
    ensures ValidSet(id, js2, k) && HonestSet(polys, id, js2)
    ensures |js1.joins| >= k ==> js2.values[..js1.valuesLen] == Secrets(polys, id)
  {
    hide Honest, JoinedValue;
    if |js1.joins| >= k && !js1.valuesOk {
      HonestValues(polys, K, id, js1, js2.values, k);
    }
  }

  lemma RecordedHonest(polys: Sharing, K: nat, sets: JoinSets, join: Join, callback: Option<Callback>, override: bool)
    requires BoundedSharing(polys, K) && HonestSets(polys, K, sets) && Honest(polys, join)
    requires |join.shares| == Lookup(sets, join).valuesLen
    ensures HonestSet(polys, join.id, Recorded(Lookup(sets, join), join, callback, override))
  {
    hide Eval;
    var js := Lookup(sets, join);
    assert join.id in sets ==> HonestSet(polys, join.id, js);
  }

  /** Once its values are known a set never changes again, apart from callbacks. */
  lemma FrozenByInsertion(k: nat, sets: JoinSets, join: Join, callback: Option<Callback>, override: bool,
                          sets': JoinSets, err: Option<JoinError>, fired: Option<Fired>, id: JoinId)
    requires ValidSets(sets, k) && Insertion(k, sets, join, callback, override, sets', err, fired)
    requires id in sets && sets[id].valuesOk
    ensures id in sets' && sets'[id] == sets[id].(callback := sets'[id].callback)
  {
  }

  // ----- the whole network

  ghost predicate InsertedAt(call: Call, r: JoinerRef)
  {
    call.progress == Inserted(r) || call.progress == Returned(Some(r))
  }

  ghost predicate HonestHeap(polys: Sharing, K: nat, heap: seq<JoinerState>)
    requires BoundedSharing(polys, K)
  {
    forall r :: 0 <= r < |heap| ==>
      heap[r].k >= K && ValidSets(heap[r].sets, heap[r].k) && HonestSets(polys, K, heap[r].sets)
  }

  /** Every join anywhere in the network is honest, and references are good. */
  ghost predicate HonestTraffic(polys: Sharing, s: State)
  {
    && (forall i, network :: 0 <= i < |s.nodes| && network in s.nodes[i].joiners ==> s.nodes[i].joiners[network] < |s.heap|)
    && (forall i, id :: 0 <= i < |s.nodes| && id in s.nodes[i].selfJoins ==> Honest(polys, s.nodes[i].selfJoins[id]))
    && (forall c :: 0 <= c < |s.calls| ==> Honest(polys, s.calls[c].join))
    && (forall c :: 0 <= c < |s.calls| && s.calls[c].progress.Found? ==> s.calls[c].progress.ref < |s.heap|)
    && (forall m :: m in s.sent ==> Honest(polys, m.join))
  }

  ghost predicate HonestEvents(polys: Sharing, K: nat, events: seq<Event>)
    requires BoundedSharing(polys, K)
  {
    forall e :: 0 <= e < |events| ==> events[e].fired.values == Secrets(polys, events[e].fired.id)
  }

  ghost predicate Pending(s: State, r: JoinerRef, id: JoinId, c: Callback)
  {
    r < |s.heap| && id in s.heap[r].sets && s.heap[r].sets[id].callback == Some(c)
  }

  /** A callback waits in one place, the one its call inserted it at, until it
      fires; it never fires again. */
  ghost predicate CallbacksOnce(s: State)
  {
    && (forall r: nat, id, c: nat :: Pending(s, r, id, c) ==> WaitsRightly(s, r, id, c))
    && (forall e :: 0 <= e < |s.events| ==> FiredRight(s.calls, s.events[e]))
    && (forall a, b :: 0 <= a < b < |s.events| ==> s.events[a].fired.callback != s.events[b].fired.callback)
  }

  ghost predicate WaitsRightly(s: State, r: JoinerRef, id: JoinId, c: Callback)
  {
    && c < |s.calls| && InsertedAt(s.calls[c], r) && s.calls[c].join.id == id
    && forall e :: 0 <= e < |s.events| ==> s.events[e].fired.callback != c
  }

  /** A callback fires where its call inserted it, for the join of the call. */
  ghost predicate FiredRight(calls: seq<Call>, e: Event)
  {
    var c := e.fired.callback;
    c < |calls| && InsertedAt(calls[c], e.ref) && calls[c].join.id == e.fired.id
  }

  ghost predicate Inv(polys: Sharing, K: nat, s: State)
    requires BoundedSharing(polys, K)
  {
    HonestHeap(polys, K, s.heap) && HonestTraffic(polys, s) && HonestEvents(polys, K, s.events) && CallbacksOnce(s)
  }

  lemma InitInv(polys: Sharing, K: nat, s: State)
    requires BoundedSharing(polys, K) && Init(s)
    ensures SetsValid(s) && Inv(polys, K, s)
  {
  }

  /** Inserting an honest join at ref keeps the heap and the events honest. */
  lemma InsertAtHonest(polys: Sharing, K: nat, s: State, s': State, ref: JoinerRef, join: Join, callback: Option<Callback>, override: bool, err: Option<JoinError>)
    requires BoundedSharing(polys, K)
    requires HonestHeap(polys, K, s.heap) && HonestEvents(polys, K, s.events) && Honest(polys, join)
    requires ref < |s.heap| && InsertAt(s, s', ref, join, callback, override, err)
    ensures HonestHeap(polys, K, s'.heap) && HonestEvents(polys, K, s'.events) && |s'.heap| == |s.heap|
  {
    hide Honest, Insertion, ValidSets, HonestSets;
    var k, sets, sets' := s.heap[ref].k, s.heap[ref].sets, s'.heap[ref].sets;
    var fired :| Insertion(k, sets, join, callback, override, sets', err, fired)
                 && s'.events == match fired case None => s.events case Some(f) => s.events + [Event(ref, f)];
    HonestInsertion(polys, K, k, sets, join, callback, override, sets', err, fired);
  }

  /** ... and the callbacks in order, when the callback given is new. The call
      that gives it counts as inserted at ref when there is no error. */
  lemma InsertAtOnce(s: State, s': State, ref: JoinerRef, join: Join, callback: Option<Callback>, override: bool, err: Option<JoinError>)
    requires CallbacksOnce(s) && ref < |s.heap| && ValidSets(s.heap[ref].sets, s.heap[ref].k)
    requires InsertAt(s, s', ref, join, callback, override, err)
    requires CallsKept(s, s') && |s'.calls| == |s.calls|
    requires override == callback.Some?
    requires override ==>
      && callback.value < |s.calls| && s.calls[callback.value].join == join
      && (forall r: nat :: !InsertedAt(s.calls[callback.value], r))
      && (err.None? ==> InsertedAt(s'.calls[callback.value], ref))
    ensures CallbacksOnce(s')
  {
    hide Insertion, ValidSets, Pending, CallsKept, CallbacksOnce, InsertedAt;
    var fired :| Insertion(s.heap[ref].k, s.heap[ref].sets, join, callback, override, s'.heap[ref].sets, err, fired)
                 && s'.events == match fired case None => s.events case Some(f) => s.events + [Event(ref, f)];
    hide InsertAt;
    if fired.Some? {
      PendingBefore(s, s', ref, join, callback, override, err, fired.value);
      FiredOnce(s, s', ref, join, callback, override, err, fired.value);
    }
    forall r: nat, id, c: nat | Pending(s', r, id, c)
      ensures WaitsRightly(s', r, id, c)
    {
      PendingAfter(s, s', ref, join, callback, override, err, fired, r, id, c);
      WaitingKept(s, s', ref, join, callback, override, err, fired, r, id, c);
    }
    EventsOnce(s, s', ref, fired);
  }

  lemma EventsOnce(s: State, s': State, ref: JoinerRef, fired: Option<Fired>)
    requires CallbacksOnce(s) && CallsKept(s, s')
    requires s'.events == match fired case None => s.events case Some(f) => s.events + [Event(ref, f)]
    requires fired.Some? ==> FiredRight(s'.calls, Event(ref, fired.value))
    requires fired.Some? ==> forall e :: 0 <= e < |s.events| ==> s.events[e].fired.callback != fired.value.callback
    requires forall r: nat, id, c: nat :: Pending(s', r, id, c) ==> WaitsRightly(s', r, id, c)
    ensures CallbacksOnce(s')
  {
    hide Pending, WaitsRightly, InsertedAt;
    forall e | 0 <= e < |s'.events|
      ensures FiredRight(s'.calls, s'.events[e])
    {
      if e < |s.events| {
        assert s'.events[e] == s.events[e] && FiredRight(s.calls, s.events[e]);
      }
    }
  }

  /** What calls may do in a step: keep their joins and where they inserted them. */
  ghost predicate CallsKept(s: State, s': State)
  {
    && |s.calls| <= |s'.calls| && (forall c :: 0 <= c < |s.calls| ==> s'.calls[c].join == s.calls[c].join)
    && (forall c, r: nat :: 0 <= c < |s.calls| && InsertedAt(s.calls[c], r) ==> InsertedAt(s'.calls[c], r))
  }

  /** The callback that fires is the one given or the one that was waiting. */
  lemma PendingBefore(s: State, s': State, ref: JoinerRef, join: Join, callback: Option<Callback>, override: bool, err: Option<JoinError>, fired: Fired)
    requires ref < |s.heap| && ref < |s'.heap| && ValidSets(s.heap[ref].sets, s.heap[ref].k) && override == callback.Some?
    requires Insertion(s.heap[ref].k, s.heap[ref].sets, join, callback, override, s'.heap[ref].sets, err, Some(fired))
    ensures err.None? && fired.id == join.id
    ensures if override then fired.callback == callback.value else Pending(s, ref, join.id, fired.callback)
  {
    hide Insertion, ValidSets;
    InsertionCallback(s.heap[ref].k, s.heap[ref].sets, join, callback, override, s'.heap[ref].sets, err, Some(fired));
  }

  /** What waits afterwards was waiting before or has just been given, and is not
      where a callback has just fired. */
  lemma PendingAfter(s: State, s': State, ref: JoinerRef, join: Join, callback: Option<Callback>, override: bool, err: Option<JoinError>,
                     fired: Option<Fired>, r: nat, id: JoinId, c: nat)
    requires ref < |s.heap| && ref < |s'.heap| && ValidSets(s.heap[ref].sets, s.heap[ref].k) && override == callback.Some?
    requires s'.heap == s.heap[ref := s.heap[ref].(sets := s'.heap[ref].sets)]
    requires Insertion(s.heap[ref].k, s.heap[ref].sets, join, callback, override, s'.heap[ref].sets, err, fired)
    requires Pending(s', r, id, c)
    ensures Pending(s, r, id, c) || (override && err.None? && r == ref && id == join.id && c == callback.value)
    ensures fired.Some? ==> r != ref || id != join.id
  {
    hide Insertion, ValidSets;
    InsertionCallback(s.heap[ref].k, s.heap[ref].sets, join, callback, override, s'.heap[ref].sets, err, fired);
  }

  /** A callback that waits has been given by its call and has not fired. */
  lemma WaitingKept(s: State, s': State, ref: JoinerRef, join: Join, callback: Option<Callback>, override: bool, err: Option<JoinError>,
                    fired: Option<Fired>, r: nat, id: JoinId, c: nat)
    requires CallbacksOnce(s) && ref < |s.heap|
    requires CallsKept(s, s') && |s'.calls| == |s.calls|
    requires override ==>
      && callback.Some? && callback.value < |s.calls| && s.calls[callback.value].join == join
      && (forall r: nat :: !InsertedAt(s.calls[callback.value], r))
      && (err.None? ==> InsertedAt(s'.calls[callback.value], ref))
    requires s'.events == match fired case None => s.events case Some(f) => s.events + [Event(ref, f)]
    requires Pending(s, r, id, c) || (override && err.None? && r == ref && id == join.id && c == callback.value)
    requires fired.Some? ==> r != ref || id != join.id
    requires override && fired.Some? ==> fired.value.callback == callback.value
    requires !override && fired.Some? ==> Pending(s, ref, join.id, fired.value.callback)
    ensures WaitsRightly(s', r, id, c)
  {
    hide Pending;
    if fired.Some? && !override {
      assert WaitsRightly(s, ref, join.id, fired.value.callback);
    }
    if Pending(s, r, id, c) {
      assert WaitsRightly(s, r, id, c);
    }
  }

  /** The callback that fires has not fired before. */
  lemma FiredOnce(s: State, s': State, ref: JoinerRef, join: Join, callback: Option<Callback>, override: bool, err: Option<JoinError>, fired: Fired)
    requires CallbacksOnce(s) && ref < |s.heap| && err.None?
    requires CallsKept(s, s') && |s'.calls| == |s.calls|
    requires override ==>
      && callback.Some? && callback.value < |s.calls| && s.calls[callback.value].join == join
      && (forall r: nat :: !InsertedAt(s.calls[callback.value], r)) && InsertedAt(s'.calls[callback.value], ref)
    requires fired.id == join.id
    requires override ==> fired.callback == callback.value
    requires !override ==> Pending(s, ref, join.id, fired.callback)
    ensures FiredRight(s'.calls, Event(ref, fired))
    ensures forall e :: 0 <= e < |s.events| ==> s.events[e].fired.callback != fired.callback
  {
    hide Pending;
    if !override {
      assert WaitsRightly(s, ref, join.id, fired.callback);
    }
  }

  /** Steps that touch neither sets nor events only have to keep the calls. */
  lemma QuietOnce(s: State, s': State)
    requires CallbacksOnce(s) && s'.events == s.events
    requires |s'.heap| >= |s.heap| && forall r :: 0 <= r < |s.heap| ==> s'.heap[r] == s.heap[r]
    requires forall r :: |s.heap| <= r < |s'.heap| ==> s'.heap[r].sets == map[]
    requires CallsKept(s, s')
    ensures CallbacksOnce(s')
  {
    forall r: nat, id, c: nat | Pending(s', r, id, c)
      ensures WaitsRightly(s', r, id, c)
    {
      assert Pending(s, r, id, c) && WaitsRightly(s, r, id, c);
    }
  }

  lemma EmptyHonest(polys: Sharing, K: nat)
    requires BoundedSharing(polys, K)
    ensures HonestSets(polys, K, map[]) && forall k: nat :: ValidSets(map[], k)
  {
  }

  lemma ConnectionStep(polys: Sharing, K: nat, s: State, s': State)
    requires BoundedSharing(polys, K) && Inv(polys, K, s)
    requires
      || (exists i, network, addrs :: Threshold(addrs) >= K && Connect(s, s', i, network, addrs))
      || (exists i, network :: Disconnect(s, s', i, network))
    ensures Inv(polys, K, s')
  {
    hide Honest, HonestSets, ValidSets, Pending, CallbacksOnce, HonestEvents;
    EmptyHonest(polys, K);
    assert HonestTraffic(polys, s');
    assert HonestHeap(polys, K, s'.heap);
    QuietOnce(s, s');
  }

  lemma CallStep(polys: Sharing, K: nat, s: State, s': State)
    requires BoundedSharing(polys, K) && Inv(polys, K, s)
    requires
      || (exists i, network, join :: Honest(polys, join) && Invoke(s, s', i, network, join))
      || (exists c :: StoreSelf(s, s', c))
      || (exists c :: FindJoiner(s, s', c))
    ensures Inv(polys, K, s')
  {
    hide Honest, HonestHeap, Pending, CallbacksOnce, HonestEvents;
    assert HonestTraffic(polys, s');
    QuietOnce(s, s');
  }

  lemma SendStep(polys: Sharing, K: nat, s: State, s': State)
    requires BoundedSharing(polys, K) && Inv(polys, K, s)
    requires (exists c :: Broadcast(s, s', c)) || (exists i, m :: Respond(s, s', i, m))
    ensures Inv(polys, K, s')
  {
    hide Honest, HonestHeap, Pending, CallbacksOnce, HonestEvents;
    assert HonestTraffic(polys, s');
    QuietOnce(s, s');
  }

  lemma InsertStep(polys: Sharing, K: nat, s: State, s': State, c: nat, err: Option<JoinError>)
    requires BoundedSharing(polys, K) && Inv(polys, K, s) && SetsValid(s)
    requires Insert(s, s', c, err)
    ensures Inv(polys, K, s')
  {
    hide Honest, HonestSets, ValidSets, Pending, CallbacksOnce, InsertAt, HonestHeap, HonestEvents;
    var call := s.calls[c];
    InsertAtHonest(polys, K, s, s', call.progress.ref, call.join, Some(c), true, err);
    InsertAtOnce(s, s', call.progress.ref, call.join, Some(c), true, err);
    assert HonestTraffic(polys, s');
  }

  lemma ReceiveStep(polys: Sharing, K: nat, s: State, s': State, i: nat, m: Message, err: Option<JoinError>)
    requires BoundedSharing(polys, K) && Inv(polys, K, s) && SetsValid(s)
    requires Receive(s, s', i, m, err)
    ensures Inv(polys, K, s')
  {
    hide Honest, HonestSets, ValidSets, Pending, CallbacksOnce, InsertAt, HonestHeap, HonestEvents;
    if m.network in s.nodes[i].joiners {
      var ref := s.nodes[i].joiners[m.network];
      InsertAtHonest(polys, K, s, s', ref, m.join, None, false, err);
      InsertAtOnce(s, s', ref, m.join, None, false, err);
    } else {
      QuietOnce(s, s');
    }
    assert HonestTraffic(polys, s');
  }

  /** Every step keeps the invariant. */
  lemma NextInv(polys: Sharing, K: nat, s: State, s': State)
    requires BoundedSharing(polys, K) && SetsValid(s) && Inv(polys, K, s)
    requires Next(polys, K, s, s')
    ensures SetsValid(s') && Inv(polys, K, s')
  {
    hide Inv, Honest, Connect, Disconnect, Invoke, StoreSelf, FindJoiner, Broadcast, Respond, Insert, Receive;
    if exists c: nat, err :: Insert(s, s', c, err) {
      var c: nat, err :| Insert(s, s', c, err);
      InsertStep(polys, K, s, s', c, err);
    } else if exists i: nat, m, err :: Receive(s, s', i, m, err) {
      var i: nat, m, err :| Receive(s, s', i, m, err);
      ReceiveStep(polys, K, s, s', i, m, err);
    } else if (exists c: nat :: Broadcast(s, s', c)) || (exists i: nat, m :: Respond(s, s', i, m)) {
      SendStep(polys, K, s, s');
    } else if (exists i: nat, network: NetworkId, addrs: nat :: Threshold(addrs) >= K && Connect(s, s', i, network, addrs))
              || (exists i: nat, network: NetworkId :: Disconnect(s, s', i, network)) {
      ConnectionStep(polys, K, s, s');
    } else {
      CallStep(polys, K, s, s');
    }
    InvSetsValid(polys, K, s');
  }

  lemma InvSetsValid(polys: Sharing, K: nat, s: State)
    requires BoundedSharing(polys, K) && Inv(polys, K, s)
    ensures SetsValid(s)
  {
  }

  /** A run: any number of steps from the initial state. */
  ghost predicate IsRun(polys: Sharing, K: nat, run: seq<State>)
  {
    && run != [] && Init(run[0])
    && forall t :: 0 <= t < |run| - 1 ==> SetsValid(run[t]) && Next(polys, K, run[t], run[t + 1])
  }

  lemma {:induction false} RunInv(polys: Sharing, K: nat, run: seq<State>, t: nat)
    requires BoundedSharing(polys, K) && IsRun(polys, K, run) && t < |run|
    ensures SetsValid(run[t]) && Inv(polys, K, run[t])
    decreases t
  {
    hide Inv, Next, SetsValid, Init;
    if t == 0 {
      InitInv(polys, K, run[0]);
    } else {
      RunInv(polys, K, run, t - 1);
      NextInv(polys, K, run[t - 1], run[t]);
    }
  }

  /** In every run, under any delivery, loss, duplication and reordering, every
      callback at every node receives exactly the shared secrets; so any two
      nodes agree, and no callback is called twice. */
  lemma Agreement(polys: Sharing, K: nat, run: seq<State>, t: nat)
    requires BoundedSharing(polys, K) && IsRun(polys, K, run) && t < |run|
    ensures forall e :: 0 <= e < |run[t].events| ==>
              run[t].events[e].fired.values == Secrets(polys, run[t].events[e].fired.id)
    ensures forall a, b :: 0 <= a < b < |run[t].events| ==>
              run[t].events[a].fired.callback != run[t].events[b].fired.callback
    ensures forall a, b :: 0 <= a < |run[t].events| && 0 <= b < |run[t].events| && run[t].events[a].fired.id == run[t].events[b].fired.id ==>
              run[t].events[a].fired.values == run[t].events[b].fired.values
  {
    hide IsRun, HonestHeap, HonestTraffic;
    RunInv(polys, K, run, t);
  }

  /** No insertion that a run can make panics. */
  lemma RunNeverPanics(polys: Sharing, K: nat, run: seq<State>, t: nat, r: JoinerRef, join: Join)
    requires BoundedSharing(polys, K) && IsRun(polys, K, run) && t < |run|
    requires r < |run[t].heap| && Honest(polys, join)
    ensures ValidSets(run[t].heap[r].sets, run[t].heap[r].k)
    ensures !InsertionPanics(run[t].heap[r].k, run[t].heap[r].sets, join)
  {
    hide IsRun, ValidSets, HonestSets, InsertionPanics, HonestTraffic, CallbacksOnce;
    RunInv(polys, K, run, t);
    HonestPanicsIff(polys, K, run[t].heap[r].k, run[t].heap[r].sets, join);
  }

  // ----- no callback is lost

  /** In every state of a run a callback that waits does so in a set that has too
      few joins for a reconstruction. */
  lemma WaitingForJoins(polys: Sharing, K: nat, run: seq<State>, t: nat, r: JoinerRef, id: JoinId, c: Callback)
    requires BoundedSharing(polys, K) && IsRun(polys, K, run) && t < |run| && Pending(run[t], r, id, c)
    ensures !run[t].heap[r].sets[id].valuesOk && |run[t].heap[r].sets[id].joins| < run[t].heap[r].k
  {
    hide IsRun, Honest, HonestTraffic, HonestEvents, CallbacksOnce;
    RunInv(polys, K, run, t);
    assert ValidSet(id, run[t].heap[r].sets[id], run[t].heap[r].k);
  }

  /** The insertion that completes a set, or comes after, fires whatever callback
      was waiting or is given, and that insertion is the first with k joins. */
  lemma CompletionFires(k: nat, sets: JoinSets, join: Join, callback: Option<Callback>, override: bool,
                        sets': JoinSets, err: Option<JoinError>, fired: Option<Fired>)
    requires ValidSets(sets, k) && Insertion(k, sets, join, callback, override, sets', err, fired) && err.None?
    ensures
      var waiting := if override then callback else if join.id in sets then sets[join.id].callback else None;
      if sets'[join.id].valuesOk then fired.Some? == waiting.Some? && (fired.Some? ==> fired.value.callback == waiting.value)
      else fired == None && sets'[join.id].callback == waiting
    ensures sets'[join.id].valuesOk <==> |sets'[join.id].joins| >= k
  {
    hide JoinedValue;
    assert join.id in sets ==> ValidSet(join.id, sets[join.id], k);
  }

  // ----- reconstruction happens once

  /** The set is still there, with the same joins and values. */
  ghost predicate Frozen(s: State, s': State, r: JoinerRef, id: JoinId)
  {
    && r < |s.heap| && id in s.heap[r].sets && r < |s'.heap| && id in s'.heap[r].sets
    && s'.heap[r].sets[id] == s.heap[r].sets[id].(callback := s'.heap[r].sets[id].callback)
  }

  lemma FrozenByStep(polys: Sharing, K: nat, s: State, s': State, r: JoinerRef, id: JoinId)
    requires SetsValid(s) && Next(polys, K, s, s')
    requires r < |s.heap| && id in s.heap[r].sets && s.heap[r].sets[id].valuesOk
    ensures Frozen(s, s', r, id)
  {
    hide Honest, Insert, Receive, Connect, Disconnect, Invoke, StoreSelf, FindJoiner, Broadcast, Respond;
    if exists c: nat, err :: Insert(s, s', c, err) {
      var c: nat, err :| Insert(s, s', c, err);
      FrozenInsert(s, s', c, err, r, id);
    } else if exists i: nat, m, err :: Receive(s, s', i, m, err) {
      var i: nat, m, err :| Receive(s, s', i, m, err);
      FrozenReceive(s, s', i, m, err, r, id);
    } else {
      HeapGrows(polys, K, s, s');
    }
  }

  lemma HeapGrows(polys: Sharing, K: nat, s: State, s': State)
    requires SetsValid(s) && Next(polys, K, s, s')
    requires !(exists c: nat, err :: Insert(s, s', c, err)) && !(exists i: nat, m, err :: Receive(s, s', i, m, err))
    ensures |s.heap| <= |s'.heap| && s'.heap[..|s.heap|] == s.heap
  {
    hide Honest, Insert, Receive;
  }

  lemma FrozenInsert(s: State, s': State, c: nat, err: Option<JoinError>, r: JoinerRef, id: JoinId)
    requires SetsValid(s) && Insert(s, s', c, err)
    requires r < |s.heap| && id in s.heap[r].sets && s.heap[r].sets[id].valuesOk
    ensures Frozen(s, s', r, id)
  {
    hide InsertAt;
    FrozenAt(s, s', s.calls[c].progress.ref, s.calls[c].join, Some(c), true, err, r, id);
  }

  lemma FrozenReceive(s: State, s': State, i: nat, m: Message, err: Option<JoinError>, r: JoinerRef, id: JoinId)
    requires SetsValid(s) && Receive(s, s', i, m, err)
    requires r < |s.heap| && id in s.heap[r].sets && s.heap[r].sets[id].valuesOk
    ensures Frozen(s, s', r, id)
  {
    hide InsertAt;
    if m.network in s.nodes[i].joiners {
      FrozenAt(s, s', s.nodes[i].joiners[m.network], m.join, None, false, err, r, id);
    }
  }

  lemma FrozenAt(s: State, s': State, ref: JoinerRef, join: Join, callback: Option<Callback>, override: bool, err: Option<JoinError>,
                 r: JoinerRef, id: JoinId)
    requires ref < |s.heap| && ValidSets(s.heap[ref].sets, s.heap[ref].k)
    requires InsertAt(s, s', ref, join, callback, override, err)
    requires r < |s.heap| && id in s.heap[r].sets && s.heap[r].sets[id].valuesOk
    ensures Frozen(s, s', r, id)
  {
    hide Insertion, ValidSets;
    if r == ref {
      var fired :| Insertion(s.heap[ref].k, s.heap[ref].sets, join, callback, override, s'.heap[ref].sets, err, fired)
                   && s'.events == match fired case None => s.events case Some(f) => s.events + [Event(ref, f)];
      FrozenByInsertion(s.heap[ref].k, s.heap[ref].sets, join, callback, override, s'.heap[ref].sets, err, fired, id);
    }
  }

  /** Over a whole run the joins and values of a reconstructed set stay as they
      were when it was reconstructed. */
  lemma {:induction false} FrozenForever(polys: Sharing, K: nat, run: seq<State>, t: nat, u: nat, r: JoinerRef, id: JoinId)
    requires IsRun(polys, K, run) && t <= u < |run|
    requires r < |run[t].heap| && id in run[t].heap[r].sets && run[t].heap[r].sets[id].valuesOk
    ensures r < |run[u].heap| && id in run[u].heap[r].sets
    ensures run[u].heap[r].sets[id] == run[t].heap[r].sets[id].(callback := run[u].heap[r].sets[id].callback)
    decreases u
  {
    hide Next, SetsValid, Init;
    if t < u {
      FrozenForever(polys, K, run, t, u - 1, r, id);
      FrozenByStep(polys, K, run[u - 1], run[u], r, id);
    }
  }

  // ----- joins accumulate, in every run

  /** Every set of a joiner is still there with at least the same indices. */
  ghost predicate Kept(s: State, s': State, r: JoinerRef)
  {
    && r < |s.heap| && r < |s'.heap| && s'.heap[r].k == s.heap[r].k
    && forall id :: id in s.heap[r].sets ==>
         && id in s'.heap[r].sets && s.heap[r].sets[id].joins.Keys <= s'.heap[r].sets[id].joins.Keys
         && (s.heap[r].sets[id].valuesOk ==> s'.heap[r].sets[id].valuesOk)
  }

  /** The step inserts this join into the joiner at r without an error: it is the
      join of a call that found this joiner, or a node that is connected through
      this joiner receives it, as a join or as a response. */
  ghost predicate Inserts(s: State, s': State, r: JoinerRef, join: Join)
  {
    && SetsValid(s)
    && ((exists c :: Insert(s, s', c, None) && CallHas(s, c, r, join))
        || (exists i, m :: Receive(s, s', i, m, None) && NodeHas(s, i, m.network, r) && m.join == join))
  }

  ghost predicate CallHas(s: State, c: nat, r: JoinerRef, join: Join)
  {
    c < |s.calls| && s.calls[c].progress == Found(r) && s.calls[c].join == join
  }

  ghost predicate NodeHas(s: State, i: nat, network: NetworkId, r: JoinerRef)
  {
    i < |s.nodes| && network in s.nodes[i].joiners && s.nodes[i].joiners[network] == r
  }

  lemma InsertsAt(s: State, s': State, r: JoinerRef, join: Join) returns (callback: Option<Callback>, override: bool)
    requires Inserts(s, s', r, join)
    ensures r < |s.heap| && ValidSets(s.heap[r].sets, s.heap[r].k) && InsertAt(s, s', r, join, callback, override, None)
  {
    hide InsertAt, ValidSets;
    if c: nat :| Insert(s, s', c, None) && CallHas(s, c, r, join) {
      callback, override := Some(c), true;
    } else {
      callback, override := None, false;
    }
  }

  lemma KeptAt(s: State, s': State, ref: JoinerRef, join: Join, callback: Option<Callback>, override: bool, err: Option<JoinError>, r: JoinerRef)
    requires ref < |s.heap| && ValidSets(s.heap[ref].sets, s.heap[ref].k) && r < |s.heap|
    requires InsertAt(s, s', ref, join, callback, override, err)
    ensures Kept(s, s', r)
    ensures r == ref && err.None? ==>
              join.id in s'.heap[r].sets && (s'.heap[r].sets[join.id].valuesOk || join.index in s'.heap[r].sets[join.id].joins)
  {
    hide Insertion, ValidSets;
    if r == ref {
      var fired :| Insertion(s.heap[ref].k, s.heap[ref].sets, join, callback, override, s'.heap[ref].sets, err, fired)
                   && s'.events == match fired case None => s.events case Some(f) => s.events + [Event(ref, f)];
      InsertionAccumulates(s.heap[ref].k, s.heap[ref].sets, join, callback, override, s'.heap[ref].sets, err, fired);
    }
  }

  lemma KeptByStep(polys: Sharing, K: nat, s: State, s': State, r: JoinerRef)
    requires SetsValid(s) && Next(polys, K, s, s') && r < |s.heap|
    ensures Kept(s, s', r)
  {
    hide Honest, Insert, Receive, Connect, Disconnect, Invoke, StoreSelf, FindJoiner, Broadcast, Respond;
    if exists c: nat, err :: Insert(s, s', c, err) {
      var c: nat, err :| Insert(s, s', c, err);
      KeptByInsert(s, s', c, err, r);
    } else if exists i: nat, m, err :: Receive(s, s', i, m, err) {
      var i: nat, m, err :| Receive(s, s', i, m, err);
      KeptByReceive(s, s', i, m, err, r);
    } else {
      HeapGrows(polys, K, s, s');
      assert s'.heap[r] == s'.heap[..|s.heap|][r];
    }
  }

  lemma KeptByInsert(s: State, s': State, c: nat, err: Option<JoinError>, r: JoinerRef)
    requires SetsValid(s) && Insert(s, s', c, err) && r < |s.heap|
    ensures Kept(s, s', r)
  {
    hide InsertAt, Kept;
    KeptAt(s, s', s.calls[c].progress.ref, s.calls[c].join, Some(c), true, err, r);
  }

  lemma KeptByReceive(s: State, s': State, i: nat, m: Message, err: Option<JoinError>, r: JoinerRef)
    requires SetsValid(s) && Receive(s, s', i, m, err) && r < |s.heap|
    ensures Kept(s, s', r)
  {
    hide InsertAt;
    if m.network in s.nodes[i].joiners {
      KeptAt(s, s', s.nodes[i].joiners[m.network], m.join, None, false, err, r);
    }
  }

  lemma {:induction false} KeptForever(polys: Sharing, K: nat, run: seq<State>, t: nat, u: nat, r: JoinerRef)
    requires IsRun(polys, K, run) && t <= u < |run| && r < |run[t].heap|
    ensures Kept(run[t], run[u], r)
    decreases u
  {
    hide Next, SetsValid, Init;
    if t < u {
      KeptForever(polys, K, run, t, u - 1, r);
      KeptByStep(polys, K, run[u - 1], run[u], r);
    }
  }

  /** A step of the run before u inserted a join of this identifier and index. */
  ghost predicate InsertedBefore(run: seq<State>, u: nat, r: JoinerRef, id: JoinId, x: Word)
  {
    exists t: nat, join :: t + 1 <= u < |run| && Inserts(run[t], run[t + 1], r, join) && join.id == id && join.index == x
  }

  /** In every run: once joins with as many different indices as the threshold
      have been inserted, in any order and with anything in between, the set is
      reconstructed and no callback waits there. */
  lemma EnoughJoins(polys: Sharing, K: nat, run: seq<State>, u: nat, r: JoinerRef, id: JoinId, indices: set<Word>)
    requires BoundedSharing(polys, K) && IsRun(polys, K, run) && u < |run| && r < |run[u].heap|
    requires |indices| >= run[u].heap[r].k && forall x :: x in indices ==> InsertedBefore(run, u, r, id, x)
    ensures id in run[u].heap[r].sets && run[u].heap[r].sets[id].valuesOk && run[u].heap[r].sets[id].callback == None
  {
    hide IsRun, HonestTraffic, HonestEvents, CallbacksOnce, JoinedValue;
    RunInv(polys, K, run, u);
    var sets, k := run[u].heap[r].sets, run[u].heap[r].k;
    forall x | x in indices
      ensures id in sets && (sets[id].valuesOk || x in sets[id].joins)
    {
      StillInserted(polys, K, run, u, r, id, x);
    }
    assert k >= K >= 1 && indices != {};
    var x :| x in indices;
    assert ValidSet(id, sets[id], k);
    if !sets[id].valuesOk {
      SubsetSmaller(indices, sets[id].joins.Keys);
    }
  }

  lemma StillInserted(polys: Sharing, K: nat, run: seq<State>, u: nat, r: JoinerRef, id: JoinId, x: Word)
    requires IsRun(polys, K, run) && u < |run| && r < |run[u].heap| && InsertedBefore(run, u, r, id, x)
    ensures id in run[u].heap[r].sets && (run[u].heap[r].sets[id].valuesOk || x in run[u].heap[r].sets[id].joins)
  {
    hide IsRun, InsertAt, ValidSets, Inserts;
    var t: nat, join :| t + 1 <= u < |run| && Inserts(run[t], run[t + 1], r, join) && join.id == id && join.index == x;
    var callback, override := InsertsAt(run[t], run[t + 1], r, join);
    KeptAt(run[t], run[t + 1], r, join, callback, override, None, r);
    KeptForever(polys, K, run, t + 1, u, r);
  }

  // ----- every callback is accounted for

  ghost predicate HasFired(s: State, c: Callback)
  {
    exists e :: 0 <= e < |s.events| && s.events[e].fired.callback == c
  }

  /** Another call has put its own callback in the same place. */
  ghost predicate Superseded(s: State, r: JoinerRef, c: Callback)
    requires c < |s.calls|
  {
    exists d: nat :: d < |s.calls| && d != c && InsertedAt(s.calls[d], r) && s.calls[d].join.id == s.calls[c].join.id
  }

  /** The callback of a call that inserted its join waits, has fired, or has been
      replaced by that of another call for the same join. */
  ghost predicate Outcome(s: State, r: JoinerRef, c: Callback)
    requires c < |s.calls|
  {
    Pending(s, r, s.calls[c].join.id, c) || HasFired(s, c) || Superseded(s, r, c)
  }

  ghost predicate Accounted(s: State)
  {
    forall c: nat, r: nat :: c < |s.calls| && InsertedAt(s.calls[c], r) ==> Outcome(s, r, c)
  }

  lemma SupersededKept(s: State, s': State, r: JoinerRef, c: Callback)
    requires CallsKept(s, s') && c < |s.calls| && Superseded(s, r, c)
    ensures Superseded(s', r, c)
  {
    var d: nat :| d < |s.calls| && d != c && InsertedAt(s.calls[d], r) && s.calls[d].join.id == s.calls[c].join.id;
    assert InsertedAt(s'.calls[d], r);
  }

  lemma FiredKept(s: State, s': State, c: Callback)
    requires s.events <= s'.events && HasFired(s, c)
    ensures HasFired(s', c)
  {
    var e :| 0 <= e < |s.events| && s.events[e].fired.callback == c;
    assert s'.events[e] == s.events[e];
  }

  lemma QuietAccounted(s: State, s': State)
    requires Accounted(s) && CallsKept(s, s') && s'.events == s.events
    requires |s'.heap| >= |s.heap| && forall r :: 0 <= r < |s.heap| ==> s'.heap[r] == s.heap[r]
    requires forall c, r: nat :: 0 <= c < |s'.calls| && InsertedAt(s'.calls[c], r) ==> c < |s.calls| && InsertedAt(s.calls[c], r)
    ensures Accounted(s')
  {
    hide Superseded, HasFired, CallsKept;
    CallsKeptMeans(s, s');
    forall c: nat, r: nat | c < |s'.calls| && InsertedAt(s'.calls[c], r)
      ensures Outcome(s', r, c)
    {
      assert Outcome(s, r, c);
      if Superseded(s, r, c) {
        SupersededKept(s, s', r, c);
      } else if HasFired(s, c) {
        FiredKept(s, s', c);
      }
    }
  }

  lemma CallsKeptMeans(s: State, s': State)
    ensures CallsKept(s, s') ==> |s.calls| <= |s'.calls| && forall c :: 0 <= c < |s.calls| ==> s'.calls[c].join == s.calls[c].join
  {
  }

  lemma InsertAtAccounted(s: State, s': State, ref: JoinerRef, join: Join, callback: Option<Callback>, override: bool, err: Option<JoinError>)
    requires Accounted(s) && CallsKept(s, s') && |s'.calls| == |s.calls|
    requires ref < |s.heap| && ValidSets(s.heap[ref].sets, s.heap[ref].k) && override == callback.Some?
    requires InsertAt(s, s', ref, join, callback, override, err)
    requires override ==> callback.value < |s.calls| && s.calls[callback.value].join == join
    requires override && err.None? ==> InsertedAt(s'.calls[callback.value], ref)
    requires forall c, r: nat :: 0 <= c < |s'.calls| && InsertedAt(s'.calls[c], r) ==>
               InsertedAt(s.calls[c], r) || (override && err.None? && c == callback.value && r == ref)
    ensures Accounted(s')
  {
    hide Insertion, ValidSets, Superseded, HasFired, Outcome, CallsKept;
    var fired :| Insertion(s.heap[ref].k, s.heap[ref].sets, join, callback, override, s'.heap[ref].sets, err, fired)
                 && s'.events == match fired case None => s.events case Some(f) => s.events + [Event(ref, f)];
    CallsKeptMeans(s, s');
    forall c: nat, r: nat | c < |s'.calls| && InsertedAt(s'.calls[c], r)
      ensures Outcome(s', r, c)
    {
      if override && err.None? && c == callback.value && r == ref {
        GivenOutcome(s, s', ref, join, callback, override, err, fired);
      } else {
        OldOutcome(s, s', ref, join, callback, override, err, fired, r, c);
      }
    }
  }

  lemma GivenOutcome(s: State, s': State, ref: JoinerRef, join: Join, callback: Option<Callback>, override: bool, err: Option<JoinError>, fired: Option<Fired>)
    requires ref < |s.heap| && ref < |s'.heap| && ValidSets(s.heap[ref].sets, s.heap[ref].k) && callback.Some? && override && err.None?
    requires Insertion(s.heap[ref].k, s.heap[ref].sets, join, callback, override, s'.heap[ref].sets, err, fired)
    requires s'.events == match fired case None => s.events case Some(f) => s.events + [Event(ref, f)]
    requires callback.value < |s'.calls| && s'.calls[callback.value].join.id == join.id
    ensures Outcome(s', ref, callback.value)
  {
    hide Insertion, ValidSets;
    InsertionCallback(s.heap[ref].k, s.heap[ref].sets, join, callback, override, s'.heap[ref].sets, err, fired);
    if fired.Some? {
      assert s'.events[|s.events|].fired.callback == callback.value;
    }
  }

  lemma OldOutcome(s: State, s': State, ref: JoinerRef, join: Join, callback: Option<Callback>, override: bool, err: Option<JoinError>,
                   fired: Option<Fired>, r: JoinerRef, c: Callback)
    requires CallsKept(s, s') && c < |s.calls| && Outcome(s, r, c)
    requires ref < |s.heap| && ref < |s'.heap| && ValidSets(s.heap[ref].sets, s.heap[ref].k) && override == callback.Some?
    requires s'.heap == s.heap[ref := s.heap[ref].(sets := s'.heap[ref].sets)]
    requires Insertion(s.heap[ref].k, s.heap[ref].sets, join, callback, override, s'.heap[ref].sets, err, fired)
    requires s'.events == match fired case None => s.events case Some(f) => s.events + [Event(ref, f)]
    requires override && err.None? ==>
               && callback.value < |s'.calls| && s'.calls[callback.value].join == join && InsertedAt(s'.calls[callback.value], ref)
               && (callback.value != c || r != ref)
    ensures c < |s'.calls| && Outcome(s', r, c)
  {
    hide Insertion, ValidSets;
    if Superseded(s, r, c) {
      SupersededKept(s, s', r, c);
    } else if HasFired(s, c) {
      FiredKept(s, s', c);
    } else {
      InsertionCallback(s.heap[ref].k, s.heap[ref].sets, join, callback, override, s'.heap[ref].sets, err, fired);
      InsertionAccumulates(s.heap[ref].k, s.heap[ref].sets, join, callback, override, s'.heap[ref].sets, err, fired);
      if r == ref && s.calls[c].join.id == join.id && err.None? {
        if override {
          assert InsertedAt(s'.calls[callback.value], r) && s'.calls[callback.value].join.id == s'.calls[c].join.id;
        } else if fired.Some? {
          assert s'.events[|s.events|].fired.callback == c;
        }
      }
    }
  }

  lemma AccountedStep(polys: Sharing, K: nat, s: State, s': State)
    requires SetsValid(s) && Accounted(s) && Next(polys, K, s, s')
    ensures Accounted(s')
  {
    hide Honest, Accounted, ValidSets, InsertAt, Insert, Receive;
    if exists c: nat, err :: Insert(s, s', c, err) {
      var c: nat, err :| Insert(s, s', c, err);
      AccountedInsert(s, s', c, err);
    } else if exists i: nat, m, err :: Receive(s, s', i, m, err) {
      var i: nat, m, err :| Receive(s, s', i, m, err);
      AccountedReceive(s, s', i, m, err);
    } else {
      QuietAccounted(s, s');
    }
  }

  lemma AccountedInsert(s: State, s': State, c: nat, err: Option<JoinError>)
    requires SetsValid(s) && Accounted(s) && Insert(s, s', c, err)
    ensures Accounted(s')
  {
    hide Accounted, ValidSets, InsertAt;
    InsertAtAccounted(s, s', s.calls[c].progress.ref, s.calls[c].join, Some(c), true, err);
  }

  lemma AccountedReceive(s: State, s': State, i: nat, m: Message, err: Option<JoinError>)
    requires SetsValid(s) && Accounted(s) && Receive(s, s', i, m, err)
    ensures Accounted(s')
  {
    hide Accounted, ValidSets, InsertAt;
    if m.network in s.nodes[i].joiners {
      InsertAtAccounted(s, s', s.nodes[i].joiners[m.network], m.join, None, false, err);
    } else {
      QuietAccounted(s, s');
    }
  }

  lemma {:induction false} RunAccounted(polys: Sharing, K: nat, run: seq<State>, u: nat)
    requires IsRun(polys, K, run) && u < |run|
    ensures Accounted(run[u])
    decreases u
  {
    hide Next, SetsValid, Accounted;
    if u == 0 {
      NoCallsAccounted(run[0]);
    } else {
      RunAccounted(polys, K, run, u - 1);
      AccountedStep(polys, K, run[u - 1], run[u]);
    }
  }

  lemma NoCallsAccounted(s: State)
    requires s.calls == []
    ensures Accounted(s)
  {
  }

  /** In every run the callback of a call whose set is reconstructed has been
      called, unless another call for the same join took its place. */
  lemma CallbackAnswered(polys: Sharing, K: nat, run: seq<State>, u: nat, r: JoinerRef, c: Callback)
    requires BoundedSharing(polys, K) && IsRun(polys, K, run) && u < |run| && r < |run[u].heap|
    requires c < |run[u].calls| && InsertedAt(run[u].calls[c], r)
    requires var id := run[u].calls[c].join.id; id in run[u].heap[r].sets && run[u].heap[r].sets[id].valuesOk
    ensures HasFired(run[u], c) || Superseded(run[u], r, c)
  {
    hide IsRun;
    RunAccounted(polys, K, run, u);
    if Pending(run[u], r, run[u].calls[c].join.id, c) {
      WaitingForJoins(polys, K, run, u, r, run[u].calls[c].join.id, c);
    }
  }

  // ----- messages are sent and answered

  /** A call that has come past its first step left its join with its node, and
      one that returned after inserting it has sent it to the others. */
  ghost predicate Announced(s: State)
  {
    forall c :: 0 <= c < |s.calls| ==> CallAnnounced(s, s.calls[c])
  }

  ghost predicate CallAnnounced(s: State, call: Call)
  {
    && call.node < |s.nodes|
    && (!call.progress.Started? ==> call.join.id in s.nodes[call.node].selfJoins)
    && (call.progress.Returned? && call.progress.inserted.Some? ==> MessageJoin(call.node, call.network, call.join) in s.sent)
  }

  /** A call of this node has this join. */
  ghost predicate CalledBy(s: State, i: nat, join: Join)
  {
    exists c :: 0 <= c < |s.calls| && s.calls[c].node == i && s.calls[c].join == join
  }

  /** A join that a node was sent is still to be answered, or has been answered
      with the join of the node itself. */
  ghost predicate AnsweredBy(s: State, i: nat, m: Message)
  {
    (i, m) in s.responders || exists join: Join :: join.id == m.join.id && CalledBy(s, i, join) && MessageJoinResponse(m.network, join) in s.sent
  }

  /** What no step takes away. */
  ghost predicate Onward(s: State, s': State)
  {
    && s.sent <= s'.sent && |s'.nodes| == |s.nodes| && |s.calls| <= |s'.calls|
    && (forall c :: 0 <= c < |s.calls| ==> s'.calls[c].node == s.calls[c].node && s'.calls[c].join == s.calls[c].join)
    && (forall i, id :: 0 <= i < |s.nodes| && id in s.nodes[i].selfJoins ==> id in s'.nodes[i].selfJoins)
  }

  lemma OnwardStep(polys: Sharing, K: nat, s: State, s': State)
    requires SetsValid(s) && Next(polys, K, s, s')
    ensures Onward(s, s')
  {
    hide Honest, InsertAt, ValidSets;
  }

  lemma AnnouncedStep(polys: Sharing, K: nat, s: State, s': State)
    requires SetsValid(s) && Announced(s) && Next(polys, K, s, s')
    ensures Announced(s')
  {
    hide Honest, InsertAt, ValidSets;
    OnwardStep(polys, K, s, s');
    forall c | 0 <= c < |s'.calls|
      ensures CallAnnounced(s', s'.calls[c])
    {
      assert c < |s.calls| ==> CallAnnounced(s, s.calls[c]);
    }
  }

  lemma CalledStill(s: State, s': State, i: nat, join: Join)
    requires Onward(s, s') && CalledBy(s, i, join)
    ensures CalledBy(s', i, join)
  {
    var c :| 0 <= c < |s.calls| && s.calls[c].node == i && s.calls[c].join == join;
    assert s'.calls[c].node == i && s'.calls[c].join == join;
  }

  lemma AnsweredStep(polys: Sharing, K: nat, s: State, s': State, i: nat, m: Message)
    requires SetsValid(s) && Next(polys, K, s, s')
    requires i < |s.nodes| && m.join.id in s.nodes[i].selfJoins && AnsweredBy(s, i, m) && OwnJoins(s)
    ensures AnsweredBy(s', i, m)
  {
    hide Honest, InsertAt, ValidSets, CalledBy, Onward;
    OnwardStep(polys, K, s, s');
    if (i, m) in s.responders && (i, m) !in s'.responders {
      var join := s.nodes[i].selfJoins[m.join.id];
      assert MessageJoinResponse(m.network, join) in s'.sent;
      assert OwnJoin(s, i, m.join.id);
      CalledStill(s, s', i, join);
    } else if (i, m) !in s.responders {
      var join: Join :| join.id == m.join.id && CalledBy(s, i, join) && MessageJoinResponse(m.network, join) in s.sent;
      CalledStill(s, s', i, join);
      SentStill(s, s', MessageJoinResponse(m.network, join));
    }
  }

  lemma SentStill(s: State, s': State, m: Message)
    requires Onward(s, s') && m in s.sent
    ensures m in s'.sent
  {
  }

  /** What a node keeps under an identifier is the join of one of its calls. */
  ghost predicate OwnJoins(s: State)
  {
    forall i: nat, id :: OwnJoin(s, i, id)
  }

  ghost predicate OwnJoin(s: State, i: nat, id: JoinId)
  {
    i < |s.nodes| && id in s.nodes[i].selfJoins ==> s.nodes[i].selfJoins[id].id == id && CalledBy(s, i, s.nodes[i].selfJoins[id])
  }

  lemma OwnJoinsStep(polys: Sharing, K: nat, s: State, s': State)
    requires SetsValid(s) && OwnJoins(s) && Next(polys, K, s, s')
    ensures OwnJoins(s')
  {
    hide Next, SetsValid, CalledBy, Onward;
    OnwardStep(polys, K, s, s');
    forall i: nat, id
      ensures OwnJoin(s', i, id)
    {
      if i < |s'.nodes| && id in s'.nodes[i].selfJoins {
        var join := s'.nodes[i].selfJoins[id];
        SelfJoinFrom(polys, K, s, s', i, id);
        if !CalledBy(s', i, join) {
          assert OwnJoin(s, i, id);
          CalledStill(s, s', i, join);
        }
      }
    }
  }

  /** A join that a node keeps was kept before, or a call of the node stores it. */
  lemma SelfJoinFrom(polys: Sharing, K: nat, s: State, s': State, i: nat, id: JoinId)
    requires SetsValid(s) && OwnJoins(s) && Next(polys, K, s, s') && i < |s'.nodes| && id in s'.nodes[i].selfJoins
    ensures
      var join := s'.nodes[i].selfJoins[id];
      join.id == id && ((i < |s.nodes| && id in s.nodes[i].selfJoins && s.nodes[i].selfJoins[id] == join) || CalledBy(s', i, join))
  {
    hide Honest, InsertAt, ValidSets;
    assert OwnJoin(s, i, id);
    if exists c: nat :: StoreSelf(s, s', c) {
      var c: nat :| StoreSelf(s, s', c);
      assert s'.calls[c].node == s.calls[c].node && s'.calls[c].join == s.calls[c].join;
    }
  }

  lemma {:induction false} RunAnnounced(polys: Sharing, K: nat, run: seq<State>, u: nat)
    requires IsRun(polys, K, run) && u < |run|
    ensures Announced(run[u]) && OwnJoins(run[u])
    decreases u
  {
    hide Next, SetsValid;
    if u > 0 {
      RunAnnounced(polys, K, run, u - 1);
      hide Announced, OwnJoins;
      AnnouncedStep(polys, K, run[u - 1], run[u]);
      OwnJoinsStep(polys, K, run[u - 1], run[u]);
    }
  }

  /** In every run, a join message received without error by a node that has its own
      join of that identifier is waiting for its answer or has been answered, ever
      after. */
  lemma ReceivedAnswered(polys: Sharing, K: nat, run: seq<State>, t: nat, u: nat, i: nat, m: Message)
    requires IsRun(polys, K, run) && t + 1 <= u < |run| && SetsValid(run[t])
    requires m.MessageJoin? && Receive(run[t], run[t + 1], i, m, None) && m.join.id in run[t].nodes[i].selfJoins
    ensures AnsweredBy(run[u], i, m)
  {
    hide IsRun, InsertAt, ValidSets;
    JoinAnswered(polys, K, run, t + 1, u, i, m);
  }

  lemma {:induction false} JoinAnswered(polys: Sharing, K: nat, run: seq<State>, t: nat, u: nat, i: nat, m: Message)
    requires IsRun(polys, K, run) && t <= u < |run|
    requires i < |run[t].nodes| && (i, m) in run[t].responders && m.join.id in run[t].nodes[i].selfJoins
    ensures i < |run[u].nodes| && m.join.id in run[u].nodes[i].selfJoins && AnsweredBy(run[u], i, m)
    decreases u
  {
    hide Next, SetsValid, Init;
    if t < u {
      JoinAnswered(polys, K, run, t, u - 1, i, m);
      RunAnnounced(polys, K, run, u - 1);
      OnwardStep(polys, K, run[u - 1], run[u]);
      hide AnsweredBy, OwnJoins;
      AnsweredStep(polys, K, run[u - 1], run[u], i, m);
    }
  }

  // ----- connections

  /** Connecting puts an empty joiner with the threshold of the list in the place
      of the network; other networks and other nodes keep theirs, and so do calls
      that still hold the old one. */
  lemma Connected(s: State, s': State, i: nat, network: NetworkId, addrs: nat)
    requires Connect(s, s', i, network, addrs)
    ensures NodeHas(s', i, network, |s.heap|) && |s'.heap| == |s.heap| + 1 && s'.heap[..|s.heap|] == s.heap
    ensures s'.heap[|s.heap|].sets == map[] && 3 * s'.heap[|s.heap|].k <= 2 * (addrs + 1) < 3 * s'.heap[|s.heap|].k + 3
    ensures forall j, n, r :: (j != i || n != network) ==> (NodeHas(s', j, n, r) <==> NodeHas(s, j, n, r))
  {
    ThresholdIs(addrs);
  }

  lemma Disconnected(s: State, s': State, i: nat, network: NetworkId)
    requires Disconnect(s, s', i, network)
    ensures s'.heap == s.heap && forall j, n, r :: NodeHas(s', j, n, r) <==> NodeHas(s, j, n, r) && (j != i || n != network)
  {
  }

  // ----- nothing blocks

  /** An insertion that does not panic has an outcome. */
  lemma InsertionPossible(k: nat, sets: JoinSets, join: Join, callback: Option<Callback>, override: bool)
    returns (sets': JoinSets, err: Option<JoinError>, fired: Option<Fired>)
    requires ValidSets(sets, k) && !InsertionPanics(k, sets, join)
    ensures Insertion(k, sets, join, callback, override, sets', err, fired)
  {
    hide ValidSets, JoinedValue;
    var js := Lookup(sets, join);
    var js1 := Recorded(js, join, callback, override);
    sets', err, fired := sets, None, None;
    if |join.shares| > MAX_JOIN_LENGTH {
      err := Some(ErrJoinLengthExceedsMax);
    } else if |join.shares| != js.valuesLen {
      err := Some(ErrJoinLengthUnequal);
    } else if |js1.joins| < k {
      sets' := sets[join.id := js1];
    } else {
      RecordedValid(sets, k, join, callback, override);
      var values := js1.values;
      if !js1.valuesOk {
        values := SomeValues(js1.joins, js1.valuesLen, k);
      }
      var js2 := js1.(values := values, valuesOk := true, callback := None);
      sets' := sets[join.id := js2];
      if js1.callback.Some? {
        fired := Some(Fired(js1.callback.value, join.id, values[..js1.valuesLen]));
      }
    }
  }

  lemma SomeValues(joins: map<Word, Join>, len: nat, k: nat) returns (values: seq<Word>)
    requires len <= MAX_JOIN_LENGTH && k <= |joins| && forall x :: x in joins ==> |joins[x].shares| == len
    ensures JoinedValues(values, joins, len, k)
  {
    var order := SomeOrder(joins, len, k);
    values := seq(MAX_JOIN_LENGTH, i requires 0 <= i < MAX_JOIN_LENGTH =>
      if i < len then ColumnValue(joins, order, i, k) else 0);
    forall i | 0 <= i < len
      ensures JoinedValue(values[i], joins, i, k)
    {
      assert IsOrder(joins, order, i, k);
    }
  }

  ghost function ColumnValue(joins: map<Word, Join>, order: seq<Word>, i: nat, k: nat): (v: Word)
    requires |order| == k && forall x :: x in order ==> x in joins && i < |joins[x].shares|
    ensures v == ShareSum(Column(joins, order, i), k) % PRIME
  {
    var v := ShareSum(Column(joins, order, i), k) % PRIME;
    assert 0 <= v < PRIME;
    v
  }

  lemma {:induction false} SomeOrder(joins: map<Word, Join>, len: nat, k: nat) returns (order: seq<Word>)
    requires k <= |joins| && forall x :: x in joins ==> |joins[x].shares| == len
    ensures |order| == k && (forall a, b :: 0 <= a < b < k ==> order[a] != order[b]) && forall x :: x in order ==> x in joins
    decreases k
  {
    if k == 0 {
      order := [];
    } else {
      var before := SomeOrder(joins, len, k - 1);
      var listed := set x | x in before;
      SeqSetSize(before, listed);
      if joins.Keys <= listed {
        SubsetSmaller(joins.Keys, listed);
      }
      var x :| x in joins.Keys && x !in listed;
      order := before + [x];
    }
  }

  /** In any state of a run, a join that was sent can be received by any node that
      is connected: it is then part of the set, or the set is reconstructed. */
  lemma CanReceive(polys: Sharing, K: nat, run: seq<State>, t: nat, i: nat, m: Message, r: JoinerRef) returns (s': State, err: Option<JoinError>)
    requires BoundedSharing(polys, K) && IsRun(polys, K, run) && t < |run|
    requires m in run[t].sent && NodeHas(run[t], i, m.network, r)
    ensures SetsValid(run[t]) && Receive(run[t], s', i, m, err)
    ensures err.None? <==> |polys(m.join.id)| <= MAX_JOIN_LENGTH
    ensures err.None? ==>
              && r < |s'.heap| && m.join.id in s'.heap[r].sets
              && (s'.heap[r].sets[m.join.id].valuesOk || m.join.index in s'.heap[r].sets[m.join.id].joins)
  {
    hide IsRun, Insertion, ValidSets, CallbacksOnce, HonestEvents;
    RunInv(polys, K, run, t);
    var s := run[t];
    RunNeverPanics(polys, K, run, t, r, m.join);
    var k, sets := s.heap[r].k, s.heap[r].sets;
    var sets', fired;
    sets', err, fired := InsertionPossible(k, sets, m.join, None, false);
    HonestLength(polys, K, k, sets, m.join, None, false, sets', err, fired);
    s' := s.(heap := s.heap[r := s.heap[r].(sets := sets')],
             events := match fired case None => s.events case Some(f) => s.events + [Event(r, f)],
             responders := if m.MessageJoin? && err.None? then s.responders + {(i, m)} else s.responders);
    assert s'.heap[r].sets == sets';
    assert InsertAt(s, s', r, m.join, None, false, err);
    KeptAt(s, s', r, m.join, None, false, err, r);
  }

  /** Honest joins are refused exactly when there are too many secrets. */
  lemma HonestLength(polys: Sharing, K: nat, k: nat, sets: JoinSets, join: Join, callback: Option<Callback>, override: bool,
                     sets': JoinSets, err: Option<JoinError>, fired: Option<Fired>)
    requires BoundedSharing(polys, K) && ValidSets(sets, k) && HonestSets(polys, K, sets) && Honest(polys, join)
    requires Insertion(k, sets, join, callback, override, sets', err, fired)
    ensures err.None? <==> |polys(join.id)| <= MAX_JOIN_LENGTH
  {
    hide Insertion, ValidSets, IsShare;
    InsertionAccumulates(k, sets, join, callback, override, sets', err, fired);
    if join.id in sets {
      assert HonestSet(polys, join.id, sets[join.id]);
    }
    ErrorCases(err);
  }

  lemma ErrorCases(err: Option<JoinError>)
    ensures err == None || err == Some(ErrJoinLengthExceedsMax) || err == Some(ErrJoinLengthUnequal)
  {
    match err
    case None =>
    case Some(e) => assert e.ErrJoinLengthExceedsMax? || e.ErrJoinLengthUnequal?;
  }

  /** A call of a connected node can go through all its steps: its join is kept by
      the node, inserted, and sent to the others. */
  lemma CallCompletes(polys: Sharing, K: nat, run: seq<State>, t: nat, c: nat, r: JoinerRef) returns (s1: State, s2: State, s3: State, s4: State)
    requires BoundedSharing(polys, K) && IsRun(polys, K, run) && t < |run|
    requires c < |run[t].calls| && run[t].calls[c].progress.Started? && NodeHas(run[t], run[t].calls[c].node, run[t].calls[c].network, r)
    requires |polys(run[t].calls[c].join.id)| <= MAX_JOIN_LENGTH
    ensures StoreSelf(run[t], s1, c) && FindJoiner(s1, s2, c)
    ensures SetsValid(s2) && Insert(s2, s3, c, None) && Broadcast(s3, s4, c)
    ensures
      var call := run[t].calls[c];
      && call.join.id in s4.nodes[call.node].selfJoins && s4.nodes[call.node].selfJoins[call.join.id] == call.join
      && MessageJoin(call.node, call.network, call.join) in s4.sent
      && r < |s4.heap| && call.join.id in s4.heap[r].sets
      && (s4.heap[r].sets[call.join.id].valuesOk || call.join.index in s4.heap[r].sets[call.join.id].joins)
  {
    hide IsRun, Insertion, ValidSets, CallbacksOnce, HonestEvents;
    RunInv(polys, K, run, t);
    var s := run[t];
    var call := s.calls[c];
    RunNeverPanics(polys, K, run, t, r, call.join);
    s1 := s.(nodes := s.nodes[call.node := s.nodes[call.node].(selfJoins := s.nodes[call.node].selfJoins[call.join.id := call.join])],
             calls := s.calls[c := call.(progress := SelfStored)]);
    s2 := s1.(calls := s1.calls[c := s1.calls[c].(progress := Found(r))]);
    var sets', err, fired := InsertionPossible(s2.heap[r].k, s2.heap[r].sets, call.join, Some(c), true);
    HonestLength(polys, K, s2.heap[r].k, s2.heap[r].sets, call.join, Some(c), true, sets', err, fired);
    s3 := s2.(heap := s2.heap[r := s2.heap[r].(sets := sets')],
              events := match fired case None => s2.events case Some(f) => s2.events + [Event(r, f)],
              calls := s2.calls[c := s2.calls[c].(progress := Inserted(r))]);
    assert s3.heap[r].sets == sets';
    assert InsertAt(s2, s3, r, call.join, Some(c), true, None);
    KeptAt(s2, s3, r, call.join, Some(c), true, None, r);
    s4 := s3.(sent := s3.sent + {MessageJoin(call.node, call.network, call.join)},
              calls := s3.calls[c := s3.calls[c].(progress := Returned(Some(r)))]);
  }

  // ----- thresholds

  /** Two thirds of the addresses and one more, rounded down. */
  lemma ThresholdIs(n: nat)
    ensures 3 * Threshold(n) <= 2 * (n + 1) < 3 * Threshold(n) + 3
  {
  }

  /** Any two sets of nodes that are large enough to reconstruct share a node. */
  lemma QuorumsMeet<T>(pod: set<T>, a: set<T>, b: set<T>)
    requires |pod| >= 1 && a <= pod && b <= pod && |a| >= Threshold(|pod|) && |b| >= Threshold(|pod|)
    ensures a * b != {}
  {
    ThresholdIs(|pod|);
    assert |a + b| + |a * b| == |a| + |b|;
    assert pod == (a + b) + (pod - (a + b));
    assert |a * b| > 0;
  }
}
