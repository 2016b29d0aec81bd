/** Waiting for matches to be confirmed on the blockchain and passing each one
    on once. */
module Confirming {
  import opened Options
  import opened Sides

  type OrderId = nat
  type Time = int

  /** One hour, in nanoseconds. */
  const HOUR: Time := 3_600_000_000_000

  datatype Status = NilStatus | Open | Confirmed | Canceled

  datatype ComputationId = ComputationId(buy: OrderId, sell: OrderId, depth: nat)

  datatype Computation = Computation(id: ComputationId, buy: OrderId, sell: OrderId, accepted: bool)

  /** What the contract answers about an order during one poll; no value where
      the call fails. */
  datatype Observation = Observation(depth: Option<nat>, status: Option<Status>, matched: Option<OrderId>)

  /** A confirmation passed on: when, in which event, and the order whose state
      was observed. */
  datatype Emission = Emission(com: Computation, time: Time, event: nat, observed: OrderId, parity: Parity)

  predicate Involves(e: Emission, id: OrderId)
  {
    e.com.buy == id || e.com.sell == id
  }

  type Store = map<ComputationId, Computation>

  /** Every computation is stored under the identifier of its own pair. */
  predicate Keyed(store: Store)
  {
    forall id :: id in store ==> store[id].id == id && store[id].buy == id.buy && store[id].sell == id.sell
  }

  function FromOrders(store: Store, parity: Parity, ord: OrderId, other: OrderId): (com: Option<Computation>)
  {
    var id := if parity == Buy then ComputationId(ord, other, 0) else ComputationId(other, ord, 0);
    if id in store then Some(store[id].(accepted := true))
    else if id.(depth := 1) in store then Some(store[id.(depth := 1)].(accepted := true))
    else None
  }

  /** The order was seen confirmed, and deep enough. */
  predicate Final(obs: Observation, depthLimit: nat)
  {
    obs.depth.Some? && obs.depth.value >= depthLimit && obs.status == Some(Confirmed)
  }

  /** The emission rests on this observation: its order was final, and the
      contract paired that order with the other order of the emission. */
  predicate Justified(e: Emission, obs: Observation, depthLimit: nat)
  {
    && Final(obs, depthLimit) && e.com.accepted
    && e.observed == (if e.parity == Buy then e.com.buy else e.com.sell)
    && obs.matched == Some(if e.parity == Buy then e.com.sell else e.com.buy)
  }

  /** Emissions that share an order are more than an hour apart. */
  ghost predicate Spaced(log: seq<Emission>)
  {
    forall i, j, id: OrderId :: 0 <= i < j < |log| && Involves(log[i], id) && Involves(log[j], id) ==>
      log[j].time > log[i].time + HOUR
  }

  /** An order passed on at this time is still remembered, or an hour has gone by. */
  ghost predicate Kept(time: Time, id: OrderId, confirmed: map<OrderId, Time>, now: Time)
  {
    time <= now && ((id in confirmed && time <= confirmed[id]) || now > time + HOUR)
  }

  /** What holds between any two steps of the confirmer. */
  ghost predicate Sound(log: seq<Emission>, confirmed: map<OrderId, Time>, now: Time)
  {
    && Spaced(log)
    && (forall i, id: OrderId :: 0 <= i < |log| && Involves(log[i], id) ==> Kept(log[i].time, id, confirmed, now))
  }

  lemma LaterSound(log: seq<Emission>, confirmed: map<OrderId, Time>, now: Time, later: Time)
    requires Sound(log, confirmed, now) && now <= later
    ensures Sound(log, confirmed, later)
  {
    forall i, id: OrderId | 0 <= i < |log| && Involves(log[i], id)
      ensures Kept(log[i].time, id, confirmed, later)
    {
      assert Kept(log[i].time, id, confirmed, now);
    }
  }

  lemma EmitSound(log: seq<Emission>, confirmed: map<OrderId, Time>, e: Emission, t1: Time, t2: Time)
    requires Sound(log, confirmed, e.time) && e.time <= t1 <= t2
    requires e.com.buy !in confirmed && e.com.sell !in confirmed
    ensures Sound(log + [e], confirmed[e.com.buy := t1][e.com.sell := t2], t2)
  {
    var log', confirmed' := log + [e], confirmed[e.com.buy := t1][e.com.sell := t2];
    forall i, id: OrderId | 0 <= i < |log| && Involves(log[i], id)
      ensures Kept(log[i].time, id, confirmed', t2) && (Involves(e, id) ==> e.time > log[i].time + HOUR)
    {
      assert Kept(log[i].time, id, confirmed, e.time);
    }
    forall i, id: OrderId | 0 <= i < |log'| && Involves(log'[i], id)
      ensures Kept(log'[i].time, id, confirmed', t2)
    {
      if i < |log| {
        assert log'[i] == log[i];
      }
    }
    assert Spaced(log');
  }

  lemma ForgetSound(log: seq<Emission>, confirmed: map<OrderId, Time>, now: Time, key: OrderId)
    requires Sound(log, confirmed, now) && key in confirmed && now - confirmed[key] > HOUR
    ensures Sound(log, confirmed - {key}, now)
  {
    forall i, id: OrderId | 0 <= i < |log| && Involves(log[i], id)
      ensures Kept(log[i].time, id, confirmed - {key}, now)
    {
      assert Kept(log[i].time, id, confirmed, now);
    }
  }

  /** What goes on around the confirmer while it handles one order: what the
      store holds when it is read, which others write at any time; whether the
      store refuses the write; and whether the confirmer is told to stop. */
  datatype Moment = Moment(store: Store, refused: bool, stop: bool)

  /** What the two goroutines do, one locked section at a time. The submitting
      one reads the confirmed orders before it takes the lock, possibly while a
      poll changes them, so what it sees is any map at all. */
  datatype Event =
    | Submitted(com: Computation, seen: map<OrderId, Time>)
    | Polled(buys: OrderId -> Observation, sells: OrderId -> Observation, moments: (Parity, OrderId) -> Moment)

  function Seen(event: Event, parity: Parity, ord: OrderId): (obs: Observation)
    requires event.Polled?
  {
    if parity == Buy then event.buys(ord) else event.sells(ord)
  }

  /** The store never holds a computation under another identifier than its own. */
  ghost predicate Orderly(event: Event)
  {
    event.Polled? ==> forall parity, ord :: Keyed(event.moments(parity, ord).store)
  }

  function Other(parity: Parity): Parity
  {
    if parity == Buy then Sell else Buy
  }

  /** The order was not seen to be deep: a call failed, or too few blocks. */
  predicate Shallow(obs: Observation, depthLimit: nat)
  {
    obs.depth.None? || obs.depth.value < depthLimit || obs.status.None? || (obs.status.value == Confirmed && obs.matched.None?)
  }

  /** The two orders of a match, the buy first. */
  function PairOf(parity: Parity, ord: OrderId, other: OrderId): (pair: (OrderId, OrderId))
  {
    if parity == Buy then (ord, other) else (other, ord)
  }

  predicate StoredIn(store: Store, pair: (OrderId, OrderId))
  {
    ComputationId(pair.0, pair.1, 0) in store || ComputationId(pair.0, pair.1, 1) in store
  }

  /** The store with the computation of the pair accepted, the one of the current
      epoch rather than the one before, unless it is unknown or the write fails. */
  function Accepted(at: Moment, pair: (OrderId, OrderId)): (store: Store)
  {
    var id := ComputationId(pair.0, pair.1, if ComputationId(pair.0, pair.1, 0) in at.store then 0 else 1);
    if id in at.store && !at.refused then at.store[id := at.store[id].(accepted := true)] else at.store
  }

  lemma FromOrdersIs(store: Store, parity: Parity, ord: OrderId, other: OrderId)
    requires Keyed(store)
    ensures FromOrders(store, parity, ord, other).Some? <==> StoredIn(store, PairOf(parity, ord, other))
    ensures FromOrders(store, parity, ord, other).Some? ==>
              var com := FromOrders(store, parity, ord, other).value;
              && (com.buy, com.sell) == PairOf(parity, ord, other) && com.accepted
              && com.id.buy == com.buy && com.id.sell == com.sell
  {
  }

  /** An emission since then involves this order. */
  ghost predicate SentSince(before: nat, log: seq<Emission>, id: OrderId)
  {
    exists i :: before <= i < |log| && Involves(log[i], id)
  }

  lemma SentStill(before: nat, log: seq<Emission>, log': seq<Emission>, id: OrderId)
    requires log <= log' && SentSince(before, log, id)
    ensures SentSince(before, log', id)
  {
    var i :| before <= i < |log| && Involves(log[i], id);
    assert log'[i] == log[i];
  }

  /** A watched order that this poll must pass on: final, with its computation at
      hand and neither order passed on before. */
  ghost predicate Due(event: Event, parity: Parity, ord: OrderId, depthLimit: nat, confirmed: map<OrderId, Time>)
    requires event.Polled?
  {
    var obs := Seen(event, parity, ord);
    && Final(obs, depthLimit) && obs.matched.Some?
    && var pair := PairOf(parity, ord, obs.matched.value);
       StoredIn(event.moments(parity, ord).store, pair) && pair.0 !in confirmed && pair.1 !in confirmed
  }

  /** The order, or the one it is matched with, has been passed on since then. */
  ghost predicate DoneSince(event: Event, parity: Parity, ord: OrderId, before: nat, log: seq<Emission>)
    requires event.Polled?
  {
    var obs := Seen(event, parity, ord);
    SentSince(before, log, ord) || (obs.matched.Some? && SentSince(before, log, obs.matched.value))
  }

  /** Why an order of the other side may be dropped: one of these orders is final
      and matched with it, and the match has been passed on or is not stored. */
  ghost predicate MatchedAway(event: Event, parity: Parity, watched: set<OrderId>, ord: OrderId, depthLimit: nat, before: nat, log: seq<Emission>)
    requires event.Polled?
  {
    exists p :: p in watched && MatchedBy(event, parity, p, ord, depthLimit, before, log)
  }

  ghost predicate MatchedBy(event: Event, parity: Parity, p: OrderId, ord: OrderId, depthLimit: nat, before: nat, log: seq<Emission>)
    requires event.Polled?
  {
    && Final(Seen(event, parity, p), depthLimit) && Seen(event, parity, p).matched == Some(ord)
    && (SentSince(before, log, ord) || !StoredIn(event.moments(parity, p).store, PairOf(parity, p, ord)))
  }

  lemma DoneStill(event: Event, parity: Parity, ord: OrderId, before: nat, log: seq<Emission>, log': seq<Emission>)
    requires event.Polled? && log <= log' && DoneSince(event, parity, ord, before, log)
    ensures DoneSince(event, parity, ord, before, log')
  {
    hide SentSince;
    var obs := Seen(event, parity, ord);
    if SentSince(before, log, ord) {
      SentStill(before, log, log', ord);
    } else {
      SentStill(before, log, log', obs.matched.value);
    }
  }

  lemma MatchedMore(event: Event, parity: Parity, watched: set<OrderId>, watched': set<OrderId>, ord: OrderId, depthLimit: nat, before: nat, log: seq<Emission>)
    requires event.Polled? && watched <= watched' && MatchedAway(event, parity, watched, ord, depthLimit, before, log)
    ensures MatchedAway(event, parity, watched', ord, depthLimit, before, log)
  {
    hide MatchedBy;
  }

  /** What was remembered still is, since the same time. */
  ghost predicate Retained(confirmed: map<OrderId, Time>, confirmed': map<OrderId, Time>)
  {
    forall id :: id in confirmed ==> id in confirmed' && confirmed'[id] == confirmed[id]
  }

  /** The confirmer is not told to stop during this poll. */
  ghost predicate NoStops(event: Event)
    requires event.Polled?
  {
    forall side, ord :: !event.moments(side, ord).stop
  }

  lemma NoStopAt(event: Event, parity: Parity, ord: OrderId)
    requires event.Polled?
    ensures NoStops(event) ==> !event.moments(parity, ord).stop
  {
  }

  lemma OrderlyAt(event: Event, parity: Parity, ord: OrderId)
    requires event.Polled? && Orderly(event)
    ensures Keyed(event.moments(parity, ord).store)
  {
  }

  /** What handling one watched order does to the log, the watched orders and the
      orders passed on. */
  ghost predicate Handled(parity: Parity, ord: OrderId, obs: Observation, at: Moment, depthLimit: nat, stopped: bool,
                          log: seq<Emission>, log': seq<Emission>, buys: set<OrderId>, buys': set<OrderId>, sells: set<OrderId>, sells': set<OrderId>,
                          confirmed: map<OrderId, Time>, confirmed': map<OrderId, Time>)
  {
    if Shallow(obs, depthLimit) then
      // nothing changes
      log' == log && buys' == buys && sells' == sells && confirmed' == confirmed && (stopped ==> at.stop)
    else if obs.status.value != Confirmed then
      // this order alone is purged
      && log' == log && confirmed' == confirmed && !stopped
      && buys' == (if parity == Buy then buys - {ord} else buys) && sells' == (if parity == Buy then sells else sells - {ord})
    else
      var pair := PairOf(parity, ord, obs.matched.value);
      if !StoredIn(at.store, pair) then
        // both are dropped
        && log' == log && confirmed' == confirmed && stopped == at.stop
        && buys' == (if at.stop then buys else buys - {pair.0}) && sells' == (if at.stop then sells else sells - {pair.1})
      else if at.stop || pair.0 in confirmed || pair.1 in confirmed then
        log' == log && buys' == buys && sells' == sells && confirmed' == confirmed && (stopped ==> at.stop)
      else
        // exactly one confirmation
        && !stopped && |log'| == |log| + 1 && log <= log'
        && (log'[|log|].com.buy, log'[|log|].com.sell) == pair
        && buys' == buys - {pair.0} && sells' == sells - {pair.1}
        && confirmed'.Keys == confirmed.Keys + {pair.0, pair.1}
  }

  /** What follows for a poll that began with the first emissions logged, the
      early orders remembered and the orders of start watched. */
  lemma Checked(polled: Event, parity: Parity, ord: OrderId, depthLimit: nat, first: nat, early: map<OrderId, Time>, log: seq<Emission>, log': seq<Emission>,
                watched: set<OrderId>, watched': set<OrderId>, others: set<OrderId>, others': set<OrderId>,
                confirmed: map<OrderId, Time>, confirmed': map<OrderId, Time>, start: set<OrderId>, stopped: bool)
    requires polled.Polled? && first <= |log| && ord in start
    requires Handled(parity, ord, Seen(polled, parity, ord), polled.moments(parity, ord), depthLimit, stopped, log, log',
                     if parity == Buy then watched else others, if parity == Buy then watched' else others',
                     if parity == Buy then others else watched, if parity == Buy then others' else watched', confirmed, confirmed')
    requires forall id :: id in confirmed ==> id in early || SentSince(first, log, id)
    ensures log <= log' && watched - {ord} <= watched' <= watched && others' <= others
    ensures forall id :: id in confirmed' ==> id in early || SentSince(first, log', id)
    ensures ord in watched && ord !in watched' ==> !Shallow(Seen(polled, parity, ord), depthLimit)
    ensures forall o :: o in others && o !in others' ==> MatchedAway(polled, parity, start, o, depthLimit, first, log')
    ensures stopped ==> polled.moments(parity, ord).stop
    ensures !polled.moments(parity, ord).stop && Due(polled, parity, ord, depthLimit, early) ==> DoneSince(polled, parity, ord, first, log')
  {
    hide SentSince, Seen;
    var obs, at := Seen(polled, parity, ord), polled.moments(parity, ord);
    forall id | id in confirmed && SentSince(first, log, id)
      ensures SentSince(first, log', id)
    {
      SentStill(first, log, log', id);
    }
    if !Shallow(obs, depthLimit) && obs.status.value == Confirmed {
      var other := obs.matched.value;
      var pair := PairOf(parity, ord, other);
      if |log'| == |log| + 1 {
        SentNow(first, log, log', pair);
      }
      if other in others && other !in others' {
        assert MatchedBy(polled, parity, ord, other, depthLimit, first, log');
      }
    }
  }

  lemma SentNow(first: nat, log: seq<Emission>, log': seq<Emission>, pair: (OrderId, OrderId))
    requires first <= |log| && |log'| == |log| + 1 && (log'[|log|].com.buy, log'[|log|].com.sell) == pair
    ensures SentSince(first, log', pair.0) && SentSince(first, log', pair.1)
  {
    assert Involves(log'[|log|], pair.0) && Involves(log'[|log|], pair.1);
  }

  lemma MatchedStill(event: Event, parity: Parity, watched: set<OrderId>, ord: OrderId, depthLimit: nat, before: nat, log: seq<Emission>, log': seq<Emission>)
    requires event.Polled? && log <= log' && MatchedAway(event, parity, watched, ord, depthLimit, before, log)
    ensures MatchedAway(event, parity, watched, ord, depthLimit, before, log')
  {
    hide SentSince;
    var p :| p in watched && MatchedBy(event, parity, p, ord, depthLimit, before, log);
    if SentSince(before, log, ord) {
      SentStill(before, log, log', ord);
    }
    assert MatchedBy(event, parity, p, ord, depthLimit, before, log');
  }

  /** The event that emitted it is a poll, and what that poll observed justifies
      the emission. */
  ghost predicate Backed(e: Emission, events: seq<Event>, depthLimit: nat)
  {
    e.event < |events| && events[e.event].Polled? && Justified(e, Seen(events[e.event], e.parity, e.observed), depthLimit)
  }

  /** ---- Whole runs ---- */

  /** A match that the submitter takes up. */
  ghost predicate Accepts(event: Event)
  {
    event.Submitted? && event.com.buy !in event.seen && event.com.sell !in event.seen
  }

  function SideOf(com: Computation, side: Parity): OrderId
  {
    if side == Buy then com.buy else com.sell
  }

  /** In this poll the order was seen deep, or some order of the other side was
      final and matched with it. */
  ghost predicate SettledIn(event: Event, side: Parity, ord: OrderId, depthLimit: nat)
  {
    event.Polled? &&
    (!Shallow(Seen(event, side, ord), depthLimit)
     || exists p :: Final(Seen(event, Other(side), p), depthLimit) && Seen(event, Other(side), p).matched == Some(ord))
  }

  ghost predicate SettledBetween(events: seq<Event>, n: nat, m: nat, side: Parity, ord: OrderId, depthLimit: nat)
  {
    exists k :: n < k < m <= |events| && SettledIn(events[k], side, ord, depthLimit)
  }

  /** An order submitted in event n is watched before event m, unless a poll in
      between settled it. */
  ghost predicate StillWatched(events: seq<Event>, n: nat, m: nat, side: Parity, ord: OrderId, watched: set<OrderId>, depthLimit: nat)
  {
    ord in watched || SettledBetween(events, n, m, side, ord, depthLimit)
  }

  /** An order submitted in event n that poll m, not being stopped, sees final with
      its computation stored has been passed on, or the order it is matched with
      has, unless a poll settled it before, or the orders of the other side that
      were checked first in this poll did. */
  ghost predicate PassedOn(events: seq<Event>, n: nat, m: nat, side: Parity, ord: OrderId, depthLimit: nat, log: seq<Emission>)
    requires m < |events| && events[m].Polled?
  {
    var obs := Seen(events[m], side, ord);
    Final(obs, depthLimit) && obs.matched.Some? && NoStops(events[m])
    && StoredIn(events[m].moments(side, ord).store, PairOf(side, ord, obs.matched.value)) ==>
      || SentSince(0, log, ord) || SentSince(0, log, obs.matched.value)
      || SettledBetween(events, n, m, side, ord, depthLimit)
      || (side == Sell && exists p :: Final(Seen(events[m], Buy, p), depthLimit) && Seen(events[m], Buy, p).matched == Some(ord))
  }

  /** Every match that was taken up before event n is watched still. */
  ghost predicate AllWatched(events: seq<Event>, n: nat, buys: set<OrderId>, sells: set<OrderId>, depthLimit: nat)
    requires n <= |events|
  {
    forall k, side :: 0 <= k < n && Accepts(events[k]) ==>
      StillWatched(events, k, n, side, SideOf(events[k].com, side), if side == Buy then buys else sells, depthLimit)
  }

  /** Every match that was taken up and every later poll before event n. */
  ghost predicate AllPassedOn(events: seq<Event>, n: nat, depthLimit: nat, log: seq<Emission>)
    requires n <= |events|
  {
    forall k, m, side :: 0 <= k < m < n && Accepts(events[k]) && events[m].Polled? ==>
      PassedOn(events, k, m, side, SideOf(events[k].com, side), depthLimit, log)
  }

  lemma SettledLater(events: seq<Event>, n: nat, m: nat, m': nat, side: Parity, ord: OrderId, depthLimit: nat)
    requires m <= m' <= |events| && SettledBetween(events, n, m, side, ord, depthLimit)
    ensures SettledBetween(events, n, m', side, ord, depthLimit)
  {
    hide SettledIn;
  }

  lemma SubmittedStep(events: seq<Event>, n: nat, depthLimit: nat, buys: set<OrderId>, buys': set<OrderId>, sells: set<OrderId>, sells': set<OrderId>)
    requires n < |events| && events[n].Submitted? && buys <= buys' && sells <= sells'
    requires Accepts(events[n]) ==> events[n].com.buy in buys' && events[n].com.sell in sells'
    requires AllWatched(events, n, buys, sells, depthLimit)
    ensures AllWatched(events, n + 1, buys', sells', depthLimit)
  {
    hide SettledBetween;
    forall k, side | 0 <= k < n + 1 && Accepts(events[k])
      ensures StillWatched(events, k, n + 1, side, SideOf(events[k].com, side), if side == Buy then buys' else sells', depthLimit)
    {
      if k < n {
        var ord := SideOf(events[k].com, side);
        assert StillWatched(events, k, n, side, ord, if side == Buy then buys else sells, depthLimit);
        if SettledBetween(events, k, n, side, ord, depthLimit) {
          SettledLater(events, k, n, n + 1, side, ord, depthLimit);
        }
      }
    }
  }

  lemma SubmittedPasses(events: seq<Event>, n: nat, depthLimit: nat, log: seq<Emission>)
    requires n < |events| && events[n].Submitted? && AllPassedOn(events, n, depthLimit, log)
    ensures AllPassedOn(events, n + 1, depthLimit, log)
  {
    hide PassedOn;
  }

  lemma NothingWatched(events: seq<Event>, buys: set<OrderId>, sells: set<OrderId>, depthLimit: nat, log: seq<Emission>)
    ensures AllWatched(events, 0, buys, sells, depthLimit) && AllPassedOn(events, 0, depthLimit, log)
  {
    hide PassedOn, StillWatched;
  }

  lemma PolledStep(events: seq<Event>, n: nat, depthLimit: nat, log: seq<Emission>, log': seq<Emission>,
                   buys: set<OrderId>, buys': set<OrderId>, sells: set<OrderId>, sells': set<OrderId>,
                   confirmed: map<OrderId, Time>, confirmed': map<OrderId, Time>)
    requires n < |events| && events[n].Polled? && log <= log'
    requires forall id :: id in confirmed ==> SentSince(0, log, id)
    requires forall id :: id in confirmed' ==> id in confirmed || SentSince(|log|, log', id)
    requires forall o :: o in buys && o !in buys' ==>
               !Shallow(Seen(events[n], Buy, o), depthLimit) || MatchedAway(events[n], Sell, sells, o, depthLimit, |log|, log')
    requires forall o :: o in sells && o !in sells' ==>
               !Shallow(Seen(events[n], Sell, o), depthLimit) || MatchedAway(events[n], Buy, buys, o, depthLimit, |log|, log')
    requires NoStops(events[n]) ==> forall o :: o in buys && Due(events[n], Buy, o, depthLimit, confirmed) ==>
               DoneSince(events[n], Buy, o, |log|, log')
    requires NoStops(events[n]) ==> forall o :: o in sells && Due(events[n], Sell, o, depthLimit, confirmed) ==>
               DoneSince(events[n], Sell, o, |log|, log') || MatchedAway(events[n], Buy, buys, o, depthLimit, |log|, log')
    requires AllWatched(events, n, buys, sells, depthLimit)
    requires AllPassedOn(events, n, depthLimit, log)
    ensures forall id :: id in confirmed' ==> SentSince(0, log', id)
    ensures AllWatched(events, n + 1, buys', sells', depthLimit)
    ensures AllPassedOn(events, n + 1, depthLimit, log')
  {
    hide SettledBetween, SentSince, StillWatched, PassedOn, MatchedAway, Due, DoneSince, Shallow, NoStops, Seen;
    forall id | id in confirmed'
      ensures SentSince(0, log', id)
    {
      if SentSince(|log|, log', id) {
        SentEarlier(|log|, log', id);
      } else {
        SentStill(0, log, log', id);
      }
    }
    forall k, side | 0 <= k < n + 1 && Accepts(events[k])
      ensures StillWatched(events, k, n + 1, side, SideOf(events[k].com, side), if side == Buy then buys' else sells', depthLimit)
    {
      var ord := SideOf(events[k].com, side);
      if side == Buy {
        WatchedStep(events, k, n, Buy, ord, depthLimit, log, log', buys, buys', sells);
      } else {
        WatchedStep(events, k, n, Sell, ord, depthLimit, log, log', sells, sells', buys);
      }
    }
    forall k, m, side | 0 <= k < m < n + 1 && Accepts(events[k]) && events[m].Polled?
      ensures PassedOn(events, k, m, side, SideOf(events[k].com, side), depthLimit, log')
    {
      var ord := SideOf(events[k].com, side);
      if m < n {
        PassedStill(events, k, m, side, ord, depthLimit, log, log');
      } else {
        PassedNow(events, k, n, side, ord, depthLimit, log, log', if side == Buy then buys else sells, buys, confirmed);
      }
    }
  }

  lemma SentEarlier(before: nat, log: seq<Emission>, id: OrderId)
    requires SentSince(before, log, id)
    ensures SentSince(0, log, id)
  {
  }

  lemma WatchedStep(events: seq<Event>, k: nat, n: nat, side: Parity, ord: OrderId, depthLimit: nat, log: seq<Emission>, log': seq<Emission>,
                    watched: set<OrderId>, watched': set<OrderId>, others: set<OrderId>)
    requires k < n < |events| && events[n].Polled?
    requires StillWatched(events, k, n, side, ord, watched, depthLimit)
    requires ord in watched && ord !in watched' ==>
               !Shallow(Seen(events[n], side, ord), depthLimit) || MatchedAway(events[n], Other(side), others, ord, depthLimit, |log|, log')
    ensures StillWatched(events, k, n + 1, side, ord, watched', depthLimit)
  {
    hide SentSince, Shallow, Seen;
    if SettledBetween(events, k, n, side, ord, depthLimit) {
      SettledLater(events, k, n, n + 1, side, ord, depthLimit);
    } else if ord !in watched' {
      if MatchedAway(events[n], Other(side), others, ord, depthLimit, |log|, log') {
        var p :| p in others && MatchedBy(events[n], Other(side), p, ord, depthLimit, |log|, log');
      }
      assert SettledIn(events[n], side, ord, depthLimit);
    }
  }

  lemma PassedStill(events: seq<Event>, k: nat, m: nat, side: Parity, ord: OrderId, depthLimit: nat, log: seq<Emission>, log': seq<Emission>)
    requires m < |events| && events[m].Polled? && log <= log' && PassedOn(events, k, m, side, ord, depthLimit, log)
    ensures PassedOn(events, k, m, side, ord, depthLimit, log')
  {
    hide SentSince, SettledBetween, Seen;
    var obs := Seen(events[m], side, ord);
    if SentSince(0, log, ord) {
      SentStill(0, log, log', ord);
    }
    if obs.matched.Some? && SentSince(0, log, obs.matched.value) {
      SentStill(0, log, log', obs.matched.value);
    }
  }

  lemma PassedNow(events: seq<Event>, k: nat, n: nat, side: Parity, ord: OrderId, depthLimit: nat, log: seq<Emission>, log': seq<Emission>,
                  watched: set<OrderId>, buys: set<OrderId>, confirmed: map<OrderId, Time>)
    requires k < n < |events| && events[n].Polled? && log <= log' && StillWatched(events, k, n, side, ord, watched, depthLimit)
    requires forall id :: id in confirmed ==> SentSince(0, log, id)
    requires NoStops(events[n]) && ord in watched && Due(events[n], side, ord, depthLimit, confirmed) ==>
               || DoneSince(events[n], side, ord, |log|, log')
               || (side == Sell && MatchedAway(events[n], Buy, buys, ord, depthLimit, |log|, log'))
    ensures PassedOn(events, k, n, side, ord, depthLimit, log')
  {
    hide SentSince, SettledBetween, Seen, NoStops;
    var obs := Seen(events[n], side, ord);
    if Final(obs, depthLimit) && obs.matched.Some? && NoStops(events[n])
       && StoredIn(events[n].moments(side, ord).store, PairOf(side, ord, obs.matched.value))
       && ord in watched {
      var w := obs.matched.value;
      if ord in confirmed {
        SentStill(0, log, log', ord);
      } else if w in confirmed {
        SentStill(0, log, log', w);
      } else if DoneSince(events[n], side, ord, |log|, log') {
        if SentSince(|log|, log', ord) {
          SentEarlier(|log|, log', ord);
        } else {
          SentEarlier(|log|, log', w);
        }
      } else {
        var p :| p in buys && MatchedBy(events[n], Buy, p, ord, depthLimit, |log|, log');
      }
    }
  }

  class Confirmer {
    const depthLimit: nat
    var store: Store
    var confirmingBuy: set<OrderId>
    var confirmingSell: set<OrderId>
    var confirmed: map<OrderId, Time>
    var now: Time
    /** The event being handled. */
    ghost var event: nat
    ghost var log: seq<Emission>

    ghost predicate Valid()
      reads this
    {
      Keyed(store) && Sound(log, confirmed, now)
    }

    ghost function Watching(parity: Parity): set<OrderId>
      reads this
    {
      if parity == Buy then confirmingBuy else confirmingSell
    }

    constructor (depthLimit: nat, store: Store, now: Time)
      requires Keyed(store)
      ensures Valid() && log == [] && this.depthLimit == depthLimit && this.store == store
      ensures confirmingBuy == {} && confirmingSell == {} && confirmed == map[]
    {
      this.depthLimit := depthLimit;
      this.store := store;
      this.now := now;
      event := 0;
      confirmingBuy, confirmingSell, confirmed, log := {}, {}, map[], [];
    }

    /** Every interleaving of the two goroutines: confirmations that share an
        order are more than an hour apart, and each one rests on an observation
        made in the very poll that passed it on. A match that is taken up stays
        watched until a poll settles it, and is passed on by the first poll that
        sees it final with its computation stored. */
    method Confirm(events: seq<Event>)
      requires Valid() && log == [] && confirmed == map[] && forall n :: 0 <= n < |events| ==> Orderly(events[n])
      modifies this
      ensures Valid() && Spaced(log)
      ensures forall i :: 0 <= i < |log| ==> Backed(log[i], events, depthLimit)
      ensures AllWatched(events, |events|, confirmingBuy, confirmingSell, depthLimit)
      ensures AllPassedOn(events, |events|, depthLimit, log)
    {
      hide Spaced, Justified, Keyed, Seen, AllWatched, AllPassedOn, SentSince, MatchedAway, Due, DoneSince, Shallow, NoStops, Orderly;
      NothingWatched(events, confirmingBuy, confirmingSell, depthLimit, log);
      for n := 0 to |events|
        invariant Valid()
        invariant forall i :: 0 <= i < |log| ==> log[i].event < n && Backed(log[i], events, depthLimit)
        invariant forall id :: id in confirmed ==> SentSince(0, log, id)
        invariant AllWatched(events, n, confirmingBuy, confirmingSell, depthLimit) && AllPassedOn(events, n, depthLimit, log)
      {
        event := n;
        ghost var before, buys, sells, known := log, confirmingBuy, confirmingSell, confirmed;
        match events[n] {
          case Submitted(com, seen) =>
            Submit(com, seen);
            SubmittedStep(events, n, depthLimit, buys, confirmingBuy, sells, confirmingSell);
            SubmittedPasses(events, n, depthLimit, log);
          case Polled(_, _, _) =>
            Poll(events[n]);
            PolledStep(events, n, depthLimit, before, log, buys, confirmingBuy, sells, confirmingSell, known, confirmed);
        }
      }
    }

    /** The submitting goroutine: watches a match unless one of its orders was
        passed on already. */
    method Submit(com: Computation, seen: map<OrderId, Time>)
      requires Valid()
      modifies `confirmingBuy, `confirmingSell
      ensures Valid()
      ensures com.buy in seen || com.sell in seen ==> confirmingBuy == old(confirmingBuy) && confirmingSell == old(confirmingSell)
      ensures com.buy !in seen && com.sell !in seen ==>
                confirmingBuy == old(confirmingBuy) + {com.buy} && confirmingSell == old(confirmingSell) + {com.sell}
    {
      hide Sound, Keyed;
      if com.buy in seen || com.sell in seen {
        return;
      }
      confirmingBuy := confirmingBuy + {com.buy};
      confirmingSell := confirmingSell + {com.sell};
    }

    /** The polling goroutine, under the lock: both sides, then the cleanup.
        Every emission it makes rests on an observation made in this poll of an
        order that was being watched, and nothing starts being watched. An order
        goes on being watched unless it was seen deep or was matched with one
        that was. Unless it is stopped, every order that is due is passed on. */
    method Poll(polled: Event)
      requires Valid() && polled.Polled? && Orderly(polled)
      modifies `store, `confirmingBuy, `confirmingSell, `confirmed, `now, `log
      ensures Valid() && old(log) <= log && now >= old(now)
      ensures forall i :: |old(log)| <= i < |log| ==>
                && log[i].time >= old(now) && log[i].event == old(event)
                && Justified(log[i], Seen(polled, log[i].parity, log[i].observed), depthLimit)
                && log[i].observed in (if log[i].parity == Buy then old(confirmingBuy) else old(confirmingSell))
      ensures confirmingBuy <= old(confirmingBuy) && confirmingSell <= old(confirmingSell)
      ensures forall id :: id in confirmed ==> id in old(confirmed) || SentSince(|old(log)|, log, id)
      ensures forall id :: id in old(confirmed) ==>
                && (old(confirmed)[id] + HOUR < old(now) ==> id !in confirmed)
                && (old(confirmed)[id] + HOUR >= now ==> id in confirmed && confirmed[id] == old(confirmed)[id])
      ensures forall o :: o in old(confirmingBuy) && o !in confirmingBuy ==>
                !Shallow(Seen(polled, Buy, o), depthLimit) || MatchedAway(polled, Sell, old(confirmingSell), o, depthLimit, |old(log)|, log)
      ensures forall o :: o in old(confirmingSell) && o !in confirmingSell ==>
                !Shallow(Seen(polled, Sell, o), depthLimit) || MatchedAway(polled, Buy, old(confirmingBuy), o, depthLimit, |old(log)|, log)
      ensures NoStops(polled) ==>
                forall o :: o in old(confirmingBuy) && Due(polled, Buy, o, depthLimit, old(confirmed)) ==>
                  DoneSince(polled, Buy, o, |old(log)|, log)
      ensures NoStops(polled) ==>
                forall o :: o in old(confirmingSell) && Due(polled, Sell, o, depthLimit, old(confirmed)) ==>
                  DoneSince(polled, Sell, o, |old(log)|, log) || MatchedAway(polled, Buy, old(confirmingBuy), o, depthLimit, |old(log)|, log)
    {
      hide Sound, Keyed, Justified, Seen, Shallow, MatchedAway, Due, DoneSince, SentSince, Orderly, NoStops;
      ghost var n, early := |log|, confirmed;
      assert Watching(Buy) == confirmingBuy && Watching(Other(Buy)) == confirmingSell;
      CheckOrders(Buy, polled, n, early);
      ghost var middle, buys, sells := log, confirmingBuy, confirmingSell;
      assert Watching(Buy) == buys && Watching(Other(Buy)) == sells && Watching(Sell) == sells && Watching(Other(Sell)) == buys;
      CheckOrders(Sell, polled, n, early);
      assert Watching(Sell) == confirmingSell && Watching(Other(Sell)) == confirmingBuy;
      forall o | o in old(confirmingSell) && o !in sells
        ensures MatchedAway(polled, Buy, old(confirmingBuy), o, depthLimit, n, log)
      {
        MatchedStill(polled, Buy, old(confirmingBuy), o, depthLimit, n, middle, log);
      }
      forall o | o in old(confirmingBuy) && Due(polled, Buy, o, depthLimit, early) && DoneSince(polled, Buy, o, n, middle)
        ensures DoneSince(polled, Buy, o, n, log)
      {
        DoneStill(polled, Buy, o, n, middle, log);
      }
      forall o | MatchedAway(polled, Sell, sells, o, depthLimit, n, log)
        ensures MatchedAway(polled, Sell, old(confirmingSell), o, depthLimit, n, log)
      {
        MatchedMore(polled, Sell, sells, old(confirmingSell), o, depthLimit, n, log);
      }
      Forget();
    }

    /** Goes through the watched orders of one side in any order, until it is told
        to stop. Orders deleted on the way are not visited. The poll began with
        the first emissions logged and the early orders remembered. */
    method CheckOrders(parity: Parity, polled: Event, ghost first: nat, ghost early: map<OrderId, Time>)
      requires Valid() && polled.Polled? && Orderly(polled) && first <= |log|
      requires forall id :: id in confirmed ==> id in early || SentSince(first, log, id)
      modifies `store, `confirmingBuy, `confirmingSell, `confirmed, `now, `log
      ensures Valid() && old(log) <= log && now >= old(now)
      ensures forall i :: |old(log)| <= i < |log| ==>
                && log[i].time >= old(now) && log[i].event == old(event) && log[i].parity == parity
                && Justified(log[i], Seen(polled, parity, log[i].observed), depthLimit)
                && log[i].observed in old(Watching(parity))
      ensures confirmingBuy <= old(confirmingBuy) && confirmingSell <= old(confirmingSell)
      ensures Retained(old(confirmed), confirmed)
      ensures forall id :: id in confirmed ==> id in early || SentSince(first, log, id)
      ensures forall o :: o in old(Watching(parity)) && o !in Watching(parity) ==> !Shallow(Seen(polled, parity, o), depthLimit)
      ensures forall o :: o in old(Watching(Other(parity))) && o !in Watching(Other(parity)) ==>
                MatchedAway(polled, parity, old(Watching(parity)), o, depthLimit, first, log)
      ensures NoStops(polled) ==>
                forall o :: o in old(Watching(parity)) && Due(polled, parity, o, depthLimit, early) ==> DoneSince(polled, parity, o, first, log)
    {
      hide Sound, Keyed, Justified, Seen, Shallow, MatchedAway, Due, DoneSince, SentSince, Orderly, NoStops;
      var rest := if parity == Buy then confirmingBuy else confirmingSell;
      while rest != {}
        invariant Valid() && old(log) <= log && now >= old(now) && first <= |log| && Retained(old(confirmed), confirmed)
        invariant rest <= old(Watching(parity)) && rest <= Watching(parity)
        invariant forall i :: |old(log)| <= i < |log| ==>
                    && log[i].time >= old(now) && log[i].event == old(event) && log[i].parity == parity
                    && Justified(log[i], Seen(polled, parity, log[i].observed), depthLimit)
                    && log[i].observed in old(Watching(parity))
        invariant confirmingBuy <= old(confirmingBuy) && confirmingSell <= old(confirmingSell)
        invariant forall id :: id in confirmed ==> id in early || SentSince(first, log, id)
        invariant forall o :: o in old(Watching(parity)) && o !in Watching(parity) ==> !Shallow(Seen(polled, parity, o), depthLimit)
        invariant forall o :: o in old(Watching(Other(parity))) && o !in Watching(Other(parity)) ==>
                    MatchedAway(polled, parity, old(Watching(parity)), o, depthLimit, first, log)
        invariant NoStops(polled) ==>
                    forall o :: o in old(Watching(parity)) && o !in rest && Due(polled, parity, o, depthLimit, early) ==>
                      DoneSince(polled, parity, o, first, log)
        decreases rest
      {
        var ord :| ord in rest;
        rest := rest - {ord};
        ghost var before, watched, others, known := log, Watching(parity), Watching(Other(parity)), confirmed;
        OrderlyAt(polled, parity, ord);
        var stopped := CheckOrder(parity, ord, Seen(polled, parity, ord), polled.moments(parity, ord));
        Checked(polled, parity, ord, depthLimit, first, early, before, log, watched, Watching(parity), others, Watching(Other(parity)),
                known, confirmed, old(Watching(parity)), stopped);
        forall o | o in old(Watching(Other(parity))) && o !in others
          ensures MatchedAway(polled, parity, old(Watching(parity)), o, depthLimit, first, log)
        {
          MatchedStill(polled, parity, old(Watching(parity)), o, depthLimit, first, before, log);
        }
        forall o | o in old(Watching(parity)) && o !in rest && o != ord && DoneSince(polled, parity, o, first, before)
          ensures DoneSince(polled, parity, o, first, log)
        {
          DoneStill(polled, parity, o, first, before, log);
        }
        NoStopAt(polled, parity, ord);
        if stopped {
          return;
        }
      }
    }

    /** What happened to one watched order, in terms of what was seen. */
    ghost predicate Outcome(parity: Parity, ord: OrderId, obs: Observation, at: Moment, stopped: bool,
                            log0: seq<Emission>, buys0: set<OrderId>, sells0: set<OrderId>, confirmed0: map<OrderId, Time>)
      reads this
    {
      Handled(parity, ord, obs, at, depthLimit, stopped, log0, log, buys0, confirmingBuy, sells0, confirmingSell, confirmed0, confirmed)
    }

    /** One watched order: left alone while shallow or after a failed call, purged
        when it is not confirmed, dropped with its match when their computation is
        unknown, else passed on unless one of the two was passed on in the last
        hour. The confirmer may be stopped wherever it has something to send. */
    method CheckOrder(parity: Parity, ord: OrderId, obs: Observation, at: Moment) returns (stopped: bool)
      requires Valid() && ord in Watching(parity) && Keyed(at.store)
      modifies `store, `confirmingBuy, `confirmingSell, `confirmed, `now, `log
      ensures Valid() && now >= old(now)
      ensures Outcome(parity, ord, obs, at, stopped, old(log), old(confirmingBuy), old(confirmingSell), old(confirmed))
      ensures Retained(old(confirmed), confirmed)
      ensures Shallow(obs, depthLimit) || obs.status.value != Confirmed ==> store == old(store)
      ensures !Shallow(obs, depthLimit) && obs.status.value == Confirmed ==>
                store == Accepted(at, PairOf(parity, ord, obs.matched.value))
      ensures forall i :: |old(log)| <= i < |log| ==>
                && Justified(log[i], obs, depthLimit) && log[i].observed == ord && log[i].parity == parity
                && log[i].time >= old(now) && log[i].event == event
    {
      hide Sound, SentSince;
      if obs.depth.None? {
        return at.stop;
      }
      if obs.depth.value < depthLimit {
        return false;
      }
      if obs.status.None? {
        return at.stop;
      }
      if obs.status.value != Confirmed {
        if parity == Buy {
          confirmingBuy := confirmingBuy - {ord};
        } else {
          confirmingSell := confirmingSell - {ord};
        }
        return false;
      }
      if obs.matched.None? {
        return at.stop;
      }
      stopped := PassOn(parity, ord, obs, at);
    }

    /** A final order: its computation is marked as accepted and passed on. */
    method PassOn(parity: Parity, ord: OrderId, obs: Observation, at: Moment) returns (stopped: bool)
      requires Valid() && ord in Watching(parity) && Keyed(at.store) && Final(obs, depthLimit) && obs.matched.Some?
      modifies `store, `confirmingBuy, `confirmingSell, `confirmed, `now, `log
      ensures Valid() && now >= old(now)
      ensures Outcome(parity, ord, obs, at, stopped, old(log), old(confirmingBuy), old(confirmingSell), old(confirmed))
      ensures Retained(old(confirmed), confirmed)
      ensures store == Accepted(at, PairOf(parity, ord, obs.matched.value))
      ensures forall i :: |old(log)| <= i < |log| ==>
                && Justified(log[i], obs, depthLimit) && log[i].observed == ord && log[i].parity == parity
                && log[i].time >= old(now) && log[i].event == event
    {
      hide Sound, SentSince;
      var other := obs.matched.value;
      store := at.store;
      var com := FromOrders(store, parity, ord, other);
      FromOrdersIs(store, parity, ord, other);
      if com.None? {
        if at.stop {
          return true;
        }
        confirmingBuy := confirmingBuy - {if parity == Buy then ord else other};
        confirmingSell := confirmingSell - {if parity == Buy then other else ord};
        return false;
      }
      if at.refused {
        if at.stop {
          return true;
        }
      } else {
        store := store[com.value.id := com.value];
      }
      if com.value.buy in confirmed || com.value.sell in confirmed {
        return false;
      }
      if at.stop {
        return true;
      }
      Emit(com.value, ord, parity);
      return false;
    }

    /** Sends the confirmation, stops watching its orders and remembers them. */
    method Emit(com: Computation, ord: OrderId, parity: Parity)
      requires Valid() && com.buy !in confirmed && com.sell !in confirmed
      modifies `confirmingBuy, `confirmingSell, `confirmed, `now, `log
      ensures Valid() && now >= old(now) && |log| == |old(log)| + 1 && old(log) <= log
      ensures log[|old(log)|].com == com && log[|old(log)|].observed == ord && log[|old(log)|].parity == parity
      ensures log[|old(log)|].time >= old(now) && log[|old(log)|].event == event
      ensures confirmingBuy == old(confirmingBuy) - {com.buy} && confirmingSell == old(confirmingSell) - {com.sell}
      ensures confirmed.Keys == old(confirmed).Keys + {com.buy, com.sell} && Retained(old(confirmed), confirmed)
    {
      hide Sound, Keyed;
      var sent := Now();
      ghost var e := Emission(com, sent, event, ord, parity);
      confirmingBuy := confirmingBuy - {com.buy};
      confirmingSell := confirmingSell - {com.sell};
      var t1: Time :| now <= t1;
      var t2: Time :| t1 <= t2;
      EmitSound(log, confirmed, e, t1, t2);
      confirmed := confirmed[com.buy := t1][com.sell := t2];
      now := t2;
      log := log + [e];
    }

    /** Forgets orders passed on more than an hour ago, and only those. */
    method Forget()
      requires Valid()
      modifies `confirmed, `now
      ensures Valid() && now >= old(now)
      ensures confirmed.Keys <= old(confirmed).Keys
      ensures forall id: OrderId :: id in old(confirmed) && old(confirmed)[id] + HOUR >= now ==> id in confirmed
      ensures forall id: OrderId :: id in confirmed ==> confirmed[id] == old(confirmed)[id] && confirmed[id] + HOUR >= old(now)
    {
      hide Sound, Keyed;
      var rest := confirmed.Keys;
      while rest != {}
        invariant Valid() && now >= old(now) && confirmed.Keys <= old(confirmed).Keys
        invariant forall id: OrderId :: id in confirmed ==> confirmed[id] == old(confirmed)[id]
        invariant forall id: OrderId :: id in confirmed && id !in rest ==> confirmed[id] + HOUR >= old(now)
        invariant forall id: OrderId :: id in old(confirmed) && old(confirmed)[id] + HOUR >= now ==> id in confirmed
        decreases rest
      {
        var key :| key in rest;
        rest := rest - {key};
        var t := Now();
        if key in confirmed && t - confirmed[key] > HOUR {
          ForgetSound(log, confirmed, now, key);
          confirmed := confirmed - {key};
        }
      }
    }

    /** Reads the clock, which never goes back. */
    method Now() returns (t: Time)
      requires Valid()
      modifies `now
      ensures Valid() && t == now >= old(now)
    {
      hide Sound, Keyed;
      t :| t >= now;
      LaterSound(log, confirmed, now, t);
      now := t;
    }
  }
}
