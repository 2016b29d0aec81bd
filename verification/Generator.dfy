/** Pairing buy and sell order fragments into computations as orders open and
    close, in one matrix for the current epoch and one for the epoch before. */
module Generation {
  import opened Options
  import opened Sides

  type OrderId = nat
  type Trader = nat
  type Epoch = nat

  datatype Fragment = Fragment(order: OrderId, parity: Parity, depth: nat, shares: seq<nat>)

  datatype Notification =
    | OpenOrder(fragment: Fragment, trader: Trader)
    | ConfirmOrder(id: OrderId)
    | CancelOrder(id: OrderId)
    | Unexpected

  datatype Stored = Stored(fragment: Fragment, trader: Trader)

  datatype Computation = Computation(epoch: Epoch, buy: Fragment, sell: Fragment)

  /** A computation sent by a matrix while it handled its notification number at. */
  datatype Entry = Entry(at: nat, com: Computation)

  type Rows = map<OrderId, Stored>

  /** Both fragments of a pair, the buy first whichever opened last. */
  function NewComputation(epoch: Epoch, newest: Fragment, other: Fragment): Computation
  {
    if newest.parity == Buy then Computation(epoch, newest, other) else Computation(epoch, other, newest)
  }

  function Opposite(parity: Parity): Parity
  {
    if parity == Buy then Sell else Buy
  }

  predicate Closes(n: Notification, id: OrderId)
  {
    (n.ConfirmOrder? || n.CancelOrder?) && n.id == id
  }

  predicate Opens(n: Notification, parity: Parity, id: OrderId)
  {
    n.OpenOrder? && n.fragment.parity == parity && n.fragment.order == id
  }

  /** ---- What a history of notifications means, said with indices only ---- */

  /** Notification i opened an order that was neither closed nor opened again
      before notification j. */
  ghost predicate LiveAt(h: seq<Notification>, i: nat, j: nat)
  {
    && i < j <= |h| && h[i].OpenOrder?
    && (forall k :: i < k < j ==>
          !Closes(h[k], h[i].fragment.order) && !Opens(h[k], h[i].fragment.parity, h[i].fragment.order))
  }

  /** Notification j opened an order while the order of notification i was live,
      on the other side and of another trader. */
  ghost predicate Meets(h: seq<Notification>, i: nat, j: nat)
  {
    && i < j < |h| && h[i].OpenOrder? && h[j].OpenOrder? && LiveAt(h, i, j)
    && h[i].fragment.parity != h[j].fragment.parity && h[i].trader != h[j].trader
  }

  ghost predicate Owed(h: seq<Notification>, epoch: Epoch, entry: Entry)
  {
    exists i: nat :: Meets(h, i, entry.at) && entry.com == NewComputation(epoch, h[entry.at].fragment, h[i].fragment)
  }

  /** No order opens twice. */
  ghost predicate OpensOnce(h: seq<Notification>)
  {
    forall i, j :: 0 <= i < j < |h| && h[i].OpenOrder? && h[j].OpenOrder? ==> h[i].fragment.order != h[j].fragment.order
  }

  /** ---- What the matrix computes, one notification at a time ---- */

  function Live(h: seq<Notification>, parity: Parity): (rows: Rows)
  {
    if h == [] then map[]
    else
      var rows := Live(h[..|h| - 1], parity);
      match h[|h| - 1]
      case OpenOrder(f, trader) => if f.parity == parity then rows[f.order := Stored(f, trader)] else rows
      case ConfirmOrder(id) => rows - {id}
      case CancelOrder(id) => rows - {id}
      case Unexpected => rows
  }

  /** Pairs the opened order with those among the given rows. */
  function FreshAmong(rows: Rows, ids: set<OrderId>, epoch: Epoch, at: nat, n: Notification): (entries: set<Entry>)
    requires n.OpenOrder? && ids <= rows.Keys
  {
    set id | id in ids && rows[id].trader != n.trader :: Entry(at, NewComputation(epoch, n.fragment, rows[id].fragment))
  }

  function Fresh(rows: Rows, epoch: Epoch, at: nat, n: Notification): (entries: set<Entry>)
    requires n.OpenOrder?
  {
    FreshAmong(rows, rows.Keys, epoch, at, n)
  }

  predicate Holds(rows: Rows, f: Fragment)
  {
    f.order in rows && rows[f.order].fragment == f
  }

  /** Each entry pairs the opened order with one that the rows hold. */
  lemma FreshParts(rows: Rows, epoch: Epoch, at: nat, n: Notification, entry: Entry)
    requires n.OpenOrder? && entry in Fresh(rows, epoch, at, n)
    requires forall k :: k in rows ==> rows[k].fragment.order == k && rows[k].fragment.parity != n.fragment.parity
    ensures entry.at == at && entry.com.epoch == epoch
    ensures n.fragment.parity == Buy ==> entry.com.buy == n.fragment && Holds(rows, entry.com.sell)
    ensures n.fragment.parity == Sell ==> entry.com.sell == n.fragment && Holds(rows, entry.com.buy)
  {
  }

  /** One more row adds one entry, and not one that was there. */
  lemma FreshStep(rows: Rows, ids: set<OrderId>, id: OrderId, epoch: Epoch, at: nat, n: Notification)
    requires n.OpenOrder? && ids <= rows.Keys && id in rows && id !in ids
    requires forall k :: k in rows ==> rows[k].fragment.order == k && rows[k].fragment.parity != n.fragment.parity
    ensures var entry := Entry(at, NewComputation(epoch, n.fragment, rows[id].fragment));
            && entry !in FreshAmong(rows, ids, epoch, at, n)
            && FreshAmong(rows, ids + {id}, epoch, at, n) ==
               FreshAmong(rows, ids, epoch, at, n) + if rows[id].trader != n.trader then {entry} else {}
  {
  }

  function Emitted(h: seq<Notification>, epoch: Epoch): (entries: set<Entry>)
  {
    if h == [] then {}
    else
      var past, n := h[..|h| - 1], h[|h| - 1];
      Emitted(past, epoch) +
      if n.OpenOrder? then Fresh(Live(past, Opposite(n.fragment.parity)), epoch, |past|, n) else {}
  }

  lemma {:induction false} LiveKeyed(h: seq<Notification>, parity: Parity)
    ensures forall id :: id in Live(h, parity) ==>
              Live(h, parity)[id].fragment.order == id && Live(h, parity)[id].fragment.parity == parity
  {
    if h != [] {
      LiveKeyed(h[..|h| - 1], parity);
    }
  }

  /** The rows of a side are the live orders of that side. */
  lemma {:induction false} LiveIsLiveAt(h: seq<Notification>, parity: Parity, id: OrderId) returns (i: nat)
    requires id in Live(h, parity)
    ensures LiveAt(h, i, |h|) && Opens(h[i], parity, id)
    ensures Live(h, parity)[id] == Stored(h[i].fragment, h[i].trader)
  {
    var past, n := h[..|h| - 1], h[|h| - 1];
    if Opens(n, parity, id) {
      i := |h| - 1;
    } else {
      i := LiveIsLiveAt(past, parity, id);
      assert h[i] == past[i];
      forall k | i < k < |h|
        ensures !Closes(h[k], id) && !Opens(h[k], parity, id)
      {
        assert k < |past| ==> h[k] == past[k];
      }
    }
  }

  lemma {:induction false} LiveAtIsLive(h: seq<Notification>, i: nat)
    requires LiveAt(h, i, |h|)
    ensures h[i].fragment.order in Live(h, h[i].fragment.parity)
    ensures Live(h, h[i].fragment.parity)[h[i].fragment.order] == Stored(h[i].fragment, h[i].trader)
  {
    if i < |h| - 1 {
      var past := h[..|h| - 1];
      assert past[i] == h[i];
      forall k | i < k < |past|
        ensures !Closes(past[k], h[i].fragment.order) && !Opens(past[k], h[i].fragment.parity, h[i].fragment.order)
      {
        assert past[k] == h[k];
      }
      LiveAtIsLive(past, i);
    }
  }

  lemma LiveAtPrefix(h: seq<Notification>, p: nat, i: nat, j: nat)
    requires j <= p <= |h|
    ensures LiveAt(h[..p], i, j) <==> LiveAt(h, i, j)
  {
    if i < j {
      assert forall k :: i <= k < j ==> h[..p][k] == h[k];
    }
  }

  lemma OwedPrefix(h: seq<Notification>, epoch: Epoch, p: nat, entry: Entry)
    requires entry.at < p <= |h|
    ensures Owed(h[..p], epoch, entry) <==> Owed(h, epoch, entry)
  {
    hide LiveAt;
    assert h[..p][entry.at] == h[entry.at];
    forall i: nat
      ensures Meets(h[..p], i, entry.at) <==> Meets(h, i, entry.at)
    {
      LiveAtPrefix(h, p, i, entry.at);
    }
    if Owed(h[..p], epoch, entry) {
      var i: nat :| Meets(h[..p], i, entry.at) && entry.com == NewComputation(epoch, h[..p][entry.at].fragment, h[..p][i].fragment);
      assert Meets(h, i, entry.at);
    }
    if Owed(h, epoch, entry) {
      var i: nat :| Meets(h, i, entry.at) && entry.com == NewComputation(epoch, h[entry.at].fragment, h[i].fragment);
      assert Meets(h[..p], i, entry.at);
    }
  }

  lemma LiveAtBefore(h: seq<Notification>, i: nat, j: nat)
    requires LiveAt(h, i, j)
    ensures i < j <= |h| && h[i].OpenOrder?
  {
  }

  /** The computations of a matrix are exactly the owed ones, for any history. */
  lemma {:induction false} EmittedIsOwed(h: seq<Notification>, epoch: Epoch, entry: Entry)
    ensures entry in Emitted(h, epoch) <==> Owed(h, epoch, entry)
  {
    if h != [] {
      var past, n := h[..|h| - 1], h[|h| - 1];
      EmittedIsOwed(past, epoch, entry);
      if entry.at < |past| {
        OwedPrefix(h, epoch, |past|, entry);
      } else {
        NotYetOwed(past, epoch, entry);
        if entry.at == |past| && n.OpenOrder? {
          FreshIsOwed(h, epoch, entry);
        }
      }
    }
  }

  lemma NotYetOwed(h: seq<Notification>, epoch: Epoch, entry: Entry)
    requires |h| <= entry.at
    ensures !Owed(h, epoch, entry)
  {
  }

  lemma FreshIsOwed(h: seq<Notification>, epoch: Epoch, entry: Entry)
    requires h != [] && h[|h| - 1].OpenOrder? && entry.at == |h| - 1
    ensures entry in Fresh(Live(h[..|h| - 1], Opposite(h[|h| - 1].fragment.parity)), epoch, |h| - 1, h[|h| - 1]) <==> Owed(h, epoch, entry)
  {
    hide LiveAt, Live;
    var past, n := h[..|h| - 1], h[|h| - 1];
    var parity := Opposite(n.fragment.parity);
    var rows := Live(past, parity);
    if entry in Fresh(rows, epoch, |past|, n) {
      var id :| id in rows && rows[id].trader != n.trader && entry == Entry(|past|, NewComputation(epoch, n.fragment, rows[id].fragment));
      var i := LiveIsLiveAt(past, parity, id);
      LiveAtPrefix(h, |past|, i, |past|);
      LiveAtBefore(past, i, |past|);
      assert past[i] == h[i];
      assert Meets(h, i, entry.at);
    }
    if Owed(h, epoch, entry) {
      var i: nat :| Meets(h, i, entry.at) && entry.com == NewComputation(epoch, h[entry.at].fragment, h[i].fragment);
      LiveAtPrefix(h, |past|, i, |past|);
      assert past[i] == h[i];
      LiveAtIsLive(past, i);
    }
  }

  /** When no order opens twice, a pair of orders gets one computation if the
      first was live when the second opened, on the other side and of another
      trader, and none otherwise. */
  lemma ExactlyOnce(h: seq<Notification>, epoch: Epoch, i: nat, j: nat)
    requires OpensOnce(h) && i < j < |h| && h[i].OpenOrder? && h[j].OpenOrder?
    ensures var com := NewComputation(epoch, h[j].fragment, h[i].fragment);
            && (Meets(h, i, j) <==> Entry(j, com) in Emitted(h, epoch))
            && (forall entry | entry in Emitted(h, epoch) ::
                  {entry.com.buy.order, entry.com.sell.order} == {h[i].fragment.order, h[j].fragment.order} ==>
                  entry == Entry(j, com))
  {
    var com := NewComputation(epoch, h[j].fragment, h[i].fragment);
    EmittedIsOwed(h, epoch, Entry(j, com));
    if Owed(h, epoch, Entry(j, com)) {
      var l: nat :| Meets(h, l, j) && com == NewComputation(epoch, h[j].fragment, h[l].fragment);
      assert l == i;
    }
    forall entry | entry in Emitted(h, epoch) &&
      {entry.com.buy.order, entry.com.sell.order} == {h[i].fragment.order, h[j].fragment.order}
      ensures entry == Entry(j, com)
    {
      SamePair(h, epoch, i, j, entry);
    }
  }

  lemma SamePair(h: seq<Notification>, epoch: Epoch, i: nat, j: nat, entry: Entry)
    requires OpensOnce(h) && i < j < |h| && h[i].OpenOrder? && h[j].OpenOrder?
    requires entry in Emitted(h, epoch)
    requires {entry.com.buy.order, entry.com.sell.order} == {h[i].fragment.order, h[j].fragment.order}
    ensures entry == Entry(j, NewComputation(epoch, h[j].fragment, h[i].fragment))
  {
    EmittedIsOwed(h, epoch, entry);
    var m := entry.at;
    var l: nat :| Meets(h, l, m) && entry.com == NewComputation(epoch, h[m].fragment, h[l].fragment);
    var a, b, c, d := h[i].fragment.order, h[j].fragment.order, h[l].fragment.order, h[m].fragment.order;
    assert {a, b} == {c, d};
    assert a in {c, d} && b in {c, d};
    assert l == i && m == j;
  }

  /** ---- The generator ---- */

  datatype Event = ChangeEpoch(epoch: Epoch) | Notify(n: Notification)

  function Current(events: seq<Event>): (epoch: Option<Epoch>)
  {
    if events == [] then None
    else if events[|events| - 1].ChangeEpoch? then Some(events[|events| - 1].epoch)
    else Current(events[..|events| - 1])
  }

  function Previous(events: seq<Event>): (epoch: Option<Epoch>)
  {
    if events == [] then None
    else if events[|events| - 1].ChangeEpoch? then Current(events[..|events| - 1])
    else Previous(events[..|events| - 1])
  }

  /** Opening an order concerns the matrix of its depth; everything else
      concerns both. */
  predicate Concerns(n: Notification, depth: nat)
  {
    !n.OpenOrder? || n.fragment.depth == depth
  }

  /** What the matrices of one epoch are told. */
  function Delivered(events: seq<Event>, epoch: Epoch): (h: seq<Notification>)
  {
    if events == [] then []
    else
      var past, event := events[..|events| - 1], events[|events| - 1];
      if event.ChangeEpoch? then Delivered(past, epoch)
      else
        Delivered(past, epoch)
        + (if Current(past) == Some(epoch) && Concerns(event.n, 0) then [event.n] else [])
        + (if Previous(past) == Some(epoch) && Concerns(event.n, 1) then [event.n] else [])
  }

  /** Who hears of a notification, field by field: an opening reaches the matrix
      of its depth alone, a closing both. */
  lemma DeliveredByField(events: seq<Event>, n: Notification, epoch: Epoch)
    ensures
      var h, h' := Delivered(events, epoch), Delivered(events + [Notify(n)], epoch);
      var toCurrent, toPrevious := if Current(events) == Some(epoch) then [n] else [], if Previous(events) == Some(epoch) then [n] else [];
      match n
      case OpenOrder(f, _) => h' == h + (if f.depth == 0 then toCurrent else if f.depth == 1 then toPrevious else [])
      case _ => h' == h + toCurrent + toPrevious
  {
    var all := events + [Notify(n)];
    assert all[..|all| - 1] == events;
  }

  ghost predicate OpensAmong(events: seq<Event>, id: OrderId)
  {
    exists k :: 0 <= k < |events| && events[k].Notify? && events[k].n.OpenOrder? && events[k].n.fragment.order == id
  }

  /** No order opens twice in the whole run. */
  ghost predicate RunOpensOnce(events: seq<Event>)
  {
    forall k :: 0 <= k < |events| && events[k].Notify? && events[k].n.OpenOrder? ==>
      !OpensAmong(events[..k], events[k].n.fragment.order)
  }

  /** A matrix hears of an opening only if it happened, and of no opening twice
      when no order opens twice in the run, so ExactlyOnce applies to it. */
  lemma {:induction false} DeliveredOnce(events: seq<Event>, epoch: Epoch)
    ensures forall k :: 0 <= k < |Delivered(events, epoch)| && Delivered(events, epoch)[k].OpenOrder? ==>
              OpensAmong(events, Delivered(events, epoch)[k].fragment.order)
    ensures RunOpensOnce(events) ==> OpensOnce(Delivered(events, epoch))
  {
    if events != [] {
      var past, event := events[..|events| - 1], events[|events| - 1];
      var h, h' := Delivered(past, epoch), Delivered(events, epoch);
      DeliveredOnce(past, epoch);
      if RunOpensOnce(events) {
        assert forall k :: 0 <= k < |past| ==> past[..k] == events[..k] && past[k] == events[k];
        assert RunOpensOnce(past);
      }
      assert h <= h' && (forall k :: |h| <= k < |h'| ==> event == Notify(h'[k]));
      forall k | 0 <= k < |h'| && h'[k].OpenOrder?
        ensures OpensAmong(events, h'[k].fragment.order)
      {
        if k < |h| {
          var l :| 0 <= l < |past| && past[l].Notify? && past[l].n.OpenOrder? && past[l].n.fragment.order == h[k].fragment.order;
          assert events[l] == past[l];
        } else {
          assert events[|past|] == Notify(h'[k]);
        }
      }
      if event.Notify? && event.n.OpenOrder? {
        assert |h'| <= |h| + 1;
      }
    }
  }

  ghost function Hist(hist: map<Epoch, seq<Notification>>, epoch: Epoch): seq<Notification>
  {
    if epoch in hist then hist[epoch] else []
  }

  function Row(table: map<Epoch, Rows>, epoch: Epoch): Rows
  {
    if epoch in table then table[epoch] else map[]
  }

  ghost predicate NoDuplicates(log: seq<Entry>)
  {
    forall i, j :: 0 <= i < j < |log| ==> log[i] != log[j]
  }

  /** The tables hold the live orders of every epoch. */
  ghost predicate Tabled(buys: map<Epoch, Rows>, sells: map<Epoch, Rows>, hist: map<Epoch, seq<Notification>>)
  {
    forall e: Epoch :: Row(buys, e) == Live(Hist(hist, e), Buy) && Row(sells, e) == Live(Hist(hist, e), Sell)
  }

  /** What was sent, each entry once, is what every epoch's history calls for. */
  ghost predicate Logged(log: seq<Entry>, hist: map<Epoch, seq<Notification>>)
  {
    && NoDuplicates(log)
    && (forall entry: Entry :: entry in log <==> entry in Emitted(Hist(hist, entry.com.epoch), entry.com.epoch))
  }

  /** A step of one matrix changes only the rows of its epoch. */
  lemma TabledStep(buys: map<Epoch, Rows>, sells: map<Epoch, Rows>, buys': map<Epoch, Rows>, sells': map<Epoch, Rows>,
                   hist: map<Epoch, seq<Notification>>, epoch: Epoch, n: Notification)
    requires Tabled(buys, sells, hist)
    requires forall e: Epoch :: e != epoch ==> Row(buys', e) == Row(buys, e)
    requires forall e: Epoch :: e != epoch ==> Row(sells', e) == Row(sells, e)
    requires Row(buys', epoch) == Live(Hist(hist, epoch) + [n], Buy)
    requires Row(sells', epoch) == Live(Hist(hist, epoch) + [n], Sell)
    ensures Tabled(buys', sells', hist[epoch := Hist(hist, epoch) + [n]])
  {
    hide Live;
    var hist' := hist[epoch := Hist(hist, epoch) + [n]];
    forall e: Epoch
      ensures Row(buys', e) == Live(Hist(hist', e), Buy) && Row(sells', e) == Live(Hist(hist', e), Sell)
    {
      assert Row(buys, e) == Live(Hist(hist, e), Buy) && Row(sells, e) == Live(Hist(hist, e), Sell);
    }
  }

  lemma TabledRows(buys: map<Epoch, Rows>, sells: map<Epoch, Rows>, hist: map<Epoch, seq<Notification>>, e: Epoch)
    requires Tabled(buys, sells, hist)
    ensures Row(buys, e) == Live(Hist(hist, e), Buy) && Row(sells, e) == Live(Hist(hist, e), Sell)
  {
  }

  /** The histories grow at the end. */
  lemma LastStep(h: seq<Notification>, n: Notification, epoch: Epoch)
    ensures (h + [n])[..|h + [n]| - 1] == h && (h + [n])[|h + [n]| - 1] == n
    ensures !n.OpenOrder? ==> Emitted(h + [n], epoch) == Emitted(h, epoch)
    ensures n.OpenOrder? ==>
              Emitted(h + [n], epoch) == Emitted(h, epoch) + Fresh(Live(h, Opposite(n.fragment.parity)), epoch, |h|, n)
  {
    assert (h + [n])[..|h + [n]| - 1] == h;
  }

  lemma LoggedMeans(log: seq<Entry>, hist: map<Epoch, seq<Notification>>)
    requires Logged(log, hist)
    ensures NoDuplicates(log)
    ensures forall entry: Entry :: (entry in log <==> Owed(Hist(hist, entry.com.epoch), entry.com.epoch, entry))
  {
    forall entry: Entry
      ensures entry in log <==> Owed(Hist(hist, entry.com.epoch), entry.com.epoch, entry)
    {
      EmittedIsOwed(Hist(hist, entry.com.epoch), entry.com.epoch, entry);
    }
  }

  lemma LoggedStep(log: seq<Entry>, sent: seq<Entry>, hist: map<Epoch, seq<Notification>>, epoch: Epoch, n: Notification)
    requires Logged(log, hist) && NoDuplicates(sent)
    requires forall entry :: entry in sent ==> entry.at == |Hist(hist, epoch)|
    requires forall entry :: entry in sent ==> entry.com.epoch == epoch
    requires Emitted(Hist(hist, epoch) + [n], epoch) == Emitted(Hist(hist, epoch), epoch) + (set entry | entry in sent)
    ensures Logged(log + sent, hist[epoch := Hist(hist, epoch) + [n]])
  {
    hide Emitted;
    var hist', log' := hist[epoch := Hist(hist, epoch) + [n]], log + sent;
    forall entry: Entry
      ensures entry in log' <==> entry in Emitted(Hist(hist', entry.com.epoch), entry.com.epoch)
    {
      assert entry in log <==> entry in Emitted(Hist(hist, entry.com.epoch), entry.com.epoch);
    }
    forall i, j | 0 <= i < j < |log'|
      ensures log'[i] != log'[j]
    {
      if i < |log| <= j {
        var entry := log[i];
        assert log'[i] == entry && entry in log && log'[j] == sent[j - |log|];
        if entry.com.epoch == epoch {
          EmittedIsOwed(Hist(hist, epoch), epoch, entry);
          if entry.at >= |Hist(hist, epoch)| {
            NotYetOwed(Hist(hist, epoch), epoch, entry);
          }
        }
      }
    }
  }

  class Generator {
    var current: Option<Epoch>
    var previous: Option<Epoch>
    var buys: map<Epoch, Rows>
    var sells: map<Epoch, Rows>
    /** The computations sent, and what the matrices of each epoch were told. */
    ghost var log: seq<Entry>
    ghost var hist: map<Epoch, seq<Notification>>

    ghost predicate Valid()
      reads this
    {
      Tabled(buys, sells, hist) && Logged(log, hist)
    }

    constructor ()
      ensures Valid() && current == None && previous == None && log == [] && hist == map[]
    {
      current, previous, buys, sells, log, hist := None, None, map[], map[], [], map[];
    }

    /** Any sequence of epoch changes and notifications: the computations sent,
        each once, are for every epoch exactly the pairs its share of the
        notifications calls for. */
    method Generate(events: seq<Event>)
      requires Valid() && current == None && previous == None && hist == map[]
      modifies this
      ensures Valid() && current == Current(events) && previous == Previous(events)
      ensures forall e: Epoch :: Hist(hist, e) == Delivered(events, e)
      ensures NoDuplicates(log)
      ensures forall entry: Entry :: entry in log <==> Owed(Delivered(events, entry.com.epoch), entry.com.epoch, entry)
    {
      hide Tabled, Logged, Owed, Concerns;
      for k := 0 to |events|
        invariant Valid() && current == Current(events[..k]) && previous == Previous(events[..k])
        invariant forall e: Epoch :: Hist(hist, e) == Delivered(events[..k], e)
      {
        assert events[..k + 1][..k] == events[..k] && events[..k + 1][k] == events[k];
        match events[k] {
          case ChangeEpoch(epoch) => OnChangeEpoch(epoch);
          case Notify(n) => RouteNotification(n);
        }
      }
      assert events[..|events|] == events;
      LoggedMeans(log, hist);
    }

    /** The current matrix becomes the previous one; the old previous one ends. */
    method OnChangeEpoch(epoch: Epoch)
      requires Valid()
      modifies `current, `previous
      ensures Valid() && current == Some(epoch) && previous == old(current)
    {
      previous := current;
      current := Some(epoch);
    }

    method RouteNotification(n: Notification)
      requires Valid()
      modifies `buys, `sells, `log, `hist
      ensures Valid() && old(log) <= log
      ensures forall e: Epoch :: Hist(hist, e) == old(Hist(hist, e))
                + (if current == Some(e) && Concerns(n, 0) then [n] else [])
                + (if previous == Some(e) && Concerns(n, 1) then [n] else [])
      ensures n.OpenOrder? && n.fragment.depth == 0 ==>
                forall e: Epoch :: Hist(hist, e) == old(Hist(hist, e)) + (if current == Some(e) then [n] else [])
      ensures n.OpenOrder? && n.fragment.depth == 1 ==>
                forall e: Epoch :: Hist(hist, e) == old(Hist(hist, e)) + (if previous == Some(e) then [n] else [])
      ensures n.OpenOrder? && n.fragment.depth > 1 ==> forall e: Epoch :: Hist(hist, e) == old(Hist(hist, e))
      ensures !n.OpenOrder? ==>
                forall e: Epoch :: Hist(hist, e) == old(Hist(hist, e)) + (if current == Some(e) then [n] else []) + (if previous == Some(e) then [n] else [])
    {
      hide Tabled, Logged;
      if current.Some? && (!n.OpenOrder? || n.fragment.depth == 0) {
        HandleNotification(current.value, n);
      }
      if previous.Some? && (!n.OpenOrder? || n.fragment.depth == 1) {
        HandleNotification(previous.value, n);
      }
    }

    method HandleNotification(epoch: Epoch, n: Notification)
      requires Valid()
      modifies `buys, `sells, `log, `hist
      ensures Valid() && old(log) <= log
      ensures hist == old(hist)[epoch := old(Hist(hist, epoch)) + [n]]
    {
      hide Logged;
      match n {
        case OpenOrder(_, _) => InsertOrderFragment(epoch, n);
        case ConfirmOrder(id) => RemoveOrderFragment(epoch, n, id);
        case CancelOrder(id) => RemoveOrderFragment(epoch, n, id);
        case Unexpected =>
          LastStep(Hist(hist, epoch), n, epoch);
          TabledStep(buys, sells, buys, sells, hist, epoch, n);
          LoggedStep(log, [], hist, epoch, n);
          assert log + [] == log;
          hist := hist[epoch := Hist(hist, epoch) + [n]];
      }
    }

    /** Stores the fragment and pairs it with every stored fragment of the other
        side, in any order, that belongs to another trader. */
    method InsertOrderFragment(epoch: Epoch, n: Notification)
      requires Valid() && n.OpenOrder?
      modifies `buys, `sells, `log, `hist
      ensures Valid() && old(log) <= log
      ensures hist == old(hist)[epoch := old(Hist(hist, epoch)) + [n]]
      ensures forall k :: |old(log)| <= k < |log| ==>
                log[k].com.epoch == epoch && Holds(Row(buys, epoch), log[k].com.buy) && Holds(Row(sells, epoch), log[k].com.sell)
    {
      hide Logged, Fresh, Tabled, Live, Emitted, Row;
      ghost var h, was := Hist(hist, epoch), log;
      var others := Put(epoch, n);
      Pair(epoch, n, others);
      ghost var sent := log[|was|..];
      assert log == was + sent;
      forall entry | entry in sent
        ensures entry.at == |h| && entry.com.epoch == epoch
        ensures Holds(Row(buys, epoch), entry.com.buy) && Holds(Row(sells, epoch), entry.com.sell)
      {
        assert entry in Fresh(others, epoch, |h|, n);
        FreshParts(others, epoch, |h|, n, entry);
      }
      assert forall k :: |was| <= k < |log| ==> log[k] in sent;
      LastStep(h, n, epoch);
      LoggedStep(was, sent, hist, epoch, n);
      hist := hist[epoch := Hist(hist, epoch) + [n]];
    }

    /** Stores the fragment and loads the other side. */
    method Put(epoch: Epoch, n: Notification) returns (others: Rows)
      requires Tabled(buys, sells, hist) && n.OpenOrder?
      modifies `buys, `sells
      ensures Tabled(buys, sells, hist[epoch := Hist(hist, epoch) + [n]])
      ensures others == Live(Hist(hist, epoch), Opposite(n.fragment.parity))
      ensures others == Row(if n.fragment.parity == Buy then sells else buys, epoch)
      ensures Holds(Row(if n.fragment.parity == Buy then buys else sells, epoch), n.fragment)
      ensures forall id :: id in others ==> others[id].fragment.order == id && others[id].fragment.parity != n.fragment.parity
    {
      hide Tabled, Emitted;
      ghost var h, buys0, sells0 := Hist(hist, epoch), buys, sells;
      LastStep(h, n, epoch);
      TabledRows(buys, sells, hist, epoch);
      if n.fragment.parity == Buy {
        buys := buys[epoch := Row(buys, epoch)[n.fragment.order := Stored(n.fragment, n.trader)]];
        others := Row(sells, epoch);
      } else {
        sells := sells[epoch := Row(sells, epoch)[n.fragment.order := Stored(n.fragment, n.trader)]];
        others := Row(buys, epoch);
      }
      TabledStep(buys0, sells0, buys, sells, hist, epoch, n);
      LiveKeyed(h, Opposite(n.fragment.parity));
    }

    /** Goes through the other side and sends a computation for each pair. */
    method Pair(epoch: Epoch, n: Notification, others: Rows)
      requires n.OpenOrder?
      requires forall id :: id in others ==> others[id].fragment.order == id && others[id].fragment.parity != n.fragment.parity
      modifies `log
      ensures old(log) <= log && NoDuplicates(log[|old(log)|..])
      ensures (set entry | entry in log[|old(log)|..]) == Fresh(others, epoch, |Hist(hist, epoch)|, n)
    {
      var rest := others.Keys;
      ghost var sent: seq<Entry>, at := [], |Hist(hist, epoch)|;
      while rest != {}
        invariant rest <= others.Keys && log == old(log) + sent && NoDuplicates(sent)
        invariant (set entry | entry in sent) == FreshAmong(others, others.Keys - rest, epoch, at, n)
        decreases rest
      {
        var id :| id in rest;
        FreshStep(others, others.Keys - rest, id, epoch, at, n);
        assert others.Keys - (rest - {id}) == others.Keys - rest + {id};
        rest := rest - {id};
        if others[id].trader != n.trader {
          var com := NewComputation(epoch, n.fragment, others[id].fragment);
          log, sent := log + [Entry(at, com)], sent + [Entry(at, com)];
        }
      }
      assert others.Keys - rest == others.Keys;
      assert log[|old(log)|..] == sent;
    }

    /** Drops an order from both sides. */
    method RemoveOrderFragment(epoch: Epoch, n: Notification, id: OrderId)
      requires Valid() && Closes(n, id)
      modifies `buys, `sells, `hist
      ensures Valid() && id !in Row(buys, epoch) && id !in Row(sells, epoch)
      ensures hist == old(hist)[epoch := old(Hist(hist, epoch)) + [n]]
    {
      hide Logged;
      ghost var buys0, sells0 := buys, sells;
      LastStep(Hist(hist, epoch), n, epoch);
      buys := buys[epoch := Row(buys, epoch) - {id}];
      sells := sells[epoch := Row(sells, epoch) - {id}];
      TabledStep(buys0, sells0, buys, sells, hist, epoch, n);
      LoggedStep(log, [], hist, epoch, n);
      assert log + [] == log;
      hist := hist[epoch := Hist(hist, epoch) + [n]];
    }
  }
}
