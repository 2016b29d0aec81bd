/** Collecting the joins of many nodes until enough shares are present, then
    reconstructing every value once. */
module Joining {
  import opened Options
  import opened Words
  import opened PrimeField
  import opened Lagrange
  import opened Shamir

  const MAX_JOIN_LENGTH: nat := 16

  /** The identifier of a computation followed by one stage byte. */
  datatype JoinId = JoinId(computation: nat, stage: nat)

  /** One share for each of several values, all held by the same node. */
  datatype Join = Join(id: JoinId, index: Word, shares: seq<Share>)

  /** A callback is known by the number of the call that supplied it. */
  type Callback = nat

  datatype Fired = Fired(callback: Callback, id: JoinId, values: seq<Word>)

  datatype JoinError = ErrJoinLengthUnequal | ErrJoinLengthExceedsMax

  datatype JoinSet = JoinSet(
    joins: map<Word, Join>,
    values: seq<Word>,
    valuesOk: bool,
    valuesLen: nat,
    callback: Option<Callback>)

  type JoinSets = map<JoinId, JoinSet>

  // ----- what an insertion does

  function EmptySet(len: nat): JoinSet
  {
    JoinSet(map[], seq(MAX_JOIN_LENGTH, _ => 0), false, len, None)
  }

  function Lookup(sets: JoinSets, join: Join): JoinSet
  {
    if join.id in sets then sets[join.id] else EmptySet(|join.shares|)
  }

  /** The set with the join recorded, unless its values are already known, and
      the callback replaced if asked. */
  function Recorded(js: JoinSet, join: Join, callback: Option<Callback>, override: bool): JoinSet
  {
    var js' := if js.valuesOk then js else js.(joins := js.joins[join.index := join]);
    if override then js'.(callback := callback) else js'
  }

  /** The i-th shares of the joins listed in order. */
  ghost function Column(joins: map<Word, Join>, order: seq<Word>, i: nat): (c: seq<Share>)
    requires forall x :: x in order ==> x in joins && i < |joins[x].shares|
    ensures |c| == |order|
  {
    seq(|order|, j requires 0 <= j < |order| => joins[order[j]].shares[i])
  }

  ghost predicate IsOrder(joins: map<Word, Join>, order: seq<Word>, i: nat, k: nat)
  {
    && |order| == k
    && (forall a, b :: 0 <= a < b < |order| ==> order[a] != order[b])
    && (forall x :: x in order ==> x in joins && i < |joins[x].shares|)
  }

  /** v is what joining k of the i-th shares gives, in some order. */
  ghost predicate JoinedValue(v: Word, joins: map<Word, Join>, i: nat, k: nat)
  {
    exists order: seq<Word> ::
      && IsOrder(joins, order, i, k)
      && v == ShareSum(Column(joins, order, i), k) % PRIME
  }

  ghost predicate JoinedValues(values: seq<Word>, joins: map<Word, Join>, len: nat, k: nat)
  {
    |values| == MAX_JOIN_LENGTH >= len && forall i :: 0 <= i < len ==> JoinedValue(values[i], joins, i, k)
  }

  /** The shares at every position sit at different points. */
  ghost predicate SharesApart(joins: map<Word, Join>, len: nat)
    requires forall x :: x in joins ==> |joins[x].shares| == len
  {
    forall x, y, i :: x in joins && y in joins && x != y && 0 <= i < len ==>
      !Cong(joins[x].shares[i].index, joins[y].shares[i].index)
  }

  /** The joins a set holds when it is reconstructed: a threshold of zero is
      passed by the first. */
  function Needed(k: nat): (n: nat)
  {
    if k == 0 then 1 else k
  }

  /** A join set of a joiner with threshold k. A set that is reconstructed has no
      callback waiting. */
  ghost predicate ValidSet(id: JoinId, js: JoinSet, k: nat)
  {
    && js.valuesLen <= MAX_JOIN_LENGTH == |js.values|
    && (forall x :: x in js.joins ==> js.joins[x].id == id && js.joins[x].index == x && |js.joins[x].shares| == js.valuesLen)
    && (js.valuesOk ==> |js.joins| == Needed(k) && JoinedValues(js.values, js.joins, js.valuesLen, k))
    && (!js.valuesOk ==> |js.joins| < Needed(k))
    && (js.valuesOk ==> js.callback == None && (k == 0 ==> js.valuesLen == 0))
  }

  ghost predicate ValidSets(sets: JoinSets, k: nat)
  {
    forall id :: id in sets ==> ValidSet(id, sets[id], k)
  }

  /** One insertion: the new sets, the error, and the callback that fires. */
  ghost predicate Insertion(k: nat, sets: JoinSets, join: Join, callback: Option<Callback>, override: bool,
                            sets': JoinSets, err: Option<JoinError>, fired: Option<Fired>)
    requires ValidSets(sets, k)
  {
    var js := Lookup(sets, join);
    var js1 := Recorded(js, join, callback, override);
    if |join.shares| > MAX_JOIN_LENGTH then
      sets' == sets && err == Some(ErrJoinLengthExceedsMax) && fired == None
    else if |join.shares| != js.valuesLen then
      sets' == sets && err == Some(ErrJoinLengthUnequal) && fired == None
    else if |js1.joins| < k then
      sets' == sets[join.id := js1] && err == None && fired == None
    else
      && err == None
      && join.id in sets'
      && (var js2 := sets'[join.id];
          && sets' == sets[join.id := js2]
          && js2 == js1.(values := js2.values, valuesOk := true, callback := None)
          && (if js1.valuesOk then js2.values == js1.values
              else JoinedValues(js2.values, js1.joins, js1.valuesLen, k))
          && fired == (match js1.callback
                       case None => None
                       case Some(c) => Some(Fired(c, join.id, js2.values[..js1.valuesLen]))))
  }

  /** Where an insertion panics: the set is completed by shares of which two
      sit at the same point, or there are shares and no room for any. */
  ghost predicate InsertionPanics(k: nat, sets: JoinSets, join: Join)
    requires ValidSets(sets, k)
  {
    var js := Lookup(sets, join);
    && |join.shares| <= MAX_JOIN_LENGTH && |join.shares| == js.valuesLen
    && !js.valuesOk && |js.joins[join.index := join]| >= k
    && (!SharesApart(js.joins[join.index := join], js.valuesLen) || (k == 0 && js.valuesLen > 0))
  }

  /** What an insertion does to the joins, in terms of the sets before: it is
      refused for its length and nothing changes; or it is recorded beside the
      joins of its identifier, unless these are reconstructed already. */
  lemma InsertionAccumulates(k: nat, sets: JoinSets, join: Join, callback: Option<Callback>, override: bool,
                             sets': JoinSets, err: Option<JoinError>, fired: Option<Fired>)
    requires ValidSets(sets, k) && Insertion(k, sets, join, callback, override, sets', err, fired)
    ensures err == Some(ErrJoinLengthExceedsMax) <==> |join.shares| > MAX_JOIN_LENGTH
    ensures err == Some(ErrJoinLengthUnequal) <==>
              |join.shares| <= MAX_JOIN_LENGTH && join.id in sets && sets[join.id].valuesLen != |join.shares|
    ensures err.Some? ==> sets' == sets && fired == None
    ensures err.None? ==> join.id in sets' && sets' == sets[join.id := sets'[join.id]] && sets'[join.id].valuesLen == |join.shares|
    ensures err.None? && join.id !in sets ==> sets'[join.id].joins == map[join.index := join]
    ensures err.None? && join.id in sets && !sets[join.id].valuesOk ==>
              sets'[join.id].joins == sets[join.id].joins[join.index := join]
    ensures err.None? && join.id in sets && sets[join.id].valuesOk ==>
              && sets'[join.id].joins == sets[join.id].joins && sets'[join.id].values == sets[join.id].values
              && sets'[join.id].valuesOk
    ensures err.None? ==> (sets'[join.id].valuesOk <==> |sets'[join.id].joins| >= k)
  {
    hide JoinedValue;
    assert join.id in sets ==> ValidSet(join.id, sets[join.id], k);
  }

  /** The callback an insertion leaves or fires is the one given, or the one
      that was waiting. */
  lemma InsertionCallback(k: nat, sets: JoinSets, join: Join, callback: Option<Callback>, override: bool,
                          sets': JoinSets, err: Option<JoinError>, fired: Option<Fired>)
    requires ValidSets(sets, k) && Insertion(k, sets, join, callback, override, sets', err, fired)
    ensures forall id :: id in sets' && id != join.id ==> id in sets && sets'[id] == sets[id]
    ensures err.Some? ==> sets' == sets && fired == None
    ensures err.None? ==> join.id in sets'
    ensures
      var waiting := if override then callback else if join.id in sets then sets[join.id].callback else None;
      err.None? ==>
        && (fired.Some? ==> waiting == Some(fired.value.callback) && fired.value.id == join.id && sets'[join.id].callback == None)
        && (fired.None? ==> sets'[join.id].callback == waiting)
  {
    hide ValidSet, JoinedValue;
  }

  class Joiner {
    const k: nat
    const cache: array<Share>
    var joinSets: JoinSets

    ghost predicate Valid()
      reads this
    {
      cache.Length == k && ValidSets(joinSets, k)
    }

    /** An empty joiner that needs k shares for a reconstruction. */
    constructor (k: nat)
      ensures Valid() && joinSets == map[] && this.k == k && fresh(cache)
    {
      this.k := k;
      cache := new Share[k](_ => Share(0, 0));
      joinSets := map[];
    }

    /** Adds a join and maybe a callback, reconstructs the values when the
        threshold is first reached, and returns the callback to call. */
    method InsertJoin(join: Join, callback: Option<Callback>, override: bool)
      returns (panics: bool, err: Option<JoinError>, fired: Option<Fired>)
      requires Valid()
      modifies this, cache
      ensures panics <==> InsertionPanics(k, old(joinSets), join)
      ensures !panics ==> Valid() && Insertion(k, old(joinSets), join, callback, override, joinSets, err, fired)
      ensures !panics && err.None? && !(join.id in old(joinSets) && old(joinSets)[join.id].valuesOk) ==>
                && join.id in joinSets
                && joinSets[join.id].joins == (if join.id in old(joinSets) then old(joinSets)[join.id].joins else map[])[join.index := join]
    {
      hide Insertion, InsertionPanics, ValidSets;
      panics, err, fired := RecordJoin(join, callback, override);
      if !panics {
        InsertionAccumulates(k, old(joinSets), join, callback, override, joinSets, err, fired);
      }
    }

    method RecordJoin(join: Join, callback: Option<Callback>, override: bool)
      returns (panics: bool, err: Option<JoinError>, fired: Option<Fired>)
      requires Valid()
      modifies this, cache
      ensures panics <==> InsertionPanics(k, old(joinSets), join)
      ensures !panics ==> Valid() && Insertion(k, old(joinSets), join, callback, override, joinSets, err, fired)
    {
      panics, err, fired := false, None, None;
      if |join.shares| > MAX_JOIN_LENGTH {
        return false, Some(ErrJoinLengthExceedsMax), None;
      }
      var joinSet := Lookup(joinSets, join);
      if |join.shares| != joinSet.valuesLen {
        return false, Some(ErrJoinLengthUnequal), None;
      }
      RecordedValid(joinSets, k, join, callback, override);
      ghost var js := joinSet;
      joinSet := Recorded(joinSet, join, callback, override);
      if |joinSet.joins| < k {
        joinSets := joinSets[join.id := joinSet];
        return;
      }
      if !joinSet.valuesOk {
        var values;
        panics, values := Reconstruct(joinSet);
        if panics {
          return;
        }
        joinSet := joinSet.(values := values, valuesOk := true);
      }
      if joinSet.callback.Some? {
        fired := Some(Fired(joinSet.callback.value, join.id, joinSet.values[..joinSet.valuesLen]));
      }
      joinSets := joinSets[join.id := joinSet.(callback := None)];
    }

    /** Joins the shares position by position. */
    method Reconstruct(js: JoinSet) returns (panics: bool, values: seq<Word>)
      requires cache.Length == k
      requires |js.joins| == Needed(k) && js.valuesLen <= MAX_JOIN_LENGTH == |js.values|
      requires forall x :: x in js.joins ==> |js.joins[x].shares| == js.valuesLen
      modifies cache
      ensures panics <==> !SharesApart(js.joins, js.valuesLen) || (k == 0 && js.valuesLen > 0)
      ensures !panics ==> JoinedValues(values, js.joins, js.valuesLen, k)
    {
      values := js.values;
      for i := 0 to js.valuesLen
        invariant |values| == MAX_JOIN_LENGTH && (i > 0 ==> k > 0)
        invariant forall m :: 0 <= m < i ==> JoinedValue(values[m], js.joins, m, k) && ColumnApart(js.joins, m)
      {
        var full;
        ghost var order;
        full, order := FillCache(js.joins, i);
        if full {
          return true, values;
        }
        var ok, v := Shamir.Join(cache[..]);
        assert cache[..] == Column(js.joins, order, i);
        OrderApart(js.joins, order, i, k);
        if !ok {
          return true, values;
        }
        assert JoinedValue(v, js.joins, i, k);
        values := values[i := v];
      }
      panics := false;
      ColumnsApart(js.joins, js.valuesLen);
    }

    /** Copies the i-th share of k joins, met in any order, into the cache; an
        empty cache is full at once. */
    method FillCache(joins: map<Word, Join>, i: nat) returns (full: bool, ghost order: seq<Word>)
      requires cache.Length == k && Needed(k) <= |joins|
      requires forall x :: x in joins ==> i < |joins[x].shares|
      modifies cache
      ensures full <==> k == 0
      ensures !full ==> IsOrder(joins, order, i, k) && cache[..] == Column(joins, order, i)
    {
      hide IsOrder, Column;
      order := [];
      var rest := joins.Keys;
      var n := 0;
      OrderEmpty(joins, i);
      while rest != {}
        invariant 0 <= n < Needed(k) && |rest| == |joins| - n && rest <= joins.Keys
        invariant IsOrder(joins, order, i, n) && (n > 0 ==> k > 0)
        invariant forall x :: x in order ==> x in joins && x !in rest
        invariant cache[..n] == Column(joins, order, i)
        decreases rest
      {
        var x :| x in rest;
        if n >= cache.Length {
          return true, order;
        }
        OrderGrows(joins, order, i, n, x);
        ghost var before := cache[..n];
        cache[n] := joins[x].shares[i];
        assert cache[..n + 1] == before + [joins[x].shares[i]];
        rest := rest - {x};
        order := order + [x];
        n := n + 1;
        if n >= k {
          break;
        }
      }
      full := false;
      assert cache[..k] == cache[..];
    }
  }

  lemma OrderEmpty(joins: map<Word, Join>, i: nat)
    ensures IsOrder(joins, [], i, 0) && Column(joins, [], i) == []
  {
  }

  lemma OrderGrows(joins: map<Word, Join>, order: seq<Word>, i: nat, n: nat, x: Word)
    requires IsOrder(joins, order, i, n) && x in joins && i < |joins[x].shares| && x !in order
    ensures IsOrder(joins, order + [x], i, n + 1)
    ensures Column(joins, order + [x], i) == Column(joins, order, i) + [joins[x].shares[i]]
  {
  }

  ghost predicate ColumnApart(joins: map<Word, Join>, i: nat)
    requires forall x :: x in joins ==> i < |joins[x].shares|
  {
    forall x, y :: x in joins && y in joins && x != y ==> !Cong(joins[x].shares[i].index, joins[y].shares[i].index)
  }

  lemma ColumnsApart(joins: map<Word, Join>, len: nat)
    requires forall x :: x in joins ==> |joins[x].shares| == len
    requires forall m :: 0 <= m < len ==> ColumnApart(joins, m)
    ensures SharesApart(joins, len)
  {
    forall x, y, i | x in joins && y in joins && x != y && 0 <= i < len
      ensures !Cong(joins[x].shares[i].index, joins[y].shares[i].index)
    {
      assert ColumnApart(joins, i);
    }
  }

  /** An order of as many joins as there are lists them all. */
  lemma OrderComplete(joins: map<Word, Join>, order: seq<Word>, i: nat)
    requires IsOrder(joins, order, i, |joins|)
    ensures forall x :: x in joins ==> x in order
  {
    var listed := set x | x in order;
    SeqSetSize(order, listed);
    assert listed <= joins.Keys;
    SubsetFull(listed, joins.Keys);
  }

  lemma {:induction false} SeqSetSize(s: seq<Word>, t: set<Word>)
    requires forall a, b :: 0 <= a < b < |s| ==> s[a] != s[b]
    requires t == set x | x in s
    ensures |t| == |s|
  {
    if s != [] {
      var n := |s| - 1;
      var t' := set x | x in s[..n];
      SeqSetSize(s[..n], t');
      assert t == t' + {s[n]};
    }
  }

  lemma SubsetFull(s: set<Word>, t: set<Word>)
    requires s <= t && |s| == |t|
    ensures s == t
  {
    assert t == s + (t - s);
    assert |t| == |s| + |t - s|;
  }

  lemma OrderApart(joins: map<Word, Join>, order: seq<Word>, i: nat, k: nat)
    requires IsOrder(joins, order, i, k) && |joins| == k
    requires forall x :: x in joins ==> i < |joins[x].shares|
    ensures Distinct(Indices(Column(joins, order, i))) <==> ColumnApart(joins, i)
  {
    hide Cong;
    OrderComplete(joins, order, i);
    var xs := Indices(Column(joins, order, i));
    assert forall a :: 0 <= a < k ==> xs[a] == joins[order[a]].shares[i].index;
    if Distinct(xs) {
      forall x, y | x in joins && y in joins && x != y
        ensures !Cong(joins[x].shares[i].index, joins[y].shares[i].index)
      {
        var a :| 0 <= a < k && order[a] == x;
        var b :| 0 <= b < k && order[b] == y;
        CongFlipped(xs[a], xs[b]);
      }
    }
    if ColumnApart(joins, i) {
      forall a, b | 0 <= a < b < k ensures !Cong(xs[a], xs[b]) {
        assert order[a] in joins && order[b] in joins;
      }
    }
  }

  lemma RecordedValid(sets: JoinSets, k: nat, join: Join, callback: Option<Callback>, override: bool)
    requires ValidSets(sets, k)
    requires |join.shares| <= MAX_JOIN_LENGTH && |join.shares| == Lookup(sets, join).valuesLen
    ensures
      var js1 := Recorded(Lookup(sets, join), join, callback, override);
      && 0 < |js1.joins| <= Needed(k) && js1.valuesLen <= MAX_JOIN_LENGTH == |js1.values|
      && (js1.valuesOk ==> ValidSet(join.id, js1.(callback := None), k))
      && forall x :: x in js1.joins ==>
           js1.joins[x].id == join.id && js1.joins[x].index == x && |js1.joins[x].shares| == js1.valuesLen
  {
    var js := Lookup(sets, join);
    assert ValidSet(join.id, js, k);
    MapGrows(js.joins, join.index, join);
  }

  lemma MapGrows(m: map<Word, Join>, x: Word, j: Join)
    ensures |m| <= |m[x := j]| <= |m| + 1
  {
    assert m[x := j].Keys == m.Keys + {x};
  }

  // ----- many insertions

  /** One insertion and its outcome. */
  datatype Entry = Entry(join: Join, callback: Option<Callback>, override: bool, err: Option<JoinError>, fired: Option<Fired>)

  /** Insertions one after the other into a joiner with threshold k. */
  ghost predicate History(k: nat, states: seq<JoinSets>, entries: seq<Entry>)
  {
    && |states| == |entries| + 1
    && (forall n :: 0 <= n < |states| ==> ValidSets(states[n], k))
    && forall n {:trigger entries[n]} :: 0 <= n < |entries| ==>
         Insertion(k, states[n], entries[n].join, entries[n].callback, entries[n].override, states[n + 1], entries[n].err, entries[n].fired)
  }

  /** A join of this identifier and index was inserted among the first n. */
  ghost predicate WasInserted(entries: seq<Entry>, n: nat, id: JoinId, x: Word)
  {
    exists m :: 0 <= m < n <= |entries| && entries[m].err.None? && entries[m].join.id == id && entries[m].join.index == x
  }

  /** What was inserted is still there, unless the set was reconstructed. */
  lemma {:induction false} NothingForgotten(k: nat, states: seq<JoinSets>, entries: seq<Entry>, n: nat, id: JoinId, x: Word)
    requires History(k, states, entries) && n <= |entries| && WasInserted(entries, n, id, x)
    ensures id in states[n] && (states[n][id].valuesOk || x in states[n][id].joins)
    decreases n
  {
    hide Insertion, ValidSets;
    var m :| 0 <= m < n && entries[m].err.None? && entries[m].join.id == id && entries[m].join.index == x;
    var e := entries[n - 1];
    InsertionAccumulates(k, states[n - 1], e.join, e.callback, e.override, states[n], e.err, e.fired);
    if m < n - 1 {
      assert WasInserted(entries, n - 1, id, x);
      NothingForgotten(k, states, entries, n - 1, id, x);
    }
  }

  /** As many joins with different indices as the threshold asks for, in any
      order and with anything in between, bring about the reconstruction. */
  lemma EnoughInserted(k: nat, states: seq<JoinSets>, entries: seq<Entry>, id: JoinId, indices: set<Word>)
    requires History(k, states, entries) && |indices| >= Needed(k)
    requires forall x :: x in indices ==> WasInserted(entries, |entries|, id, x)
    ensures id in states[|entries|] && states[|entries|][id].valuesOk && states[|entries|][id].callback == None
  {
    hide JoinedValue;
    var n := |entries|;
    forall x | x in indices
      ensures id in states[n] && (states[n][id].valuesOk || x in states[n][id].joins)
    {
      NothingForgotten(k, states, entries, n, id, x);
    }
    assert indices != {};
    var x :| x in indices;
    assert id in states[n];
    assert ValidSet(id, states[n][id], k);
    if !states[n][id].valuesOk {
      SubsetSmaller(indices, states[n][id].joins.Keys);
    }
  }

  lemma SubsetSmaller(s: set<Word>, t: set<Word>)
    requires s <= t
    ensures |s| <= |t|
  {
    assert t == s + (t - s);
  }

  lemma NotBothWays(sets: JoinSets, k: nat, id: JoinId)
    requires ValidSets(sets, k) && id in sets && sets[id].callback.Some?
    ensures !sets[id].valuesOk
  {
    assert ValidSet(id, sets[id], k);
  }

  /** A callback that waits is called by the time of the reconstruction, unless
      another one takes its place. */
  lemma {:induction false} WaitingCallbackFires(k: nat, states: seq<JoinSets>, entries: seq<Entry>, n: nat, id: JoinId, c: Callback)
    returns (m: nat)
    requires History(k, states, entries) && n <= |entries|
    requires id in states[n] && states[n][id].callback == Some(c)
    requires id in states[|entries|] && states[|entries|][id].valuesOk
    requires forall i :: n <= i < |entries| && entries[i].join.id == id ==> !entries[i].override
    ensures n <= m < |entries| && entries[m].join.id == id && entries[m].fired.Some? && entries[m].fired.value.callback == c
    decreases |entries| - n
  {
    hide Insertion, ValidSets;
    NotBothWays(states[n], k, id);
    var e := entries[n];
    InsertionAccumulates(k, states[n], e.join, e.callback, e.override, states[n + 1], e.err, e.fired);
    InsertionCallback(k, states[n], e.join, e.callback, e.override, states[n + 1], e.err, e.fired);
    if e.join.id == id && e.fired.Some? {
      m := n;
    } else {
      m := WaitingCallbackFires(k, states, entries, n + 1, id, c);
    }
  }
}
