/** The join protocol between many nodes: every node broadcasts its own join,
    answers the joins of others, and inserts what it receives. */
module Smpc {
  import opened Options
  import opened Words
  import opened PrimeField
  import opened Shamir
  import opened Joining

  type NetworkId = nat

  /** Joiners are referred to by their position in the heap, so that a call can
      still hold one that has been replaced. */
  type JoinerRef = nat

  datatype JoinerState = JoinerState(k: nat, sets: JoinSets)

  datatype Node = Node(joiners: map<NetworkId, JoinerRef>, selfJoins: map<JoinId, Join>)

  datatype Message =
    | MessageJoin(from: nat, network: NetworkId, join: Join)
    | MessageJoinResponse(network: NetworkId, join: Join)

  /** How far a call of Join has come; the locks make each step atomic. */
  datatype Progress = Started | SelfStored | Found(ref: JoinerRef) | Inserted(ref: JoinerRef) | Returned(inserted: Option<JoinerRef>)

  datatype Call = Call(node: nat, network: NetworkId, join: Join, progress: Progress)

  datatype Event = Event(ref: JoinerRef, fired: Fired)

  datatype State = State(
    nodes: seq<Node>,
    heap: seq<JoinerState>,
    calls: seq<Call>,
    responders: set<(nat, Message)>,
    sent: set<Message>,
    events: seq<Event>)

  // ----- steps

  /** The threshold of a joiner for a list of so many addresses; the list that
      the source passes names the node itself too. */
  function Threshold(addrs: nat): nat
  {
    2 * (addrs + 1) / 3
  }

  ghost predicate Connect(s: State, s': State, i: nat, network: NetworkId, addrs: nat)
  {
    && i < |s.nodes|
    && s' == s.(heap := s.heap + [JoinerState(Threshold(addrs), map[])],
                nodes := s.nodes[i := s.nodes[i].(joiners := s.nodes[i].joiners[network := |s.heap|])])
  }

  ghost predicate Disconnect(s: State, s': State, i: nat, network: NetworkId)
  {
    && i < |s.nodes|
    && s' == s.(nodes := s.nodes[i := s.nodes[i].(joiners := s.nodes[i].joiners - {network})])
  }

  ghost predicate Invoke(s: State, s': State, i: nat, network: NetworkId, join: Join)
  {
    && i < |s.nodes|
    && s' == s.(calls := s.calls + [Call(i, network, join, Started)])
  }

  ghost predicate StoreSelf(s: State, s': State, c: nat)
  {
    && c < |s.calls| && s.calls[c].progress.Started? && s.calls[c].node < |s.nodes|
    && var call := s.calls[c];
       s' == s.(nodes := s.nodes[call.node := s.nodes[call.node].(selfJoins := s.nodes[call.node].selfJoins[call.join.id := call.join])],
                calls := s.calls[c := call.(progress := SelfStored)])
  }

  ghost predicate FindJoiner(s: State, s': State, c: nat)
  {
    && c < |s.calls| && s.calls[c].progress.SelfStored? && s.calls[c].node < |s.nodes|
    && var call := s.calls[c];
       var joiners := s.nodes[call.node].joiners;
       s' == s.(calls := s.calls[c := call.(progress :=
                  if call.network in joiners then Found(joiners[call.network]) else Returned(None))])
  }

  /** An insertion into the joiner at ref; a fired callback becomes an event. */
  ghost predicate InsertAt(s: State, s': State, ref: JoinerRef, join: Join, callback: Option<Callback>, override: bool, err: Option<JoinError>)
    requires ref < |s.heap| && ValidSets(s.heap[ref].sets, s.heap[ref].k)
  {
    && ref < |s'.heap|
    && s'.heap == s.heap[ref := s.heap[ref].(sets := s'.heap[ref].sets)]
    && exists fired ::
         && Insertion(s.heap[ref].k, s.heap[ref].sets, join, callback, override, s'.heap[ref].sets, err, fired)
         && s'.events == match fired
                         case None => s.events
                         case Some(f) => s.events + [Event(ref, f)]
  }

  ghost predicate Insert(s: State, s': State, c: nat, err: Option<JoinError>)
    requires SetsValid(s)
  {
    && c < |s.calls| && s.calls[c].progress.Found? && s.calls[c].progress.ref < |s.heap|
    && var call := s.calls[c];
       && InsertAt(s, s', call.progress.ref, call.join, Some(c), true, err)
       && s' == s.(heap := s'.heap, events := s'.events,
                   calls := s.calls[c := call.(progress :=
                     if err.None? then Inserted(call.progress.ref) else Returned(None))])
  }

  ghost predicate Broadcast(s: State, s': State, c: nat)
  {
    && c < |s.calls| && s.calls[c].progress.Inserted?
    && var call := s.calls[c];
       s' == s.(sent := s.sent + {MessageJoin(call.node, call.network, call.join)},
                calls := s.calls[c := call.(progress := Returned(Some(call.progress.ref)))])
  }

  /** A message can be received any number of times, at any node, or never. */
  ghost predicate Receive(s: State, s': State, i: nat, m: Message, err: Option<JoinError>)
    requires SetsValid(s)
  {
    && i < |s.nodes| && m in s.sent
    && (if m.network in s.nodes[i].joiners then
          var ref := s.nodes[i].joiners[m.network];
          && ref < |s.heap|
          && InsertAt(s, s', ref, m.join, None, false, err)
        else
          s'.heap == s.heap && s'.events == s.events && err == None)
    && s' == s.(heap := s'.heap, events := s'.events,
                responders := if m.MessageJoin? && err.None? then s.responders + {(i, m)} else s.responders)
  }

  ghost predicate Respond(s: State, s': State, i: nat, m: Message)
  {
    && (i, m) in s.responders && i < |s.nodes|
    && var self := s.nodes[i].selfJoins;
       s' == s.(responders := s.responders - {(i, m)},
                sent := if m.join.id in self then s.sent + {MessageJoinResponse(m.network, self[m.join.id])} else s.sent)
  }

  /** The polynomials whose shares the joins carry, for every identifier. */
  type Sharing = JoinId -> seq<seq<int>>

  /** A join that holds its node's shares of the fixed secrets. */
  ghost predicate Honest(polys: Sharing, join: Join)
  {
    && 1 <= join.index < TOP
    && |join.shares| == |polys(join.id)|
    && forall v :: 0 <= v < |join.shares| ==> IsShare(join.shares[v], join.index, polys(join.id)[v])
  }

  /** Every polynomial has at most K coefficients. */
  ghost predicate BoundedSharing(polys: Sharing, K: nat)
  {
    K >= 1 && forall id, v :: 0 <= v < |polys(id)| ==> 0 < |polys(id)[v]| <= K
  }

  ghost function Secrets(polys: Sharing, id: JoinId): (r: seq<int>)
    requires forall v :: 0 <= v < |polys(id)| ==> polys(id)[v] != []
    ensures |r| == |polys(id)|
  {
    seq(|polys(id)|, v requires 0 <= v < |polys(id)| => polys(id)[v][0] % PRIME)
  }

  ghost predicate SetsValid(s: State)
  {
    forall r :: 0 <= r < |s.heap| ==> ValidSets(s.heap[r].sets, s.heap[r].k)
  }

  /** One step of the network. Only the joins that nodes invoke are assumed to
      be honest, and only networks large enough are connected to. */
  ghost predicate Next(polys: Sharing, K: nat, s: State, s': State)
    requires SetsValid(s)
  {
    || (exists i, network, addrs :: Threshold(addrs) >= K && Connect(s, s', i, network, addrs))
    || (exists i, network :: Disconnect(s, s', i, network))
    || (exists i, network, join :: Honest(polys, join) && Invoke(s, s', i, network, join))
    || (exists c :: StoreSelf(s, s', c))
    || (exists c :: FindJoiner(s, s', c))
    || (exists c, err :: Insert(s, s', c, err))
    || (exists c :: Broadcast(s, s', c))
    || (exists i, m, err :: Receive(s, s', i, m, err))
    || (exists i, m :: Respond(s, s', i, m))
  }

  ghost predicate Init(s: State)
  {
    && s.heap == [] && s.calls == [] && s.responders == {} && s.sent == {} && s.events == []
    && forall i :: 0 <= i < |s.nodes| ==> s.nodes[i] == Node(map[], map[])
  }
}
