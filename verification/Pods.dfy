/** Assigning darknodes to pods by walking the list in strides of the epoch
    value and probing for the next free place. */
module Pods {
  import opened Integers

  type Address = nat

  /** The registry's answer to whether a darknode is registered. */
  datatype Answer = Registered | NotRegistered | Failed

  datatype PodsError = DegradedPod | RegistryFailed

  /** A minimum of zero makes the source divide by zero. */
  datatype PodsResult = Pods(pods: seq<seq<Address>>) | Error(error: PodsError) | Panic

  /** How many of the numbers below i leave remainder j. */
  function Rounds(i: nat, count: nat, j: nat): nat
    requires count > 0
  {
    DivNonNeg(i, count);
    if i % count > j then i / count + 1 else i / count
  }

  lemma RoundStep(i: nat, count: nat)
    requires count > 0
    ensures 0 <= i % count < count && 0 <= i / count && Rounds(i, count, i % count) == i / count
    ensures forall j: nat {:trigger Rounds(i + 1, count, j)} :: j < count ==>
              Rounds(i + 1, count, j) == Rounds(i, count, j) + if j == i % count then 1 else 0
  {
    DivTimesMod(i, count);
    DivNonNeg(i, count);
    var q, r := i / count, i % count;
    if r + 1 < count {
      DivModIs(i + 1, q, r + 1, count);
    } else {
      Distribute(count, q, 1);
      DivModIs(i + 1, q + 1, 0, count);
    }
  }

  lemma RoundsStart(count: nat, j: nat)
    requires count > 0
    ensures Rounds(0, count, j) == 0
  {
    DivModIs(0, 0, 0, count);
  }

  /** at[k] is the place visited in round k: places are visited once. */
  ghost predicate Visits(at: seq<nat>, n: nat)
  {
    && (forall k :: 0 <= k < |at| ==> at[k] < n)
    && (forall k, l :: 0 <= k < l < |at| ==> at[k] != at[l])
  }

  /** pos is the inverse of at, with -1 for the places not yet visited. */
  ghost predicate Inverse(pos: seq<int>, at: seq<nat>)
  {
    && Visits(at, |pos|)
    && (forall k :: 0 <= k < |at| ==> pos[at[k]] == k)
    && (forall x :: 0 <= x < |pos| ==> pos[x] == -1 || (0 <= pos[x] < |at| && at[pos[x]] == x))
  }

  /** The darknode visited in round k is the next one of pod k mod count. */
  ghost predicate Placed(pods: seq<seq<Address>>, nodes: seq<Address>, at: seq<nat>, count: nat)
  {
    && count > 0 && |pods| == count && Visits(at, |nodes|)
    && (forall j: nat :: j < count ==> |pods[j]| == Rounds(|at|, count, j))
    && (forall k: nat :: k < |at| ==> InPod(pods, nodes, at, count, k))
  }

  ghost predicate InPod(pods: seq<seq<Address>>, nodes: seq<Address>, at: seq<nat>, count: nat, k: nat)
    requires count > 0 && |pods| == count && k < |at|
  {
    && 0 <= k % count < count && 0 <= k / count < |pods[k % count]|
    && at[k] < |nodes| && pods[k % count][k / count] == nodes[at[k]]
  }

  lemma PlaceNext(pods: seq<seq<Address>>, nodes: seq<Address>, at: seq<nat>, count: nat, x: nat)
    requires Placed(pods, nodes, at, count) && x < |nodes| && Visits(at + [x], |nodes|)
    ensures
      var j := |at| % count;
      && 0 <= j < count
      && Placed(pods[j := pods[j] + [nodes[x]]], nodes, at + [x], count)
  {
    var i := |at|;
    RoundStep(i, count);
    var j := i % count;
    var pods' := pods[j := pods[j] + [nodes[x]]];
    forall k: nat | k < i + 1 ensures InPod(pods', nodes, at + [x], count, k) {
      if k < i {
        assert InPod(pods, nodes, at, count, k);
      }
    }
  }

  /** Fewer visits than places leave a place free. */
  lemma FreePlace(pos: seq<int>, at: seq<nat>) returns (f: nat)
    requires Inverse(pos, at) && |at| < |pos|
    ensures f < |pos| && pos[f] == -1
  {
    if forall x :: 0 <= x < |pos| ==> pos[x] != -1 {
      Crowded(pos, at, |pos|);
    }
    f :| 0 <= f < |pos| && pos[f] == -1;
  }

  /** The first m places cannot all be visited in fewer than m rounds. */
  lemma {:induction false} Crowded(pos: seq<int>, at: seq<nat>, m: nat)
    requires Inverse(pos, at) && m <= |pos| && forall x :: 0 <= x < m ==> pos[x] != -1
    ensures m <= |at|
    decreases m
  {
    var used := UsedRounds(pos, m);
    UsedSize(pos, at, m);
    BelowSize(used, |at|);
  }

  ghost function UsedRounds(pos: seq<int>, m: nat): set<int>
    requires m <= |pos|
  {
    if m == 0 then {} else UsedRounds(pos, m - 1) + {pos[m - 1]}
  }

  lemma {:induction false} UsedSize(pos: seq<int>, at: seq<nat>, m: nat)
    requires Inverse(pos, at) && m <= |pos| && forall x :: 0 <= x < m ==> pos[x] != -1
    ensures |UsedRounds(pos, m)| == m
    ensures forall v :: v in UsedRounds(pos, m) ==> 0 <= v < |at| && at[v] < m
    decreases m
  {
    if m > 0 {
      UsedSize(pos, at, m - 1);
    }
  }

  lemma {:induction false} BelowSize(s: set<int>, n: nat)
    requires forall v :: v in s ==> 0 <= v < n
    ensures |s| <= n
    decreases n
  {
    if n == 0 {
      assert forall v :: v !in s;
      assert s == {};
    } else {
      BelowSize(s - {n - 1}, n - 1);
    }
  }

  // ----- no darknode is lost or repeated

  ghost function Members(pods: seq<seq<Address>>): multiset<Address>
  {
    if pods == [] then multiset{} else Members(pods[..|pods| - 1]) + multiset(pods[|pods| - 1])
  }

  lemma {:induction false} MembersAppend(pods: seq<seq<Address>>, j: nat, a: Address)
    requires j < |pods|
    ensures Members(pods[j := pods[j] + [a]]) == Members(pods) + multiset{a}
  {
    var m := |pods| - 1;
    var pods' := pods[j := pods[j] + [a]];
    if j == m {
      assert pods'[..m] == pods[..m];
    } else {
      MembersAppend(pods[..m], j, a);
      assert pods'[..m] == pods[..m][j := pods[j] + [a]];
    }
  }

  lemma {:induction false} MembersEmpty(pods: seq<seq<Address>>)
    requires forall j :: 0 <= j < |pods| ==> pods[j] == []
    ensures Members(pods) == multiset{}
  {
    if pods != [] {
      MembersEmpty(pods[..|pods| - 1]);
    }
  }

  /** The darknodes among the first m that have no place yet. */
  ghost function Waiting(nodes: seq<Address>, pos: seq<int>, m: nat): multiset<Address>
    requires m <= |nodes| == |pos|
  {
    if m == 0 then multiset{}
    else Waiting(nodes, pos, m - 1) + if pos[m - 1] == -1 then multiset{nodes[m - 1]} else multiset{}
  }

  lemma {:induction false} AllWaiting(nodes: seq<Address>, pos: seq<int>, m: nat)
    requires m <= |nodes| == |pos| && forall x :: 0 <= x < m ==> pos[x] == -1
    ensures Waiting(nodes, pos, m) == multiset(nodes[..m])
    decreases m
  {
    if m > 0 {
      AllWaiting(nodes, pos, m - 1);
      assert nodes[..m] == nodes[..m - 1] + [nodes[m - 1]];
    }
  }

  lemma {:induction false} NoneWaiting(nodes: seq<Address>, pos: seq<int>, m: nat)
    requires m <= |nodes| == |pos| && forall x :: 0 <= x < m ==> pos[x] != -1
    ensures Waiting(nodes, pos, m) == multiset{}
    decreases m
  {
    if m > 0 {
      NoneWaiting(nodes, pos, m - 1);
    }
  }

  lemma {:induction false} OneLessWaiting(nodes: seq<Address>, pos: seq<int>, x: nat, i: nat, m: nat)
    requires m <= |nodes| == |pos| && x < |pos| && pos[x] == -1
    ensures Waiting(nodes, pos, m) == Waiting(nodes, pos[x := i], m) + if x < m then multiset{nodes[x]} else multiset{}
    decreases m
  {
    if m > 0 {
      OneLessWaiting(nodes, pos, x, i, m - 1);
    }
  }

  // ----- the assignment, one question to the registry at a time

  datatype Setting = Setting(nodes: seq<Address>, oracle: Address -> Answer, count: nat, epoch: int)

  /** Round i looks for a place from x on; pos and pods are what the rounds
      before have left. */
  datatype Progress =
    | Going(pos: seq<int>, pods: seq<seq<Address>>, x: nat, i: nat)
    | Ended(result: PodsResult)

  ghost predicate Fits(e: Setting, s: Progress)
  {
    s.Going? ==> |s.pos| == |e.nodes| && |s.pods| == e.count > 0 && s.i <= |e.nodes| && s.x < |e.nodes|
  }

  ghost function Step(e: Setting, s: Progress): (s': Progress)
    requires Fits(e, s)
    ensures Fits(e, s')
  {
    if s.Ended? then s
    else if s.i == |e.nodes| then Ended(Pods(s.pods))
    else
      match e.oracle(e.nodes[s.x])
      case Failed => Ended(Error(RegistryFailed))
      case NotRegistered => s.(x := (s.x + 1) % |e.nodes|)
      case Registered =>
        if s.pos[s.x] != -1 then s.(x := (s.x + 1) % |e.nodes|)
        else
          ModBelow(s.i, e.count);
          ModBelow(s.x + e.epoch, |e.nodes|);
          var pod := s.i % e.count;
          Going(s.pos[s.x := s.i], s.pods[pod := s.pods[pod] + [e.nodes[s.x]]], (s.x + e.epoch) % |e.nodes|, s.i + 1)
  }

  lemma PlaceStart(start: nat, n: nat)
    requires start < n
    ensures Place(start, 0, n) == start
  {
    SmallMod(start, n);
  }

  lemma NextPlace(start: int, d: nat, n: nat)
    requires n > 0
    ensures (Place(start, d, n) + 1) % n == Place(start, d + 1, n)
  {
    var a := start + d;
    DivTimesMod(a, n);
    var q, r := a / n, a % n;
    if r + 1 < n {
      DivModIs(a + 1, q, r + 1, n);
      SmallMod(r + 1, n);
    } else {
      Distribute(n, q, 1);
      DivModIs(a + 1, q + 1, 0, n);
      DivModIs(r + 1, 1, 0, n);
    }
  }

  lemma ModBelow(a: int, n: nat)
    requires n > 0
    ensures 0 <= a % n < n
  {
  }

  ghost function Run(e: Setting, s: Progress, t: nat): (s': Progress)
    requires Fits(e, s)
    ensures Fits(e, s')
  {
    if t == 0 then s else Step(e, Run(e, s, t - 1))
  }

  ghost predicate Reaches(e: Setting, s: Progress, s': Progress)
    requires Fits(e, s)
  {
    exists t: nat :: Run(e, s, t) == s'
  }

  lemma ReachesSelf(e: Setting, s: Progress)
    requires Fits(e, s)
    ensures Reaches(e, s, s)
  {
    assert Run(e, s, 0) == s;
  }

  lemma ReachesNext(e: Setting, s: Progress, s': Progress)
    requires Fits(e, s) && Reaches(e, s, s')
    ensures Fits(e, s') && Reaches(e, s, Step(e, s'))
  {
    var t: nat :| Run(e, s, t) == s';
    assert Run(e, s, t + 1) == Step(e, s');
  }

  /** Where a walk stops: the registry fails there, or it is free and its
      darknode is registered. */
  ghost predicate Stops(e: Setting, pos: seq<int>, y: int)
    requires |pos| == |e.nodes|
  {
    0 <= y < |e.nodes| && (e.oracle(e.nodes[y]) == Failed || (e.oracle(e.nodes[y]) == Registered && pos[y] == -1))
  }

  /** The walk of a round is over: the assignment has ended or the next round has
      begun. */
  ghost predicate WalkOver(e: Setting, s: Progress, t: nat)
    requires s.Going? && Fits(e, s)
  {
    Run(e, s, t).Ended? || Run(e, s, t).i > s.i
  }

  /** A walk ends if and only if there is a place that stops it. */
  lemma WalkEndsIff(e: Setting, s: Progress)
    requires s.Going? && Fits(e, s) && s.i < |e.nodes|
    ensures (exists t: nat :: WalkOver(e, s, t)) <==> (exists y :: Stops(e, s.pos, y))
  {
    if t: nat :| WalkOver(e, s, t) {
      if !exists y :: Stops(e, s.pos, y) {
        StillWalking(e, s, t);
      }
    }
    if y :| Stops(e, s.pos, y) {
      var t := WalkTo(e, s, y);
    }
  }

  lemma {:induction false} StillWalking(e: Setting, s: Progress, t: nat)
    requires s.Going? && Fits(e, s) && s.i < |e.nodes| && !exists y :: Stops(e, s.pos, y)
    ensures Run(e, s, t).Going? && Run(e, s, t) == s.(x := Run(e, s, t).x)
  {
    if t > 0 {
      StillWalking(e, s, t - 1);
      var s' := Run(e, s, t - 1);
      assert !Stops(e, s.pos, s'.x);
    }
  }

  /** Steps from x around to f. */
  ghost function Distance(x: nat, f: nat, n: nat): int
  {
    if x <= f then f - x else f + n - x
  }

  lemma CloserBy(x: nat, f: nat, n: nat)
    requires x < n && f < n && x != f
    ensures 0 <= (x + 1) % n < n && 0 <= Distance((x + 1) % n, f, n) < Distance(x, f, n)
  {
    if x + 1 < n {
      SmallMod(x + 1, n);
    } else {
      DivModIs(x + 1, 1, 0, n);
    }
  }

  /** Walking on reaches any place that stops it, if nothing does before. */
  lemma {:induction false} WalkTo(e: Setting, s: Progress, y: nat) returns (t: nat)
    requires s.Going? && Fits(e, s) && s.i < |e.nodes| && Stops(e, s.pos, y)
    ensures WalkOver(e, s, t)
    ensures Run(e, s, t).Ended? ==> AnyFailed(e.nodes, e.oracle)
    ensures Run(e, s, t).Going? ==> Run(e, s, t).i == s.i + 1
    decreases Distance(s.x, y, |e.nodes|)
  {
    var s' := Step(e, s);
    assert Run(e, s, 1) == s' by { assert Run(e, s, 0) == s; }
    if Stops(e, s.pos, s.x) {
      t := 1;
    } else {
      CloserBy(s.x, y, |e.nodes|);
      var t' := WalkTo(e, s', y);
      RunAfter(e, s, t');
      t := t' + 1;
    }
  }

  lemma {:induction false} RunAfter(e: Setting, s: Progress, t: nat)
    requires Fits(e, s)
    ensures Run(e, s, t + 1) == Run(e, Step(e, s), t)
  {
    if t > 0 {
      RunAfter(e, s, t - 1);
    } else {
      assert Run(e, s, 0) == s;
    }
  }

  lemma {:induction false} RunSum(e: Setting, s: Progress, t: nat, u: nat)
    requires Fits(e, s)
    ensures Run(e, s, t + u) == Run(e, Run(e, s, t), u)
  {
    if u > 0 {
      RunSum(e, s, t, u - 1);
    }
  }

  /** The places found are different, and their darknodes registered. */
  ghost predicate Sound(e: Setting, s: Progress, at: seq<nat>)
  {
    s.Going? && Fits(e, s) && |at| == s.i && Inverse(s.pos, at) &&
    forall y :: 0 <= y < |s.pos| && s.pos[y] != -1 ==> e.oracle(e.nodes[y]) == Registered
  }

  lemma SoundStep(e: Setting, s: Progress, at: seq<nat>) returns (at': seq<nat>)
    requires Sound(e, s, at)
    ensures Step(e, s).Going? ==> Sound(e, Step(e, s), at')
  {
    at' := at;
    if s.i < |e.nodes| && e.oracle(e.nodes[s.x]) == Registered && s.pos[s.x] == -1 {
      VisitNext(s.pos, at, s.x);
      at' := at + [s.x];
    }
  }

  lemma {:induction false} SoundRun(e: Setting, s: Progress, at: seq<nat>, t: nat) returns (at': seq<nat>)
    requires Sound(e, s, at)
    ensures Run(e, s, t).Going? ==> Sound(e, Run(e, s, t), at')
  {
    if t == 0 {
      at' := at;
    } else {
      at' := SoundRun(e, s, at, t - 1);
      if Run(e, s, t - 1).Going? {
        at' := SoundStep(e, Run(e, s, t - 1), at');
      }
    }
  }

  /** With an unregistered darknode and no failure there is no end. */
  lemma {:induction false} NeverEnds(e: Setting, s: Progress, at: seq<nat>, u: nat, t: nat)
    requires Sound(e, s, at) && u < |e.nodes| && e.oracle(e.nodes[u]) == NotRegistered
    requires forall y :: 0 <= y < |e.nodes| ==> e.oracle(e.nodes[y]) != Failed
    ensures Run(e, s, t).Going?
  {
    if t > 0 {
      NeverEnds(e, s, at, u, t - 1);
      var s' := Run(e, s, t - 1);
      var at' := SoundRun(e, s, at, t - 1);
      if s'.i == |e.nodes| {
        AllVisited(s'.pos, at');
      }
    }
  }

  /** With a failure, or with registered darknodes only, every round ends. */
  lemma {:induction false} RoundsEnd(e: Setting, s: Progress, at: seq<nat>) returns (t: nat)
    requires Sound(e, s, at)
    requires AnyFailed(e.nodes, e.oracle) || AllRegistered(e.nodes, e.oracle)
    ensures Run(e, s, t).Ended?
    decreases |e.nodes| - s.i
  {
    if s.i == |e.nodes| {
      t := 1;
      assert Run(e, s, 0) == s;
      return;
    }
    var y := StoppingPlace(e, s, at);
    t := WalkTo(e, s, y);
    var s' := Run(e, s, t);
    if s'.Going? {
      var at' := SoundRun(e, s, at, t);
      var u := RoundsEnd(e, s', at');
      RunSum(e, s, t, u);
      t := t + u;
    }
  }

  lemma StoppingPlace(e: Setting, s: Progress, at: seq<nat>) returns (y: nat)
    requires Sound(e, s, at) && s.i < |e.nodes|
    requires AnyFailed(e.nodes, e.oracle) || AllRegistered(e.nodes, e.oracle)
    ensures Stops(e, s.pos, y)
  {
    if z :| 0 <= z < |e.nodes| && e.oracle(e.nodes[z]) == Failed {
      y := z;
    } else {
      y := FreePlace(s.pos, at);
    }
  }

  // ----- the order in which the places are taken

  /** The place d steps on from start, going round. */
  ghost function Place(start: int, d: nat, n: nat): (y: nat)
    requires n > 0
    ensures y < n
  {
    ModBelow(start + d, n);
    (start + d) % n
  }

  /** y is the first place, going round from start, that is not taken. */
  ghost predicate FirstFree(taken: seq<nat>, n: nat, start: int, y: nat)
    requires n > 0
  {
    y !in taken && exists d: nat :: y == Place(start, d, n) && forall c: nat :: c < d ==> Place(start, c, n) in taken
  }

  /** The rounds take the places at: the first from the epoch value on, and each
      next one from an epoch value further on. */
  ghost predicate Rounded(at: seq<nat>, n: nat, epoch: int)
    requires n > 0
  {
    forall k :: 0 <= k < |at| ==> FirstFree(at[..k], n, if k == 0 then epoch else at[k - 1] + epoch, at[k])
  }

  /** The pods are dealt out round by round. */
  ghost predicate Dealt(pods: seq<seq<Address>>, nodes: seq<Address>, at: seq<nat>)
    requires |pods| > 0
  {
    && |at| == |nodes| && (forall k, l :: 0 <= k < l < |at| ==> at[k] != at[l])
    && forall k: nat :: k < |at| ==> DealtAt(pods, nodes, at, k)
  }

  ghost predicate DealtAt(pods: seq<seq<Address>>, nodes: seq<Address>, at: seq<nat>, k: nat)
    requires |pods| > 0 && k < |at|
  {
    && at[k] < |nodes| && 0 <= k % |pods| < |pods| && 0 <= k / |pods| < |pods[k % |pods|]|
    && pods[k % |pods|][k / |pods|] == nodes[at[k]]
  }

  lemma RoundedNext(at: seq<nat>, n: nat, epoch: int, x: nat)
    requires n > 0 && Rounded(at, n, epoch)
    requires FirstFree(at, n, if at == [] then epoch else at[|at| - 1] + epoch, x)
    ensures Rounded(at + [x], n, epoch)
  {
    hide FirstFree;
    var at' := at + [x];
    forall k | 0 <= k < |at'|
      ensures FirstFree(at'[..k], n, if k == 0 then epoch else at'[k - 1] + epoch, at'[k])
    {
      assert at'[..k] == at[..k];
      assert at[..|at|] == at;
    }
  }

  /** A place at which a walk goes on. */
  ghost predicate Passed(e: Setting, pos: seq<int>, y: nat)
    requires |pos| == |e.nodes|
  {
    y < |pos| && (e.oracle(e.nodes[y]) == NotRegistered || pos[y] != -1)
  }

  /** Places that a walk has passed in a list of registered darknodes are taken. */
  lemma WalkedPast(e: Setting, pos: seq<int>, at: seq<nat>, start: int, d: nat, x: nat)
    requires |pos| == |e.nodes| > 0 && Inverse(pos, at) && AllRegistered(e.nodes, e.oracle)
    requires x == Place(start, d, |pos|) && pos[x] == -1
    requires forall c: nat :: c < d ==> Passed(e, pos, Place(start, c, |pos|))
    ensures FirstFree(at, |pos|, start, x)
  {
    hide Place;
    forall c: nat | c < d
      ensures Place(start, c, |pos|) in at
    {
      var y := Place(start, c, |pos|);
      assert Passed(e, pos, y);
      assert at[pos[y]] == y;
    }
  }

  // ----- the whole of pods

  function SettingOf(nodes: seq<Address>, oracle: Address -> Answer, minimum: nat, epoch: int): Setting
    requires 1 <= minimum
  {
    DivNonNeg(|nodes|, minimum);
    Setting(nodes, oracle, |nodes| / minimum, epoch)
  }

  ghost function Begin(e: Setting): (s: Progress)
    requires |e.nodes| > 0 && e.count > 0
    ensures Fits(e, s)
  {
    ModBelow(e.epoch, |e.nodes|);
    Going(seq(|e.nodes|, _ => -1), seq(e.count, _ => []), e.epoch % |e.nodes|, 0)
  }

  /** What pods has come to after t questions to the registry. */
  ghost function PodsAfter(nodes: seq<Address>, oracle: Address -> Answer, minimum: nat, epoch: int, t: nat): Progress
  {
    if minimum == 0 then Ended(Panic)
    else if |nodes| < minimum then Ended(Error(DegradedPod))
    else
      PodCount(|nodes|, minimum);
      var e := SettingOf(nodes, oracle, minimum, epoch);
      Run(e, Begin(e), t)
  }

  ghost predicate AnyFailed(nodes: seq<Address>, oracle: Address -> Answer)
  {
    exists y :: 0 <= y < |nodes| && oracle(nodes[y]) == Failed
  }

  ghost predicate AllRegistered(nodes: seq<Address>, oracle: Address -> Answer)
  {
    forall y :: 0 <= y < |nodes| ==> oracle(nodes[y]) == Registered
  }

  /** When pods ends, for every list, registry and epoch: at once, or because the
      registry fails for one darknode, or because all are registered. */
  ghost predicate Finite(nodes: seq<Address>, oracle: Address -> Answer, minimum: nat)
  {
    minimum == 0 || |nodes| < minimum || AnyFailed(nodes, oracle) || AllRegistered(nodes, oracle)
  }

  lemma PodsEndIff(nodes: seq<Address>, oracle: Address -> Answer, minimum: nat, epoch: int)
    ensures (exists t: nat :: PodsAfter(nodes, oracle, minimum, epoch, t).Ended?) <==> Finite(nodes, oracle, minimum)
  {
    if minimum == 0 || |nodes| < minimum {
      assert PodsAfter(nodes, oracle, minimum, epoch, 0).Ended?;
      return;
    }
    PodCount(|nodes|, minimum);
    var e := SettingOf(nodes, oracle, minimum, epoch);
    assert Sound(e, Begin(e), []);
    if Finite(nodes, oracle, minimum) {
      var t := RoundsEnd(e, Begin(e), []);
      assert PodsAfter(nodes, oracle, minimum, epoch, t).Ended?;
    } else {
      var u :| 0 <= u < |nodes| && oracle(nodes[u]) != Registered;
      forall t: nat ensures PodsAfter(nodes, oracle, minimum, epoch, t).Going? {
        NeverEnds(e, Begin(e), [], u, t);
      }
    }
  }

  /** Two darknodes of which the second is not registered: pods never returns,
      whatever the epoch. */
  lemma TwoDarknodes(oracle: Address -> Answer, epoch: int, t: nat)
    requires oracle(0) == Registered && oracle(1) == NotRegistered
    ensures PodsAfter([0, 1], oracle, 1, epoch, t).Going?
  {
    var nodes := [0, 1];
    assert nodes[1] == 1;
    PodsEndIff(nodes, oracle, 1, epoch);
    assert !Finite(nodes, oracle, 1);
  }

  /** Walks from start to the next place that stops the walk. */
  method Probe(e: Setting, pos: array<int>, start: nat, ghost pods: seq<seq<Address>>, ghost i: nat, ghost s0: Progress)
    returns (ok: bool, x: nat, ghost d: nat)
    requires pos.Length == |e.nodes| && Fits(e, Going(pos[..], pods, start, i)) && i < |e.nodes|
    requires Fits(e, s0) && Reaches(e, s0, Going(pos[..], pods, start, i))
    requires exists y :: Stops(e, pos[..], y)
    ensures ok ==> x < pos.Length && pos[x] == -1 && e.oracle(e.nodes[x]) == Registered
    ensures ok ==> Reaches(e, s0, Going(pos[..], pods, x, i))
    ensures ok ==> x == Place(start, d, pos.Length)
    ensures ok ==> forall c: nat :: c < d ==> Passed(e, pos[..], Place(start, c, pos.Length))
    ensures !ok ==> AnyFailed(e.nodes, e.oracle) && Reaches(e, s0, Ended(Error(RegistryFailed)))
  {
    hide Reaches, Run, Place;
    var n := pos.Length;
    ghost var f :| Stops(e, pos[..], f);
    x := start;
    d := 0;
    PlaceStart(start, n);
    var answer := e.oracle(e.nodes[x]);
    if answer == Failed {
      ReachesNext(e, s0, Going(pos[..], pods, x, i));
      return false, x, d;
    }
    while answer == NotRegistered || pos[x] != -1
      invariant x < n && answer == e.oracle(e.nodes[x]) != Failed
      invariant Reaches(e, s0, Going(pos[..], pods, x, i))
      invariant x == Place(start, d, n) && forall c: nat :: c < d ==> Passed(e, pos[..], Place(start, c, n))
      decreases Distance(x, f, n)
    {
      CloserBy(x, f, n);
      NextPlace(start, d, n);
      d := d + 1;
      ReachesNext(e, s0, Going(pos[..], pods, x, i));
      x := (x + 1) % n;
      answer := e.oracle(e.nodes[x]);
      if answer == Failed {
        ReachesNext(e, s0, Going(pos[..], pods, x, i));
        return false, x, d;
      }
    }
    return true, x, d;
  }

  /** The pods of an epoch, whenever the source returns at all. */
  method AssignPods(nodes: seq<Address>, oracle: Address -> Answer, minimum: nat, epoch: int) returns (r: PodsResult)
    requires Finite(nodes, oracle, minimum)
    ensures exists t: nat :: PodsAfter(nodes, oracle, minimum, epoch, t) == Ended(r)
    ensures r == Panic <==> minimum == 0
    ensures r == Error(DegradedPod) <==> 1 <= minimum && |nodes| < minimum
    ensures r == Error(RegistryFailed) <==> 1 <= minimum <= |nodes| && AnyFailed(nodes, oracle)
    ensures r.Pods? <==> 1 <= minimum <= |nodes| && AllRegistered(nodes, oracle)
    ensures r.Pods? ==> Members(r.pods) == multiset(nodes)
    ensures r.Pods? ==> |r.pods| == |nodes| / minimum
    ensures r.Pods? ==> forall j :: 0 <= j < |r.pods| ==> |r.pods[j]| >= minimum
    ensures r.Pods? ==> forall j, l :: 0 <= j < |r.pods| && 0 <= l < |r.pods| ==> |r.pods[j]| <= |r.pods[l]| + 1
    ensures r.Pods? ==> |r.pods| > 0 && exists at :: Dealt(r.pods, nodes, at) && Rounded(at, |nodes|, epoch)
  {
    hide Placed, Inverse, Members, Waiting, Rounds, Run, Dealt, Rounded;
    if minimum == 0 {
      assert PodsAfter(nodes, oracle, minimum, epoch, 0) == Ended(Panic);
      return Panic;
    }
    var n := |nodes|;
    if n < minimum {
      assert PodsAfter(nodes, oracle, minimum, epoch, 0) == Ended(Error(DegradedPod));
      return Error(DegradedPod);
    }
    PodCount(n, minimum);
    var e := SettingOf(nodes, oracle, minimum, epoch);
    r := Assign(e, minimum);
    ghost var t: nat :| Run(e, Begin(e), t) == Ended(r);
    assert PodsAfter(nodes, oracle, minimum, epoch, t) == Ended(r);
  }

  /** All rounds. */
  method Assign(e: Setting, minimum: nat) returns (r: PodsResult)
    requires 1 <= minimum <= |e.nodes| && 1 <= e.count && e.count * minimum <= |e.nodes|
    requires AnyFailed(e.nodes, e.oracle) || AllRegistered(e.nodes, e.oracle)
    ensures Reaches(e, Begin(e), Ended(r))
    ensures r == Error(RegistryFailed) <==> AnyFailed(e.nodes, e.oracle)
    ensures r.Pods? <==> AllRegistered(e.nodes, e.oracle)
    ensures r.Pods? || r == Error(RegistryFailed)
    ensures r.Pods? ==> Members(r.pods) == multiset(e.nodes) && |r.pods| == e.count
    ensures r.Pods? ==> exists at :: Dealt(r.pods, e.nodes, at) && Rounded(at, |e.nodes|, e.epoch)
    ensures r.Pods? ==> forall j :: 0 <= j < |r.pods| ==> |r.pods[j]| >= minimum
    ensures r.Pods? ==> forall j, l :: 0 <= j < |r.pods| && 0 <= l < |r.pods| ==> |r.pods[j]| <= |r.pods[l]| + 1
  {
    hide Kept, Sound, Members, Run, Reaches, Step, Stops, AnyFailed, AllRegistered, Rounded, FirstFree, Dealt, Passed, Place;
    var n, count := |e.nodes|, e.count;
    var x: nat := e.epoch % n;
    var pos := new int[n](_ => -1);
    var pods: seq<seq<Address>> := seq(count, _ => []);
    ghost var at: seq<nat> := [];
    ghost var s0 := Begin(e);
    assert Going(pos[..], pods, x, 0) == s0;
    ReachesSelf(e, s0);
    KeptStart(e);
    RoundedNone(n, e.epoch);
    ghost var from := e.epoch;
    for i := 0 to n
      invariant |at| == i && x < n && |pods| == count
      invariant Kept(e, Going(pos[..], pods, x, i), at)
      invariant x == from % n && from == if i == 0 then e.epoch else at[i - 1] + e.epoch
      invariant AllRegistered(e.nodes, e.oracle) ==> Rounded(at, n, e.epoch)
      invariant Reaches(e, s0, Going(pos[..], pods, x, i))
    {
      KeptSound(e, Going(pos[..], pods, x, i), at);
      ghost var f := StoppingPlace(e, Going(pos[..], pods, x, i), at);
      ghost var start := x;
      var ok;
      ghost var d;
      ok, x, d := Probe(e, pos, x, pods, i, s0);
      if !ok {
        NotBoth(e);
        return Error(RegistryFailed);
      }
      ghost var before := pos[..];
      if AllRegistered(e.nodes, e.oracle) {
        RoundTaken(e, before, at, start, from, d, x);
      }
      KeptMoved(e, Going(before, pods, start, i), at, x);
      KeptStep(e, Going(before, pods, x, i), at);
      StepPlaces(e, Going(before, pods, x, i));
      ReachesNext(e, s0, Going(before, pods, x, i));
      pos[x] := i;
      assert pos[..] == before[x := i];
      var podId := i % count;
      pods := pods[podId := pods[podId] + [e.nodes[x]]];
      at := at + [x];
      from := x + e.epoch;
      ModBelow(x + e.epoch, n);
      x := (x + e.epoch) % n;
    }
    KeptDealt(e, Going(pos[..], pods, x, n), at);
    StepEnds(e, Going(pos[..], pods, x, n));
    ReachesNext(e, s0, Going(pos[..], pods, x, n));
    NotBoth(e);
    KeptEnd(e, Going(pos[..], pods, x, n), at, minimum);
    return Pods(pods);
  }

  /** What the rounds keep: the places are different and registered, the pods are
      filled in turn, and no darknode is lost. */
  ghost predicate Kept(e: Setting, s: Progress, at: seq<nat>)
  {
    && Sound(e, s, at) && Placed(s.pods, e.nodes, at, e.count)
    && Members(s.pods) + Waiting(e.nodes, s.pos, |e.nodes|) == multiset(e.nodes)
  }

  lemma KeptStart(e: Setting)
    requires |e.nodes| > 0 && e.count > 0
    ensures Kept(e, Begin(e), [])
  {
    var s := Begin(e);
    WalkStart(e.nodes, s.pods, s.pos, e.count);
  }

  lemma RoundedNone(n: nat, epoch: int)
    requires n > 0
    ensures Rounded([], n, epoch)
  {
  }

  lemma KeptDealt(e: Setting, s: Progress, at: seq<nat>)
    requires Kept(e, s, at) && s.i == |e.nodes|
    ensures |s.pods| > 0 && Dealt(s.pods, e.nodes, at)
  {
    forall k: nat | k < |at|
      ensures DealtAt(s.pods, e.nodes, at, k)
    {
      assert InPod(s.pods, e.nodes, at, e.count, k);
    }
  }

  /** The place that a walk ends at is the one that its round takes. */
  lemma RoundTaken(e: Setting, pos: seq<int>, at: seq<nat>, start: nat, from: int, d: nat, x: nat)
    requires |pos| == |e.nodes| > 0 && AllRegistered(e.nodes, e.oracle) && Rounded(at, |pos|, e.epoch)
    requires Inverse(pos, at) && start == from % |pos| && from == (if at == [] then e.epoch else at[|at| - 1] + e.epoch)
    requires x == Place(start, d, |pos|) && pos[x] == -1
    requires forall c: nat :: c < d ==> Passed(e, pos, Place(start, c, |pos|))
    ensures Rounded(at + [x], |pos|, e.epoch)
  {
    hide FirstFree, Rounded, Inverse, AllRegistered, Place, Passed;
    SameStart(from, start, d, |pos|);
    forall c: nat | c < d
      ensures Passed(e, pos, Place(from, c, |pos|))
    {
      SameStart(from, start, c, |pos|);
    }
    WalkedPast(e, pos, at, from, d, x);
    RoundedNext(at, |pos|, e.epoch, x);
  }

  lemma SameStart(from: int, start: int, d: nat, n: nat)
    requires n > 0 && start == from % n
    ensures Place(start, d, n) == Place(from, d, n)
  {
    DivTimesMod(from, n);
    DivTimesMod(start + d, n);
    Distribute(n, from / n, (start + d) / n);
    DivModIs(from + d, from / n + (start + d) / n, (start + d) % n, n);
  }

  lemma StepPlaces(e: Setting, s: Progress)
    requires s.Going? && Fits(e, s) && s.i < |e.nodes| && s.pos[s.x] == -1 && e.oracle(e.nodes[s.x]) == Registered
    ensures 0 <= s.i % e.count < e.count && 0 <= (s.x + e.epoch) % |e.nodes| < |e.nodes|
    ensures Step(e, s) == Going(s.pos[s.x := s.i], s.pods[s.i % e.count := s.pods[s.i % e.count] + [e.nodes[s.x]]],
                                (s.x + e.epoch) % |e.nodes|, s.i + 1)
  {
    ModBelow(s.i, e.count);
    ModBelow(s.x + e.epoch, |e.nodes|);
  }

  lemma StepEnds(e: Setting, s: Progress)
    requires s.Going? && Fits(e, s) && s.i == |e.nodes|
    ensures Step(e, s) == Ended(Pods(s.pods))
  {
  }

  lemma NotBoth(e: Setting)
    ensures !(AnyFailed(e.nodes, e.oracle) && AllRegistered(e.nodes, e.oracle))
  {
  }

  lemma KeptSound(e: Setting, s: Progress, at: seq<nat>)
    requires Kept(e, s, at)
    ensures Sound(e, s, at)
  {
  }

  lemma KeptMoved(e: Setting, s: Progress, at: seq<nat>, x: nat)
    requires Kept(e, s, at) && x < |e.nodes|
    ensures Kept(e, s.(x := x), at)
  {
    hide Placed, Inverse, Members, Waiting;
  }

  lemma KeptStep(e: Setting, s: Progress, at: seq<nat>)
    requires Kept(e, s, at) && s.i < |e.nodes| && s.pos[s.x] == -1 && e.oracle(e.nodes[s.x]) == Registered
    ensures Kept(e, Step(e, s), at + [s.x])
  {
    hide Placed, Inverse, Members, Waiting;
    ModBelow(s.i, e.count);
    VisitNext(s.pos, at, s.x);
    PlaceNext(s.pods, e.nodes, at, e.count, s.x);
    MembersAppend(s.pods, s.i % e.count, e.nodes[s.x]);
    OneLessWaiting(e.nodes, s.pos, s.x, s.i, |e.nodes|);
  }

  lemma KeptEnd(e: Setting, s: Progress, at: seq<nat>, minimum: nat)
    requires Kept(e, s, at) && s.i == |e.nodes| && 1 <= minimum && e.count * minimum <= |e.nodes|
    ensures AllRegistered(e.nodes, e.oracle) && Members(s.pods) == multiset(e.nodes)
    ensures forall j :: 0 <= j < |s.pods| ==> |s.pods[j]| >= minimum
    ensures forall j, l :: 0 <= j < |s.pods| && 0 <= l < |s.pods| ==> |s.pods[j]| <= |s.pods[l]| + 1
  {
    hide Placed, Inverse, Members, Waiting;
    AllVisited(s.pos, at);
    Finished(e.nodes, s.pods, s.pos, at, e.count, minimum);
  }

  // ----- a registry that changes its answers

  /** The run when the registry answers step q as registry(q) does. */
  ghost function ChangingRun(e: Setting, registry: nat -> Address -> Answer, s: Progress, t: nat): (s': Progress)
    requires Fits(e, s)
    ensures Fits(e, s')
  {
    if t == 0 then s else Step(e.(oracle := registry(t - 1)), ChangingRun(e, registry, s, t - 1))
  }

  /** With the same answers throughout it is the run above. */
  lemma {:induction false} UnchangingRun(e: Setting, s: Progress, t: nat)
    requires Fits(e, s)
    ensures ChangingRun(e, _ => e.oracle, s, t) == Run(e, s, t)
  {
    if t > 0 {
      UnchangingRun(e, s, t - 1);
      assert e.(oracle := e.oracle) == e;
    }
  }

  ghost function Lenient(e: Setting): Setting
  {
    e.(oracle := _ => Registered)
  }

  lemma {:induction false} ChangingKept(e: Setting, registry: nat -> Address -> Answer, t: nat) returns (at: seq<nat>)
    requires |e.nodes| > 0 && e.count > 0
    ensures var s := ChangingRun(e, registry, Begin(e), t);
            s.Going? ==> Kept(Lenient(e), s, at)
  {
    if t == 0 {
      at := [];
      KeptStart(Lenient(e));
    } else {
      at := ChangingKept(e, registry, t - 1);
      var s := ChangingRun(e, registry, Begin(e), t - 1);
      if s.Going? {
        at := KeptUnder(e, registry(t - 1), s, at);
      }
    }
  }

  /** A step keeps what the rounds keep, whatever the registry says. */
  lemma KeptUnder(e: Setting, oracle: Address -> Answer, s: Progress, at: seq<nat>) returns (at': seq<nat>)
    requires s.Going? && Fits(e, s) && Kept(Lenient(e), s, at)
    ensures var s' := Step(e.(oracle := oracle), s);
            s'.Going? ==> Kept(Lenient(e), s', at')
  {
    hide Kept;
    at' := at;
    var o := e.(oracle := oracle);
    if s.i < |e.nodes| {
      if oracle(e.nodes[s.x]) == Registered && s.pos[s.x] == -1 {
        StepPlaces(o, s);
        StepPlaces(Lenient(e), s);
        KeptStep(Lenient(e), s, at);
        at' := at + [s.x];
      } else if oracle(e.nodes[s.x]) != Failed {
        ModBelow(s.x + 1, |e.nodes|);
        KeptMoved(Lenient(e), s, at, (s.x + 1) % |e.nodes|);
      }
    }
  }

  /** However the registry changes its answers on the way: if pods are returned,
      each darknode is in exactly one of them, with the sizes as before; the only
      other end is a registry failure. */
  lemma ChangingRegistry(nodes: seq<Address>, registry: nat -> Address -> Answer, minimum: nat, epoch: int, t: nat)
    requires 1 <= minimum <= |nodes|
    ensures
      var e := SettingOf(nodes, registry(0), minimum, epoch);
      |e.nodes| > 0 && e.count > 0 &&
      match ChangingRun(e, registry, Begin(e), t)
      case Going(_, _, _, _) => true
      case Ended(r) =>
        || r == Error(RegistryFailed)
        || (&& r.Pods? && Members(r.pods) == multiset(nodes) && |r.pods| == |nodes| / minimum
            && (forall j :: 0 <= j < |r.pods| ==> |r.pods[j]| >= minimum)
            && forall j, l :: 0 <= j < |r.pods| && 0 <= l < |r.pods| ==> |r.pods[j]| <= |r.pods[l]| + 1)
    decreases t
  {
    hide Kept, Members;
    PodCount(|nodes|, minimum);
    var e := SettingOf(nodes, registry(0), minimum, epoch);
    if t > 0 {
      ChangingRegistry(nodes, registry, minimum, epoch, t - 1);
      var s := ChangingRun(e, registry, Begin(e), t - 1);
      if s.Going? && s.i == |nodes| {
        var at := ChangingKept(e, registry, t - 1);
        KeptEnd(Lenient(e), s, at, minimum);
      }
    }
  }

  lemma PodCount(n: nat, minimum: nat)
    requires 1 <= minimum <= n
    ensures 1 <= n / minimum && (n / minimum) * minimum <= n
  {
    DivTimesMod(n, minimum);
    if n / minimum < 1 {
      MulLe(n / minimum, 0, minimum);
    }
  }

  lemma WalkStart(nodes: seq<Address>, pods: seq<seq<Address>>, pos: seq<int>, count: nat)
    requires count > 0 && |pods| == count && |pos| == |nodes|
    requires (forall j :: 0 <= j < count ==> pods[j] == []) && forall x :: 0 <= x < |pos| ==> pos[x] == -1
    ensures Inverse(pos, []) && Placed(pods, nodes, [], count)
    ensures Members(pods) + Waiting(nodes, pos, |nodes|) == multiset(nodes)
  {
    forall j: nat | j < count ensures Rounds(0, count, j) == 0 {
      RoundsStart(count, j);
    }
    MembersEmpty(pods);
    AllWaiting(nodes, pos, |nodes|);
    assert nodes[..|nodes|] == nodes;
  }

  lemma VisitNext(pos: seq<int>, at: seq<nat>, x: nat)
    requires Inverse(pos, at) && x < |pos| && pos[x] == -1
    ensures Inverse(pos[x := |at|], at + [x]) && Visits(at + [x], |pos|)
  {
  }

  lemma Finished(nodes: seq<Address>, pods: seq<seq<Address>>, pos: seq<int>, at: seq<nat>, count: nat, minimum: nat)
    requires |at| == |nodes| == |pos| && Inverse(pos, at) && Placed(pods, nodes, at, count)
    requires Members(pods) + Waiting(nodes, pos, |nodes|) == multiset(nodes)
    requires minimum >= 1 && count * minimum <= |nodes|
    ensures Members(pods) == multiset(nodes)
    ensures forall j :: 0 <= j < count ==> |pods[j]| >= minimum
    ensures forall j, l :: 0 <= j < count && 0 <= l < count ==> |pods[j]| <= |pods[l]| + 1
  {
    AllVisited(pos, at);
    NoneWaiting(nodes, pos, |nodes|);
    var n := |nodes|;
    DivTimesMod(n, count);
    if n / count < minimum {
      MulLe(n / count + 1, minimum, count);
      Distribute(count, n / count, 1);
    }
    forall j: nat | j < count ensures minimum <= n / count <= |pods[j]| <= n / count + 1 {
      assert |pods[j]| == Rounds(n, count, j);
    }
  }

  /** As many visits as places reach every place. */
  lemma AllVisited(pos: seq<int>, at: seq<nat>)
    requires Inverse(pos, at) && |at| == |pos|
    ensures forall x :: 0 <= x < |pos| ==> pos[x] != -1
  {
    forall x | 0 <= x < |pos| ensures pos[x] != -1 {
      if pos[x] == -1 {
        VisitNext(pos, at, x);
        var s := ListedPlaces(at + [x], |at| + 1);
        ListedSize(at + [x], |pos|, |at| + 1);
        BelowSize(s, |pos|);
      }
    }
  }

  ghost function ListedPlaces(at: seq<nat>, m: nat): set<int>
    requires m <= |at|
  {
    if m == 0 then {} else ListedPlaces(at, m - 1) + {at[m - 1] as int}
  }

  lemma {:induction false} ListedSize(at: seq<nat>, n: nat, m: nat)
    requires Visits(at, n) && m <= |at|
    ensures |ListedPlaces(at, m)| == m
    ensures forall v :: v in ListedPlaces(at, m) ==> 0 <= v < n && exists k :: 0 <= k < m && at[k] == v
    decreases m
  {
    if m > 0 {
      ListedSize(at, n, m - 1);
      assert at[m - 1] !in ListedPlaces(at, m - 1);
    }
  }
}
