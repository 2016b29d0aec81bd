/** The matcher decides the plaintext predicate: from fragments to verdict,
    through any run of the join protocol. */
module MatchingSafety {
  import opened Options
  import opened Words
  import opened PrimeField
  import opened Shamir
  import opened Joining
  import opened Smpc
  import opened SmpcSafety
  import opened Orders
  import opened Matching

  // ----- the plaintext predicate

  /** co * 10^exp compared as (exp, co) pairs. */
  predicate AtLeast(a: CoExp, b: CoExp)
  {
    a.exp > b.exp || (a.exp == b.exp && a.co >= b.co)
  }

  predicate OrdersMatch(buy: Order, sell: Order)
  {
    && buy.settlement == sell.settlement
    && buy.tokens == sell.tokens
    && AtLeast(buy.price, sell.price)
    && AtLeast(buy.volume, sell.minimumVolume)
    && AtLeast(sell.volume, buy.minimumVolume)
  }

  predicate Small(v: CoExp)
  {
    v.co < PRIME / 2 && v.exp < PRIME / 2
  }

  predicate InRange(o: Order)
  {
    o.tokens < PRIME && Small(o.price) && Small(o.volume) && Small(o.minimumVolume)
  }

  /** The part of the predicate that is still open when a stage is entered. */
  predicate OpenAt(buy: Order, sell: Order, stage: nat)
  {
    && (stage <= STAGE_PRICE_EXP ==> AtLeast(buy.price, sell.price))
    && (stage == STAGE_PRICE_CO ==> buy.price.co >= sell.price.co)
    && (stage <= STAGE_BUY_VOLUME_EXP ==> AtLeast(buy.volume, sell.minimumVolume))
    && (stage == STAGE_BUY_VOLUME_CO ==> buy.volume.co >= sell.minimumVolume.co)
    && (stage <= STAGE_SELL_VOLUME_EXP ==> AtLeast(sell.volume, buy.minimumVolume))
    && (stage == STAGE_SELL_VOLUME_CO ==> sell.volume.co >= buy.minimumVolume.co)
    && buy.tokens == sell.tokens
  }

  function LeftValue(buy: Order, sell: Order, stage: nat): Word
    requires IsMatchStage(stage)
  {
    FieldOf(if SellFirst(stage) then sell else buy, LeftField(stage))
  }

  function RightValue(buy: Order, sell: Order, stage: nat): Word
    requires IsMatchStage(stage)
  {
    FieldOf(if SellFirst(stage) then buy else sell, RightField(stage))
  }

  /** The secret a stage joins. */
  function Difference(buy: Order, sell: Order, stage: nat): int
    requires IsMatchStage(stage)
  {
    (LeftValue(buy, sell, stage) - RightValue(buy, sell, stage)) % PRIME
  }

  /** One stage: going on leaves the open part as it was, concluding decides it. */
  lemma StageDecides(buy: Order, sell: Order, stage: nat, values: seq<Word>)
    requires IsMatchStage(stage) && InRange(buy) && InRange(sell)
    requires values == [Difference(buy, sell, stage)]
    ensures
      match Judge(stage, values)
      case Ignore => false
      case GoTo(next) => stage < next && IsMatchStage(next) && (OpenAt(buy, sell, stage) <==> OpenAt(buy, sell, next))
      case Conclude(m) => m <==> OpenAt(buy, sell, stage)
  {
    var a, b := LeftValue(buy, sell, stage), RightValue(buy, sell, stage);
    if stage == STAGE_TOKENS {
      ZeroTest(a, b);
    } else {
      SignTests(a, b);
    }
  }

  // ----- runs of the pipeline

  /** What happens at a stage: an order may have expired when it is entered,
      and its join may be answered or not. That it is answered at most once is
      the protocol's doing: see MatchInRun. */
  datatype Turn = Turn(expired: bool, answer: Option<seq<Word>>)

  /** The verdict given to the callback, if it is called, and the joins made. */
  datatype Run = Run(verdict: Option<bool>, joins: nat)

  function RunFrom(stage: nat, turns: seq<Turn>): Run
    decreases |turns|
  {
    if turns == [] || turns[0].expired || !IsMatchStage(stage) then Run(None, 0)
    else if turns[0].answer.None? then Run(None, 1)
    else
      match Judge(stage, turns[0].answer.value)
      case Ignore => Run(None, 1)
      case Conclude(m) => Run(Some(m), 1)
      case GoTo(next) => var rest := RunFrom(next, turns[1..]); Run(rest.verdict, rest.joins + 1)
  }

  /** Every answer is the secret of the stage it answers. */
  ghost predicate Truthful(buy: Order, sell: Order, stage: nat, turns: seq<Turn>)
    decreases |turns|
  {
    turns != [] && !turns[0].expired && IsMatchStage(stage) && turns[0].answer.Some? ==>
      && turns[0].answer.value == [Difference(buy, sell, stage)]
      && (Judge(stage, turns[0].answer.value).GoTo? ==>
            Truthful(buy, sell, Judge(stage, turns[0].answer.value).stage, turns[1..]))
  }

  /** Every verdict is the plaintext predicate, after at most seven joins. */
  lemma {:induction false} RunDecides(buy: Order, sell: Order, stage: nat, turns: seq<Turn>)
    requires IsMatchStage(stage) && InRange(buy) && InRange(sell) && Truthful(buy, sell, stage, turns)
    ensures RunFrom(stage, turns).joins <= STAGE_TOKENS + 1 - stage
    ensures RunFrom(stage, turns).verdict.Some? ==> (RunFrom(stage, turns).verdict.value <==> OpenAt(buy, sell, stage))
    decreases |turns|
  {
    hide OpenAt, Judge, Difference;
    if turns != [] && !turns[0].expired && turns[0].answer.Some? {
      StageDecides(buy, sell, stage, turns[0].answer.value);
      if Judge(stage, turns[0].answer.value).GoTo? {
        RunDecides(buy, sell, Judge(stage, turns[0].answer.value).stage, turns[1..]);
      }
    }
  }

  /** When no turn is expired or unanswered, a verdict is reached. */
  lemma {:induction false} RunConcludes(buy: Order, sell: Order, stage: nat, turns: seq<Turn>)
    requires IsMatchStage(stage) && InRange(buy) && InRange(sell) && Truthful(buy, sell, stage, turns)
    requires |turns| > STAGE_TOKENS - stage
    requires forall i :: 0 <= i < |turns| ==> !turns[i].expired && turns[i].answer.Some?
    ensures RunFrom(stage, turns).verdict.Some?
    decreases |turns|
  {
    hide OpenAt, Judge, Difference;
    StageDecides(buy, sell, stage, turns[0].answer.value);
    if Judge(stage, turns[0].answer.value).GoTo? {
      RunConcludes(buy, sell, Judge(stage, turns[0].answer.value).stage, turns[1..]);
    }
  }

  // ----- from fragments to honest joins

  ghost function StagePoly(bp: OrderPolys, sp: OrderPolys, stage: nat): seq<int>
    requires IsMatchStage(stage)
    requires |bp(LeftField(stage))| == |sp(RightField(stage))| && |sp(LeftField(stage))| == |bp(RightField(stage))|
  {
    if SellFirst(stage) then PolySub(sp(LeftField(stage)), bp(RightField(stage)))
    else PolySub(bp(LeftField(stage)), sp(RightField(stage)))
  }

  /** The sharing behind the joins of one computation. */
  ghost predicate MatchSharing(polys: Sharing, com: nat, buy: Order, bp: OrderPolys, sell: Order, sp: OrderPolys, K: nat)
  {
    && Shares(bp, buy, K) && Shares(sp, sell, K)
    && forall stage {:trigger JoinId(com, stage)} :: IsMatchStage(stage) ==> polys(JoinId(com, stage)) == [StagePoly(bp, sp, stage)]
  }

  /** The join a node builds from its two fragments holds its share of the
      difference. */
  lemma StageJoinHonest(polys: Sharing, com: Computation, buy: Order, bp: OrderPolys, sell: Order, sp: OrderPolys, K: nat, x: int, stage: nat)
    requires MatchSharing(polys, com.id, buy, bp, sell, sp, K) && 1 <= x < TOP && IsMatchStage(stage)
    requires IsFragment(com.buy, buy, bp, x) && IsFragment(com.sell, sell, sp, x)
    ensures Honest(polys, StageJoin(com, stage))
  {
    hide IsShare, PolySub;
    var join := StageJoin(com, stage);
    var left := ShareOf(if SellFirst(stage) then com.sell else com.buy, LeftField(stage));
    var right := ShareOf(if SellFirst(stage) then com.buy else com.sell, RightField(stage));
    var f := if SellFirst(stage) then sp(LeftField(stage)) else bp(LeftField(stage));
    var g := if SellFirst(stage) then bp(RightField(stage)) else sp(RightField(stage));
    DifferenceShare(left, right, join.shares[0], x, f, g);
    IndexOfShare(left, x, f);
    assert polys(JoinId(com.id, stage)) == [PolySub(f, g)];
  }

  lemma IndexOfShare(s: Share, x: int, f: seq<int>)
    requires IsShare(s, x, f)
    ensures s.index == x
  {
  }

  /** The secret of a stage is the difference of the two orders' values. */
  lemma StageSecret(polys: Sharing, com: nat, buy: Order, bp: OrderPolys, sell: Order, sp: OrderPolys, K: nat, stage: nat)
    requires BoundedSharing(polys, K) && MatchSharing(polys, com, buy, bp, sell, sp, K) && IsMatchStage(stage)
    ensures Secrets(polys, JoinId(com, stage)) == [Difference(buy, sell, stage)]
  {
    assert polys(JoinId(com, stage)) == [StagePoly(bp, sp, stage)];
    assert Secrets(polys, JoinId(com, stage))[0] == StagePoly(bp, sp, stage)[0] % PRIME;
  }

  /** Every answer of the turns was given by a callback of the protocol run. */
  ghost predicate AnsweredBy(events: seq<Event>, com: nat, stage: nat, turns: seq<Turn>)
    decreases |turns|
  {
    turns != [] && !turns[0].expired && IsMatchStage(stage) && turns[0].answer.Some? ==>
      && (exists e :: 0 <= e < |events| && events[e].fired.id == JoinId(com, stage) && events[e].fired.values == turns[0].answer.value)
      && (Judge(stage, turns[0].answer.value).GoTo? ==>
            AnsweredBy(events, com, Judge(stage, turns[0].answer.value).stage, turns[1..]))
  }

  lemma {:induction false} AnswersTruthful(polys: Sharing, com: nat, buy: Order, bp: OrderPolys, sell: Order, sp: OrderPolys, K: nat,
                                           events: seq<Event>, stage: nat, turns: seq<Turn>)
    requires BoundedSharing(polys, K) && MatchSharing(polys, com, buy, bp, sell, sp, K) && HonestEvents(polys, K, events)
    requires AnsweredBy(events, com, stage, turns)
    ensures Truthful(buy, sell, stage, turns)
    decreases |turns|
  {
    hide MatchSharing, Judge, Difference, Secrets;
    if turns != [] && !turns[0].expired && IsMatchStage(stage) && turns[0].answer.Some? {
      StageSecret(polys, com, buy, bp, sell, sp, K, stage);
      if Judge(stage, turns[0].answer.value).GoTo? {
        AnswersTruthful(polys, com, buy, bp, sell, sp, K, events, Judge(stage, turns[0].answer.value).stage, turns[1..]);
      }
    }
  }

  /** A whole resolution: without a join when the settlement layers differ. */
  function Resolution(sameSettlement: bool, turns: seq<Turn>): Run
  {
    if sameSettlement then RunFrom(STAGE_PRICE_EXP, turns) else Run(Some(false), 0)
  }

  function Concluded(com: Computation, isMatch: bool): Computation
  {
    com.(state := if isMatch then Matched else Mismatched, isMatch := isMatch)
  }

  /** The matcher driven by its surroundings, turn by turn: the computations
      handed to the match callback and the joins asked for. */
  method ResolveAll(m: Matcher, com: Computation, turns: seq<Turn>) returns (callbacks: seq<Computation>, joins: nat)
    requires turns != []
    modifies m
    ensures
      var run := Resolution(com.buy.orderSettlement == com.sell.orderSettlement, turns);
      && joins == run.joins
      && callbacks == match run.verdict case None => [] case Some(b) => [Concluded(com, b)]
  {
    callbacks, joins := [], 0;
    var a := m.Resolve(com, turns[0].expired);
    if a.CallBack? {
      callbacks := [a.com];
      return;
    }
    var i, stage := 0, STAGE_PRICE_EXP;
    ghost var whole := RunFrom(STAGE_PRICE_EXP, turns);
    while a.AskJoin? && turns[i].answer.Some?
      invariant 0 <= i < |turns| && callbacks == []
      invariant a.AskJoin? ==> a.stage == stage && !turns[i].expired && IsMatchStage(stage)
      invariant !a.AskJoin? ==> a == Nothing && whole == Run(None, joins)
      invariant a.AskJoin? ==> whole.verdict == RunFrom(stage, turns[i..]).verdict
      invariant a.AskJoin? ==> whole.joins == joins + RunFrom(stage, turns[i..]).joins
      decreases |turns| - i
    {
      joins := joins + 1;
      var values := turns[i].answer.value;
      assert turns[i..][0] == turns[i] && turns[i..][1..] == turns[i + 1..];
      if i + 1 == |turns| && Judge(stage, values).GoTo? {
        return;
      }
      a := m.ResolveValues(values, com, stage, if i + 1 < |turns| then turns[i + 1].expired else false);
      if a.CallBack? {
        callbacks := [a.com];
        return;
      }
      if Judge(stage, values).GoTo? {
        stage := Judge(stage, values).stage;
        i := i + 1;
      } else {
        return;
      }
    }
    if a.AskJoin? {
      joins := joins + 1;
      assert turns[i..][0] == turns[i];
    }
  }

  /** End to end: whatever the splittings, the quorums and the run of the
      protocol, a verdict given to the match callback is the plaintext
      predicate on the two orders, after at most seven joins. */
  lemma EndToEnd(polys: Sharing, K: nat, run: seq<State>, t: nat,
                 com: nat, buy: Order, bp: OrderPolys, sell: Order, sp: OrderPolys, turns: seq<Turn>)
    requires BoundedSharing(polys, K) && IsRun(polys, K, run) && t < |run|
    requires MatchSharing(polys, com, buy, bp, sell, sp, K) && InRange(buy) && InRange(sell)
    requires AnsweredBy(run[t].events, com, STAGE_PRICE_EXP, turns)
    ensures
      var r := Resolution(buy.settlement == sell.settlement, turns);
      r.joins <= 7 && (r.verdict.Some? ==> (r.verdict.value <==> OrdersMatch(buy, sell)))
  {
    hide IsRun, MatchSharing, AnsweredBy, RunFrom;
    Agreement(polys, K, run, t);
    AnswersTruthful(polys, com, buy, bp, sell, sp, K, run[t].events, STAGE_PRICE_EXP, turns);
    RunDecides(buy, sell, STAGE_PRICE_EXP, turns);
  }

  // ----- the matcher in a run of the protocol

  /** The call that the join of a stage became, if it was made, has that join.
      Calls have numbers, and a callback is known by the number of its call. */
  ghost predicate CallsMade(calls: seq<Call>, com: Computation, numbers: nat -> nat)
  {
    forall stage: nat :: IsMatchStage(stage) && numbers(stage) < |calls| ==>
      calls[numbers(stage)].join == StageJoin(com, stage)
  }

  /** What the protocol delivers to a stage is the secret of the stage, and it is
      delivered once. */
  lemma Delivery(polys: Sharing, K: nat, run: seq<State>, t: nat, com: Computation, numbers: nat -> nat,
                 buy: Order, bp: OrderPolys, sell: Order, sp: OrderPolys, e: nat, stage: nat)
    requires BoundedSharing(polys, K) && IsRun(polys, K, run) && t < |run|
    requires MatchSharing(polys, com.id, buy, bp, sell, sp, K) && CallsMade(run[t].calls, com, numbers)
    requires e < |run[t].events| && IsMatchStage(stage) && run[t].events[e].fired.callback == numbers(stage)
    ensures run[t].events[e].fired.values == [Difference(buy, sell, stage)]
    ensures forall d :: 0 <= d < |run[t].events| && d != e ==> run[t].events[d].fired.callback != numbers(stage)
    ensures forall other: nat :: IsMatchStage(other) && numbers(other) == numbers(stage) ==> other == stage
  {
    hide IsRun, Difference, MatchSharing;
    RunInv(polys, K, run, t);
    Agreement(polys, K, run, t);
    StageSecret(polys, com.id, buy, bp, sell, sp, K, stage);
    assert FiredRight(run[t].calls, run[t].events[e]);
  }

  ghost predicate Delivered(events: seq<Event>, callback: nat)
  {
    exists e :: 0 <= e < |events| && events[e].fired.callback == callback
  }

  lemma DeliveredLater(events: seq<Event>, k: nat, callback: nat)
    requires k < |events|
    ensures Delivered(events[..k + 1], callback) <==> Delivered(events[..k], callback) || events[k].fired.callback == callback
  {
    assert events[..k + 1] == events[..k] + [events[k]];
    if Delivered(events[..k], callback) {
      var e :| 0 <= e < k && events[..k][e].fired.callback == callback;
      assert events[..k + 1][e].fired.callback == callback;
    }
    if events[k].fired.callback == callback {
      assert events[..k + 1][k].fired.callback == callback;
    }
  }

  /** A resolution under way: the stages asked for so far, the one that is still
      waiting for its answer, and what was handed to the match callback. */
  ghost predicate Ongoing(buy: Order, sell: Order, com: Computation, numbers: nat -> nat, delivered: seq<Event>,
                          asked: seq<nat>, waiting: Option<nat>, callbacks: seq<Computation>)
  {
    && (forall i :: 0 <= i < |asked| ==> IsMatchStage(asked[i]))
    && (forall i, j :: 0 <= i < j < |asked| ==> asked[i] < asked[j])
    && (forall i :: 0 <= i < |asked| && waiting != Some(asked[i]) ==> Delivered(delivered, numbers(asked[i])))
    && (waiting.Some? ==>
          && asked != [] && waiting.value == asked[|asked| - 1] && callbacks == []
          && (OrdersMatch(buy, sell) <==> OpenAt(buy, sell, waiting.value)))
    && (callbacks == [] || callbacks == [Concluded(com, OrdersMatch(buy, sell))])
  }

  lemma {:induction false} AskedCount(asked: seq<nat>)
    requires forall i :: 0 <= i < |asked| ==> IsMatchStage(asked[i])
    requires forall i, j :: 0 <= i < j < |asked| ==> asked[i] < asked[j]
    ensures asked != [] ==> |asked| <= asked[|asked| - 1]
    ensures |asked| <= 7
  {
    if |asked| > 1 {
      AskedCount(asked[..|asked| - 1]);
    }
  }

  // ----- how far a resolution gets

  /** The first delivery to this callback at or after place k. */
  ghost predicate IsFirst(events: seq<Event>, k: nat, callback: nat, d: nat)
  {
    k <= d < |events| && events[d].fired.callback == callback && NoneBetween(events, k, d, callback)
  }

  ghost predicate NoneBetween(events: seq<Event>, k: nat, n: nat, callback: nat)
  {
    forall e :: k <= e < n <= |events| ==> events[e].fired.callback != callback
  }

  /** One stage led to the next: the first answer after it was asked says so, and
      no order had expired by then. */
  ghost predicate Advanced(events: seq<Event>, numbers: nat -> nat, expired: nat -> bool, stage: nat, k: nat, stage': nat, k': nat)
  {
    && k < k' && IsFirst(events, k, numbers(stage), k' - 1) && !expired(k')
    && Judge(stage, events[k' - 1].fired.values) == GoTo(stage')
  }

  /** The stages that were asked for, each with the number of deliveries before. */
  ghost predicate Course(events: seq<Event>, numbers: nat -> nat, expired: nat -> bool, stages: seq<nat>, at: seq<nat>)
  {
    && |at| == |stages|
    && (stages != [] ==> stages[0] == STAGE_PRICE_EXP && at[0] == 0 && !expired(0))
    && (forall i :: 0 <= i < |stages| - 1 ==> Advanced(events, numbers, expired, stages[i], at[i], stages[i + 1], at[i + 1]))
  }

  /** How it stands after n deliveries: the last stage that was asked for has had
      no answer, or its first answer concluded, or an order had expired. */
  ghost predicate Standing(events: seq<Event>, n: nat, numbers: nat -> nat, expired: nat -> bool, com: Computation, stages: seq<nat>, at: seq<nat>,
                           callbacks: seq<Computation>, store: map<nat, Computation>, store': map<nat, Computation>)
  {
    if com.buy.orderSettlement != com.sell.orderSettlement then
      stages == [] && callbacks == [Concluded(com, false)] && store' == store[com.id := Concluded(com, false)]
    else if stages == [] then
      expired(0) && Rejects(com, callbacks, store, store')
    else
      && |at| == |stages| && at[|at| - 1] <= n <= |events|
      && (Unanswered(events, n, numbers, stages, at, callbacks, store, store')
          || WasAnswered(events, n, numbers, expired, com, stages[|stages| - 1], at[|at| - 1], callbacks, store, store'))
  }

  ghost predicate Rejects(com: Computation, callbacks: seq<Computation>, store: map<nat, Computation>, store': map<nat, Computation>)
  {
    callbacks == [] && store' == store[com.id := com.(state := Rejected)]
  }

  ghost predicate Unanswered(events: seq<Event>, n: nat, numbers: nat -> nat, stages: seq<nat>, at: seq<nat>,
                             callbacks: seq<Computation>, store: map<nat, Computation>, store': map<nat, Computation>)
    requires |at| == |stages| > 0
  {
    callbacks == [] && store' == store && NoneBetween(events, at[|at| - 1], n, numbers(stages[|stages| - 1]))
  }

  ghost predicate WasAnswered(events: seq<Event>, n: nat, numbers: nat -> nat, expired: nat -> bool, com: Computation, stage: nat, k: nat,
                              callbacks: seq<Computation>, store: map<nat, Computation>, store': map<nat, Computation>)
  {
    exists d: nat :: d < n && Answered(events, d, numbers, expired, com, stage, k, callbacks, store, store')
  }

  ghost predicate Answered(events: seq<Event>, d: nat, numbers: nat -> nat, expired: nat -> bool, com: Computation, stage: nat, k: nat,
                           callbacks: seq<Computation>, store: map<nat, Computation>, store': map<nat, Computation>)
  {
    && IsFirst(events, k, numbers(stage), d)
    && match Judge(stage, events[d].fired.values)
       case Ignore => false
       case GoTo(_) => expired(d + 1) && Rejects(com, callbacks, store, store')
       case Conclude(m) => callbacks == [Concluded(com, m)] && store' == store[com.id := Concluded(com, m)]
  }

  /** When nothing expires, there is no callback only while a stage that was asked
      for has not been answered since. */
  lemma NoCallbackWaits(events: seq<Event>, numbers: nat -> nat, expired: nat -> bool, com: Computation, stages: seq<nat>, at: seq<nat>,
                        callbacks: seq<Computation>, store: map<nat, Computation>, store': map<nat, Computation>)
    requires Course(events, numbers, expired, stages, at)
    requires Standing(events, |events|, numbers, expired, com, stages, at, callbacks, store, store')
    requires callbacks == [] && forall k :: 0 <= k <= |events| ==> !expired(k)
    ensures stages != [] && com.buy.orderSettlement == com.sell.orderSettlement
    ensures forall e :: at[|at| - 1] <= e < |events| ==> events[e].fired.callback != numbers(stages[|stages| - 1])
  {
    hide Judge;
  }

  lemma StandingQuiet(events: seq<Event>, n: nat, numbers: nat -> nat, expired: nat -> bool, com: Computation, stages: seq<nat>, at: seq<nat>,
                      callbacks: seq<Computation>, store: map<nat, Computation>, store': map<nat, Computation>)
    requires n < |events| && Standing(events, n, numbers, expired, com, stages, at, callbacks, store, store')
    requires forall i :: 0 <= i < |stages| ==> numbers(stages[i]) != events[n].fired.callback
    ensures Standing(events, n + 1, numbers, expired, com, stages, at, callbacks, store, store')
  {
    hide Answered;
  }

  /** The waiting stage is answered. */
  lemma StandingStep(events: seq<Event>, n: nat, numbers: nat -> nat, expired: nat -> bool, com: Computation, stages: seq<nat>, at: seq<nat>, a: Action,
                     store: map<nat, Computation>, store': map<nat, Computation>, store'': map<nat, Computation>)
    requires n < |events| && Course(events, numbers, expired, stages, at)
    requires Standing(events, n, numbers, expired, com, stages, at, [], store, store')
    requires stages != [] && numbers(stages[|stages| - 1]) == events[n].fired.callback
    requires forall d :: 0 <= d < |events| && d != n ==> events[d].fired.callback != events[n].fired.callback
    requires
      match Judge(stages[|stages| - 1], events[n].fired.values)
      case Ignore => false
      case GoTo(next) => IsMatchStage(next) && Entered(com, next, expired(n + 1), a, store', store'')
      case Conclude(m) => a == CallBack(Concluded(com, m)) && store'' == store'[com.id := Concluded(com, m)]
    ensures a.CallBack? ==> Standing(events, n + 1, numbers, expired, com, stages, at, [a.com], store, store'')
    ensures a == Nothing ==> Standing(events, n + 1, numbers, expired, com, stages, at, [], store, store'')
    ensures a.AskJoin? ==>
              && Course(events, numbers, expired, stages + [a.stage], at + [n + 1])
              && Standing(events, n + 1, numbers, expired, com, stages + [a.stage], at + [n + 1], [], store, store'')
  {
    hide Judge, Concluded, IsMatchStage;
    var stage, k := stages[|stages| - 1], at[|at| - 1];
    assert IsFirst(events, k, numbers(stage), n);
    assert store' == store;
    if a.AskJoin? {
      assert Advanced(events, numbers, expired, stage, k, a.stage, n + 1);
    } else {
      assert Answered(events, n, numbers, expired, com, stage, k, if a.CallBack? then [a.com] else [], store, store'');
    }
  }

  /** The matcher in any run of the protocol: every delivery to one of its joins
      is handed to it, in the order of the run and as often as it happens. The
      match callback is called at most once, after at most seven joins, all of
      them honest, and is told the plaintext predicate on the two orders. It is
      called unless an order expires or a join that was made is not answered. */
  method MatchInRun(m: Matcher, com: Computation, numbers: nat -> nat, expired: nat -> bool, events: seq<Event>,
                    ghost polys: Sharing, ghost K: nat, ghost run: seq<State>, ghost t: nat,
                    ghost buy: Order, ghost bp: OrderPolys, ghost sell: Order, ghost sp: OrderPolys, ghost x: int)
    returns (callbacks: seq<Computation>, joins: seq<Join>, ghost stages: seq<nat>, ghost at: seq<nat>)
    requires BoundedSharing(polys, K) && IsRun(polys, K, run) && t < |run| && events == run[t].events
    requires MatchSharing(polys, com.id, buy, bp, sell, sp, K) && InRange(buy) && InRange(sell)
    requires 1 <= x < TOP && IsFragment(com.buy, buy, bp, x) && IsFragment(com.sell, sell, sp, x)
    requires CallsMade(run[t].calls, com, numbers)
    modifies m
    ensures |callbacks| <= 1 && |joins| <= 7
    ensures forall join :: join in joins ==> Honest(polys, join)
    ensures forall c :: c in callbacks ==> c == Concluded(com, OrdersMatch(buy, sell))
    ensures Course(events, numbers, expired, stages, at)
    ensures Standing(events, |events|, numbers, expired, com, stages, at, callbacks, old(m.store), m.store)
    ensures |joins| == |stages| && forall i :: 0 <= i < |joins| ==> IsMatchStage(stages[i]) && joins[i] == StageJoin(com, stages[i])
  {
    hide Course, Standing;
    hide IsRun, MatchSharing, CallsMade, Honest, OpenAt, OrdersMatch, Judge, Difference, StageJoin, IsFragment, Ongoing;
    callbacks, joins, at := [], [], [];
    var asked: seq<nat> := [];
    ghost var waiting: Option<nat> := None;
    SettlementKept(com, buy, bp, sell, sp, x);
    OngoingStart(buy, sell, com, numbers);
    assert events[..0] == [];
    var a := m.Resolve(com, expired(0));
    if a.CallBack? {
      callbacks := [a.com];
    } else if a.AskJoin? {
      joins, asked, at, waiting := [a.join], [a.stage], [0], Some(a.stage);
      StageJoinHonest(polys, com, buy, bp, sell, sp, K, x, a.stage);
    }
    StandingStart(events, numbers, expired, com, a, old(m.store), m.store);
    for k := 0 to |events|
      invariant Ongoing(buy, sell, com, numbers, events[..k], asked, waiting, callbacks)
      invariant Course(events, numbers, expired, asked, at)
      invariant Standing(events, k, numbers, expired, com, asked, at, callbacks, old(m.store), m.store)
      invariant forall i :: 0 <= i < |asked| && i < |joins| ==> IsMatchStage(asked[i]) && joins[i] == StageJoin(com, asked[i])
      invariant |joins| == |asked| && forall join :: join in joins ==> Honest(polys, join)
    {
      var i := FindStage(asked, numbers, events[k].fired.callback);
      if i == |asked| {
        OngoingQuiet(buy, sell, com, numbers, events, k, asked, waiting, callbacks);
        StandingQuiet(events, k, numbers, expired, com, asked, at, callbacks, old(m.store), m.store);
        continue;
      }
      ghost var stage := asked[i];
      AskedStage(buy, sell, com, numbers, events[..k], asked, waiting, callbacks, i);
      Delivery(polys, K, run, t, com, numbers, buy, bp, sell, sp, k, stage);
      OnlyWaiting(buy, sell, com, numbers, events, k, asked, waiting, callbacks, i);
      StageDecides(buy, sell, stage, events[k].fired.values);
      ghost var store' := m.store;
      a := m.ResolveValues(events[k].fired.values, com, asked[i], expired(k + 1));
      StandingStep(events, k, numbers, expired, com, asked, at, a, old(m.store), store', m.store);
      OngoingStep(buy, sell, com, numbers, events, k, asked, waiting, callbacks, a);
      waiting := None;
      if a.CallBack? {
        callbacks := callbacks + [a.com];
        assert callbacks == [a.com];
      } else if a.AskJoin? {
        StageJoinHonest(polys, com, buy, bp, sell, sp, K, x, a.stage);
        joins, asked, at, waiting := joins + [a.join], asked + [a.stage], at + [k + 1], Some(a.stage);
      }
    }
    OngoingEnd(buy, sell, com, numbers, events[..|events|], asked, waiting, callbacks);
    stages := asked;
  }

  /** The stage whose call a callback belongs to. */
  method FindStage(asked: seq<nat>, numbers: nat -> nat, callback: nat) returns (i: nat)
    ensures i <= |asked| && (i < |asked| ==> numbers(asked[i]) == callback)
    ensures i == |asked| ==> forall k :: 0 <= k < |asked| ==> numbers(asked[k]) != callback
  {
    i := 0;
    while i < |asked| && numbers(asked[i]) != callback
      invariant i <= |asked| && forall k :: 0 <= k < i ==> numbers(asked[k]) != callback
    {
      i := i + 1;
    }
  }

  lemma SettlementKept(com: Computation, buy: Order, bp: OrderPolys, sell: Order, sp: OrderPolys, x: int)
    requires IsFragment(com.buy, buy, bp, x) && IsFragment(com.sell, sell, sp, x)
    ensures com.buy.orderSettlement == buy.settlement && com.sell.orderSettlement == sell.settlement
  {
  }

  lemma StandingStart(events: seq<Event>, numbers: nat -> nat, expired: nat -> bool, com: Computation, a: Action,
                      store: map<nat, Computation>, store': map<nat, Computation>)
    requires com.buy.orderSettlement != com.sell.orderSettlement ==>
               a == CallBack(Concluded(com, false)) && store' == store[com.id := Concluded(com, false)]
    requires com.buy.orderSettlement == com.sell.orderSettlement ==> Entered(com, STAGE_PRICE_EXP, expired(0), a, store, store')
    ensures a.CallBack? ==> Course(events, numbers, expired, [], []) && Standing(events, 0, numbers, expired, com, [], [], [a.com], store, store')
    ensures a == Nothing ==> Course(events, numbers, expired, [], []) && Standing(events, 0, numbers, expired, com, [], [], [], store, store')
    ensures a.AskJoin? ==>
              && Course(events, numbers, expired, [a.stage], [0])
              && Standing(events, 0, numbers, expired, com, [a.stage], [0], [], store, store')
  {
    hide Concluded, Answered, Advanced;
  }

  lemma OngoingQuiet(buy: Order, sell: Order, com: Computation, numbers: nat -> nat, events: seq<Event>, k: nat,
                     asked: seq<nat>, waiting: Option<nat>, callbacks: seq<Computation>)
    requires k < |events| && Ongoing(buy, sell, com, numbers, events[..k], asked, waiting, callbacks)
    ensures Ongoing(buy, sell, com, numbers, events[..k + 1], asked, waiting, callbacks)
  {
    hide OpenAt, OrdersMatch;
    forall i | 0 <= i < |asked| && waiting != Some(asked[i])
      ensures Delivered(events[..k + 1], numbers(asked[i]))
    {
      DeliveredLater(events, k, numbers(asked[i]));
    }
  }

  /** A delivery can only be to the stage that is waiting: the others have had
      theirs. */
  lemma OnlyWaiting(buy: Order, sell: Order, com: Computation, numbers: nat -> nat, events: seq<Event>, k: nat,
                    asked: seq<nat>, waiting: Option<nat>, callbacks: seq<Computation>, i: nat)
    requires k < |events| && Ongoing(buy, sell, com, numbers, events[..k], asked, waiting, callbacks) && i < |asked|
    requires forall d :: 0 <= d < |events| && d != k ==> events[d].fired.callback != numbers(asked[i])
    ensures waiting == Some(asked[i]) && i == |asked| - 1 && callbacks == []
    ensures OrdersMatch(buy, sell) <==> OpenAt(buy, sell, asked[i])
  {
    hide OpenAt, OrdersMatch;
  }

  lemma AskedStage(buy: Order, sell: Order, com: Computation, numbers: nat -> nat, delivered: seq<Event>,
                   asked: seq<nat>, waiting: Option<nat>, callbacks: seq<Computation>, i: nat)
    requires Ongoing(buy, sell, com, numbers, delivered, asked, waiting, callbacks) && i < |asked|
    ensures IsMatchStage(asked[i])
  {
    hide OpenAt, OrdersMatch;
  }

  lemma OngoingStart(buy: Order, sell: Order, com: Computation, numbers: nat -> nat)
    ensures Ongoing(buy, sell, com, numbers, [], [], None, [])
    ensures buy.settlement != sell.settlement ==> Ongoing(buy, sell, com, numbers, [], [], None, [Concluded(com, false)])
    ensures buy.settlement == sell.settlement ==>
              Ongoing(buy, sell, com, numbers, [], [STAGE_PRICE_EXP], Some(STAGE_PRICE_EXP), [])
  {
  }

  lemma OngoingEnd(buy: Order, sell: Order, com: Computation, numbers: nat -> nat, delivered: seq<Event>,
                   asked: seq<nat>, waiting: Option<nat>, callbacks: seq<Computation>)
    requires Ongoing(buy, sell, com, numbers, delivered, asked, waiting, callbacks)
    ensures |asked| <= 7 && |callbacks| <= 1
    ensures forall c :: c in callbacks ==> c == Concluded(com, OrdersMatch(buy, sell))
  {
    hide OpenAt, OrdersMatch;
    AskedCount(asked);
  }

  lemma OngoingStep(buy: Order, sell: Order, com: Computation, numbers: nat -> nat, events: seq<Event>, k: nat,
                    asked: seq<nat>, waiting: Option<nat>, callbacks: seq<Computation>, a: Action)
    requires k < |events| && Ongoing(buy, sell, com, numbers, events[..k], asked, waiting, callbacks) && waiting.Some?
    requires events[k].fired.callback == numbers(waiting.value)
    requires a.CallBack? ==> a.com == Concluded(com, OrdersMatch(buy, sell))
    requires a.AskJoin? ==> waiting.value < a.stage && IsMatchStage(a.stage) && (OrdersMatch(buy, sell) <==> OpenAt(buy, sell, a.stage))
    ensures a.CallBack? ==> Ongoing(buy, sell, com, numbers, events[..k + 1], asked, None, [a.com])
    ensures a.AskJoin? ==> Ongoing(buy, sell, com, numbers, events[..k + 1], asked + [a.stage], Some(a.stage), callbacks)
    ensures a == Nothing ==> Ongoing(buy, sell, com, numbers, events[..k + 1], asked, None, callbacks)
  {
    hide OpenAt, OrdersMatch;
    forall i | 0 <= i < |asked|
      ensures Delivered(events[..k + 1], numbers(asked[i]))
    {
      DeliveredLater(events, k, numbers(asked[i]));
    }
  }
}
