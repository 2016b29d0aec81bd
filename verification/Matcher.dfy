/** The staged matcher: each stage joins one difference of secret values and
    decides from its sign whether to go on. */
module Matching {
  import opened Options
  import opened Integers
  import opened Words
  import opened PrimeField
  import opened Shamir
  import opened Joining
  import opened Orders

  // ----- stages

  const STAGE_PRICE_EXP: nat := 1
  const STAGE_PRICE_CO: nat := 2
  const STAGE_BUY_VOLUME_EXP: nat := 3
  const STAGE_BUY_VOLUME_CO: nat := 4
  const STAGE_SELL_VOLUME_EXP: nat := 5
  const STAGE_SELL_VOLUME_CO: nat := 6
  const STAGE_TOKENS: nat := 7
  const STAGE_SETTLEMENT: nat := 8

  predicate IsMatchStage(stage: nat)
  {
    STAGE_PRICE_EXP <= stage <= STAGE_TOKENS
  }

  datatype ComputationState = NilState | Matched | Mismatched | Accepted | Rejected | Settled

  datatype Computation = Computation(id: nat, buy: Fragment, sell: Fragment, epoch: nat, state: ComputationState, isMatch: bool)

  /** The field of the minuend, from the buy side unless it is a sell volume,
      and the field of the subtrahend, from the other side. */
  function LeftField(stage: nat): Field
    requires IsMatchStage(stage)
  {
    if stage == STAGE_PRICE_EXP then PriceExp
    else if stage == STAGE_PRICE_CO then PriceCo
    else if stage == STAGE_BUY_VOLUME_EXP || stage == STAGE_SELL_VOLUME_EXP then VolumeExp
    else if stage == STAGE_BUY_VOLUME_CO || stage == STAGE_SELL_VOLUME_CO then VolumeCo
    else Tokens
  }

  function RightField(stage: nat): Field
    requires IsMatchStage(stage)
  {
    if stage == STAGE_PRICE_EXP then PriceExp
    else if stage == STAGE_PRICE_CO then PriceCo
    else if stage == STAGE_BUY_VOLUME_EXP || stage == STAGE_SELL_VOLUME_EXP then MinVolumeExp
    else if stage == STAGE_BUY_VOLUME_CO || stage == STAGE_SELL_VOLUME_CO then MinVolumeCo
    else Tokens
  }

  predicate SellFirst(stage: nat)
  {
    stage == STAGE_SELL_VOLUME_EXP || stage == STAGE_SELL_VOLUME_CO
  }

  /** The join of a stage holds the share of one difference. */
  ghost function StageJoin(com: Computation, stage: nat): Join
    requires IsMatchStage(stage)
  {
    var left := ShareOf(if SellFirst(stage) then com.sell else com.buy, LeftField(stage));
    var right := ShareOf(if SellFirst(stage) then com.buy else com.sell, RightField(stage));
    Join(JoinId(com.id, stage), left.index, [Share(left.index, (left.value - right.value) % PRIME)])
  }

  /** The join of a stage; none for other stages. */
  method BuildJoin(com: Computation, stage: nat) returns (r: Option<Join>)
    ensures r.Some? <==> IsMatchStage(stage)
    ensures r.Some? ==> r.value == StageJoin(com, stage)
  {
    var share;
    if stage == STAGE_PRICE_EXP {
      share := SubShare(com.buy.price.exp, com.sell.price.exp);
    } else if stage == STAGE_PRICE_CO {
      share := SubShare(com.buy.price.co, com.sell.price.co);
    } else if stage == STAGE_BUY_VOLUME_EXP {
      share := SubShare(com.buy.volume.exp, com.sell.minimumVolume.exp);
    } else if stage == STAGE_BUY_VOLUME_CO {
      share := SubShare(com.buy.volume.co, com.sell.minimumVolume.co);
    } else if stage == STAGE_SELL_VOLUME_EXP {
      share := SubShare(com.sell.volume.exp, com.buy.minimumVolume.exp);
    } else if stage == STAGE_SELL_VOLUME_CO {
      share := SubShare(com.sell.volume.co, com.buy.minimumVolume.co);
    } else if stage == STAGE_TOKENS {
      share := SubShare(com.buy.tokens, com.sell.tokens);
    } else {
      return None;
    }
    return Some(Join(JoinId(com.id, stage), share.index, [share]));
  }

  // ----- sign tests

  predicate IsGreaterThanOrEqualToZero(value: Word)
  {
    value >= 0 && value < PRIME / 2
  }

  predicate IsGreaterThanZero(value: Word)
  {
    value > 0 && value < PRIME / 2
  }

  predicate IsEqualToZero(value: Word)
  {
    value == 0 || value == PRIME
  }

  /** On values below half the prime the tests decide the order of the
      unshared values. */
  lemma SignTests(a: nat, b: nat)
    requires a < PRIME / 2 && b < PRIME / 2
    ensures
      var d := (a - b) % PRIME;
      && (IsGreaterThanZero(d) <==> a > b)
      && (IsGreaterThanOrEqualToZero(d) <==> a >= b)
      && (IsEqualToZero(d) <==> a == b)
  {
    if a >= b {
      SmallMod(a - b, PRIME);
    } else {
      DivModIs(a - b, -1, PRIME + a - b, PRIME);
    }
  }

  lemma ZeroTest(a: nat, b: nat)
    requires a < PRIME && b < PRIME
    ensures IsEqualToZero((a - b) % PRIME) <==> a == b
  {
    if a >= b {
      SmallMod(a - b, PRIME);
    } else {
      DivModIs(a - b, -1, PRIME + a - b, PRIME);
    }
  }

  // ----- the pipeline

  /** What the joined values of a stage lead to. */
  datatype Verdict = GoTo(stage: nat) | Conclude(isMatch: bool) | Ignore

  function Judge(stage: nat, values: seq<Word>): Verdict
  {
    if |values| != 1 then Ignore
    else if stage == STAGE_PRICE_EXP || stage == STAGE_BUY_VOLUME_EXP || stage == STAGE_SELL_VOLUME_EXP then
      if IsGreaterThanZero(values[0]) then GoTo(stage + 2)
      else if IsEqualToZero(values[0]) then GoTo(stage + 1)
      else Conclude(false)
    else if stage == STAGE_PRICE_CO || stage == STAGE_BUY_VOLUME_CO || stage == STAGE_SELL_VOLUME_CO then
      if IsGreaterThanOrEqualToZero(values[0]) then GoTo(stage + 1) else Conclude(false)
    else if stage == STAGE_TOKENS then Conclude(IsEqualToZero(values[0]))
    else Conclude(false)
  }

  /** What a step of the matcher leaves to its surroundings: a join to be made
      at a stage, or the match callback to be called. */
  datatype Action = AskJoin(stage: nat, join: Join) | CallBack(com: Computation) | Nothing

  class Matcher {
    var store: map<nat, Computation>

    constructor ()
      ensures store == map[]
    {
      store := map[];
    }

    method Conclude(com: Computation, isMatch: bool) returns (a: Action)
      modifies this
      ensures a == CallBack(com.(state := if isMatch then Matched else Mismatched, isMatch := isMatch))
      ensures store == old(store)[com.id := a.com]
    {
      var com' := com.(state := if isMatch then Matched else Mismatched, isMatch := isMatch);
      store := store[com.id := com'];
      return CallBack(com');
    }

    /** Starts resolving; orders for different settlement layers never match. */
    method Resolve(com: Computation, expired: bool) returns (a: Action)
      modifies this
      ensures com.buy.orderSettlement != com.sell.orderSettlement ==>
                a == CallBack(com.(state := Mismatched, isMatch := false)) && store == old(store)[com.id := a.com]
      ensures com.buy.orderSettlement == com.sell.orderSettlement ==> Entered(com, STAGE_PRICE_EXP, expired, a, old(store), store)
    {
      if com.buy.orderSettlement != com.sell.orderSettlement {
        a := Conclude(com, false);
        return;
      }
      a := ResolveStage(com, STAGE_PRICE_EXP, expired);
    }

    /** Asks for the join of a stage unless an order has expired. */
    method ResolveStage(com: Computation, stage: nat, expired: bool) returns (a: Action)
      modifies this
      ensures Entered(com, stage, expired, a, old(store), store)
    {
      if expired {
        store := store[com.id := com.(state := Rejected)];
        return Nothing;
      }
      var join := BuildJoin(com, stage);
      if join.None? {
        return Nothing;
      }
      return AskJoin(stage, join.value);
    }

    /** Handles the joined values of a stage. */
    method ResolveValues(values: seq<Word>, com: Computation, stage: nat, expired: bool) returns (a: Action)
      modifies this
      ensures Judge(stage, values).Ignore? ==> a == Nothing && store == old(store)
      ensures Judge(stage, values).GoTo? ==> Entered(com, Judge(stage, values).stage, expired, a, old(store), store)
      ensures Judge(stage, values).Conclude? ==>
                var m := Judge(stage, values).isMatch;
                a == CallBack(com.(state := if m then Matched else Mismatched, isMatch := m)) && store == old(store)[com.id := a.com]
    {
      if |values| != 1 {
        return Nothing;
      }
      if stage == STAGE_PRICE_EXP || stage == STAGE_BUY_VOLUME_EXP || stage == STAGE_SELL_VOLUME_EXP {
        if IsGreaterThanZero(values[0]) {
          a := ResolveStage(com, stage + 2, expired);
          return;
        }
        if IsEqualToZero(values[0]) {
          a := ResolveStage(com, stage + 1, expired);
          return;
        }
      } else if stage == STAGE_PRICE_CO || stage == STAGE_BUY_VOLUME_CO || stage == STAGE_SELL_VOLUME_CO {
        if IsGreaterThanOrEqualToZero(values[0]) {
          a := ResolveStage(com, stage + 1, expired);
          return;
        }
      } else if stage == STAGE_TOKENS {
        if IsEqualToZero(values[0]) {
          a := Conclude(com, true);
          return;
        }
      }
      a := Conclude(com, false);
    }
  }

  /** Entering a stage: rejected when expired, else a join is asked for. */
  ghost predicate Entered(com: Computation, stage: nat, expired: bool, a: Action, store: map<nat, Computation>, store': map<nat, Computation>)
  {
    if expired then a == Nothing && store' == store[com.id := com.(state := Rejected)]
    else
      && store' == store
      && (a.AskJoin? <==> IsMatchStage(stage)) && (!a.AskJoin? ==> a == Nothing)
      && (a.AskJoin? ==> a == AskJoin(stage, StageJoin(com, stage)))
  }
}
