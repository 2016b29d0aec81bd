/** Settlement: both orders of a match are rebuilt from their joined fields. */
module Settlement {
  import opened Options
  import opened Integers
  import opened Words
  import opened PrimeField
  import opened Lagrange
  import opened Shamir
  import opened Joining
  import opened Smpc
  import opened SmpcSafety
  import opened Orders
  import opened Matching

  /** The secret fields in the order the settlement joins them. */
  function FieldAt(i: nat): Field
    requires i < 8
  {
    [Tokens, PriceCo, PriceExp, VolumeCo, VolumeExp, MinVolumeCo, MinVolumeExp, Nonce][i]
  }

  /** The join of all sixteen fields of both orders. */
  function SettlementJoin(com: Computation): Join
  {
    var b, s := com.buy, com.sell;
    Join(JoinId(com.id, STAGE_SETTLEMENT), b.tokens.index,
         [b.tokens, b.price.co, b.price.exp, b.volume.co, b.volume.exp, b.minimumVolume.co, b.minimumVolume.exp, b.nonce,
          s.tokens, s.price.co, s.price.exp, s.volume.co, s.volume.exp, s.minimumVolume.co, s.minimumVolume.exp, s.nonce])
  }

  /** One order rebuilt from a fragment's public part and eight values. */
  function Rebuild(hash: Hash, frag: Fragment, v: seq<Word>): Order
    requires |v| == 8
  {
    NewOrder(hash, frag.orderType, frag.orderParity, frag.orderSettlement, frag.orderExpiry,
             v[0], CoExp(v[1], v[2]), CoExp(v[3], v[4]), CoExp(v[5], v[6]), v[7])
  }

  class Settler {
    var store: map<nat, Computation>

    constructor ()
      ensures store == map[]
    {
      store := map[];
    }

    /** Handles the joined values; accepted is the answer of the settlement
        contract to the two rebuilt orders. */
    method SettleValues(hash: Hash, com: Computation, values: seq<Word>, accepted: bool) returns (orders: Option<(Order, Order)>)
      modifies this
      ensures orders.Some? <==> |values| == 16
      ensures orders.Some? ==> orders.value == (Rebuild(hash, com.buy, values[..8]), Rebuild(hash, com.sell, values[8..]))
      ensures store == if orders.Some? && accepted then old(store)[com.id := com.(state := Settled)] else old(store)
    {
      if |values| != 16 {
        return None;
      }
      var buy := NewOrder(hash, com.buy.orderType, com.buy.orderParity, com.buy.orderSettlement, com.buy.orderExpiry,
                          values[0], CoExp(values[1], values[2]), CoExp(values[3], values[4]), CoExp(values[5], values[6]), values[7]);
      var sell := NewOrder(hash, com.sell.orderType, com.sell.orderParity, com.sell.orderSettlement, com.sell.orderExpiry,
                           values[8], CoExp(values[9], values[10]), CoExp(values[11], values[12]), CoExp(values[13], values[14]), values[15]);
      if accepted {
        store := store[com.id := com.(state := Settled)];
      }
      return Some((buy, sell));
    }
  }

  // ----- the round trip

  ghost function SettlementPolys(bp: OrderPolys, sp: OrderPolys): (r: seq<seq<int>>)
    ensures |r| == 16
  {
    seq(16, i requires 0 <= i < 16 => if i < 8 then bp(FieldAt(i)) else sp(FieldAt(i - 8)))
  }

  /** The sharing behind the settlement join of one computation. */
  ghost predicate SettlementSharing(polys: Sharing, com: nat, buy: Order, bp: OrderPolys, sell: Order, sp: OrderPolys, K: nat)
  {
    && Shares(bp, buy, K) && Shares(sp, sell, K)
    && polys(JoinId(com, STAGE_SETTLEMENT)) == SettlementPolys(bp, sp)
  }

  lemma SettlementShare(com: Computation, i: nat)
    requires i < 16
    ensures SettlementJoin(com).shares[i] == if i < 8 then ShareOf(com.buy, FieldAt(i)) else ShareOf(com.sell, FieldAt(i - 8))
  {
    if i == 0 || i == 8 {
      assert FieldAt(0) == Tokens;
    } else if i == 1 || i == 9 {
      assert FieldAt(1) == PriceCo;
    } else if i == 2 || i == 10 {
      assert FieldAt(2) == PriceExp;
    } else if i == 3 || i == 11 {
      assert FieldAt(3) == VolumeCo;
    } else if i == 4 || i == 12 {
      assert FieldAt(4) == VolumeExp;
    } else if i == 5 || i == 13 {
      assert FieldAt(5) == MinVolumeCo;
    } else if i == 6 || i == 14 {
      assert FieldAt(6) == MinVolumeExp;
    } else {
      assert FieldAt(7) == Nonce;
    }
  }

  /** The settlement join of a node is honest. */
  lemma SettlementJoinHonest(polys: Sharing, com: Computation, buy: Order, bp: OrderPolys, sell: Order, sp: OrderPolys, K: nat, x: int)
    requires SettlementSharing(polys, com.id, buy, bp, sell, sp, K) && 1 <= x < TOP
    requires IsFragment(com.buy, buy, bp, x) && IsFragment(com.sell, sell, sp, x)
    ensures Honest(polys, SettlementJoin(com))
  {
    hide Eval;
    var join := SettlementJoin(com);
    assert IsShare(ShareOf(com.buy, Tokens), x, bp(Tokens));
    forall v | 0 <= v < 16 ensures IsShare(join.shares[v], x, polys(join.id)[v]) {
      SettlementShare(com, v);
    }
  }

  /** Values joined from honest shares are the orders' fields. */
  lemma SettlementValues(polys: Sharing, com: nat, buy: Order, bp: OrderPolys, sell: Order, sp: OrderPolys, K: nat, values: seq<Word>, i: nat)
    requires BoundedSharing(polys, K) && SettlementSharing(polys, com, buy, bp, sell, sp, K)
    requires Splittable(buy) && Splittable(sell)
    requires values == Secrets(polys, JoinId(com, STAGE_SETTLEMENT)) && i < 8
    ensures |values| == 16 && values[i] == FieldOf(buy, FieldAt(i)) && values[8 + i] == FieldOf(sell, FieldAt(i))
  {
    SplittableFields(buy);
    SplittableFields(sell);
    var f := FieldAt(i);
    var s := Secrets(polys, JoinId(com, STAGE_SETTLEMENT));
    assert s[i] == bp(f)[0] % PRIME && s[8 + i] == sp(f)[0] % PRIME;
    SmallMod(FieldOf(buy, f), PRIME);
    SmallMod(FieldOf(sell, f), PRIME);
  }

  /** Rebuilding an order made by NewOrder from its own field values gives it
      back, identifier included. */
  lemma RebuildSame(hash: Hash, o: Order, frag: Fragment, v: seq<Word>)
    requires o.id == hash(ContentOf(o)) && o.nonce < PRIME && |v| == 8
    requires frag.orderType == o.ty && frag.orderParity == o.parity && frag.orderSettlement == o.settlement && frag.orderExpiry == o.expiry
    requires forall i :: 0 <= i < 8 ==> v[i] == FieldOf(o, FieldAt(i))
    ensures Rebuild(hash, frag, v) == o
  {
    assert FieldAt(0) == Tokens && FieldAt(1) == PriceCo && FieldAt(2) == PriceExp && FieldAt(3) == VolumeCo;
    assert FieldAt(4) == VolumeExp && FieldAt(5) == MinVolumeCo && FieldAt(6) == MinVolumeExp && FieldAt(7) == Nonce;
    SmallMod(o.nonce, PRIME);
    assert o == o.(id := hash(ContentOf(o)));
  }

  /** In every run of the protocol, the orders rebuilt by a settlement callback
      are the ones that were split, identifiers included. */
  lemma SettlementRoundTrip(hash: Hash, polys: Sharing, K: nat, run: seq<State>, t: nat, e: nat,
                            com: Computation, buy: Order, bp: OrderPolys, sell: Order, sp: OrderPolys, x: int)
    requires BoundedSharing(polys, K) && IsRun(polys, K, run) && t < |run|
    requires SettlementSharing(polys, com.id, buy, bp, sell, sp, K)
    requires IsFragment(com.buy, buy, bp, x) && IsFragment(com.sell, sell, sp, x)
    requires Splittable(buy) && buy.id == hash(ContentOf(buy))
    requires Splittable(sell) && sell.id == hash(ContentOf(sell))
    requires e < |run[t].events| && run[t].events[e].fired.id == JoinId(com.id, STAGE_SETTLEMENT)
    ensures
      var values := run[t].events[e].fired.values;
      && |values| == 16
      && Rebuild(hash, com.buy, values[..8]) == buy && Rebuild(hash, com.sell, values[8..]) == sell
  {
    hide IsRun, SettlementSharing, Rebuild, FieldAt;
    Agreement(polys, K, run, t);
    var values := run[t].events[e].fired.values;
    SettlementValues(polys, com.id, buy, bp, sell, sp, K, values, 0);
    var b, s := values[..8], values[8..];
    forall i | 0 <= i < 8 ensures b[i] == FieldOf(buy, FieldAt(i)) && s[i] == FieldOf(sell, FieldAt(i)) {
      SettlementValues(polys, com.id, buy, bp, sell, sp, K, values, i);
    }
    RebuildSame(hash, buy, com.buy, values[..8]);
    RebuildSame(hash, sell, com.sell, values[8..]);
  }
}
