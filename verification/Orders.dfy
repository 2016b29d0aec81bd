/** Orders, their identifiers and their secret-shared fragments. */
module Orders {
  import opened Words
  import opened PrimeField
  import opened Shamir

  datatype CoExp = CoExp(co: Word, exp: Word)

  type Instant = int

  /** What the identifier of an order is computed from. */
  datatype Content = Content(ty: int, parity: int, settlement: nat, expirySeconds: int,
                             tokens: Word, price: CoExp, volume: CoExp, minimumVolume: CoExp, nonce: Word)

  /** The hash of an order's content; nothing is assumed about it. */
  type Hash = Content -> nat

  datatype Order = Order(id: nat, ty: int, parity: int, settlement: nat, expiry: Instant,
                         tokens: Word, price: CoExp, volume: CoExp, minimumVolume: CoExp, nonce: Word)

  const NANOSECONDS: int := 1_000_000_000

  function ContentOf(o: Order): Content
  {
    Content(o.ty, o.parity, o.settlement, o.expiry / NANOSECONDS, o.tokens, o.price, o.volume, o.minimumVolume, o.nonce)
  }

  /** Orders with equal contents agree in everything but the fraction of the
      second in which they expire, and that alone does not change the content. */
  lemma ContentDetermines(a: Order, b: Order)
    ensures ContentOf(a) == ContentOf(b) <==>
              && a.ty == b.ty && a.parity == b.parity && a.settlement == b.settlement
              && a.expiry / NANOSECONDS == b.expiry / NANOSECONDS
              && forall f :: FieldOf(a, f) == FieldOf(b, f)
  {
    if forall f :: FieldOf(a, f) == FieldOf(b, f) {
      assert FieldOf(a, Tokens) == FieldOf(b, Tokens) && FieldOf(a, Nonce) == FieldOf(b, Nonce);
      assert FieldOf(a, PriceCo) == FieldOf(b, PriceCo) && FieldOf(a, PriceExp) == FieldOf(b, PriceExp);
      assert FieldOf(a, VolumeCo) == FieldOf(b, VolumeCo) && FieldOf(a, VolumeExp) == FieldOf(b, VolumeExp);
      assert FieldOf(a, MinVolumeCo) == FieldOf(b, MinVolumeCo) && FieldOf(a, MinVolumeExp) == FieldOf(b, MinVolumeExp);
    }
  }

  function NewOrder(hash: Hash, ty: int, parity: int, settlement: nat, expiry: Instant,
                    tokens: Word, price: CoExp, volume: CoExp, minimumVolume: CoExp, nonce: Word): (o: Order)
    ensures o.id == hash(ContentOf(o)) && o.nonce == nonce % PRIME < PRIME
    ensures o.ty == ty && o.parity == parity && o.settlement == settlement && o.expiry == expiry && o.tokens == tokens
    ensures o.price == price && o.volume == volume && o.minimumVolume == minimumVolume
  {
    var o := Order(0, ty, parity, settlement, expiry, tokens, price, volume, minimumVolume, nonce % PRIME);
    o.(id := hash(ContentOf(o)))
  }

  datatype CoExpShare = CoExpShare(co: Share, exp: Share)

  datatype Fragment = Fragment(orderId: nat, orderType: int, orderParity: int, orderSettlement: nat, orderExpiry: Instant,
                               tokens: Share, price: CoExpShare, volume: CoExpShare, minimumVolume: CoExpShare, nonce: Share)

  // ----- sharing an order

  /** One polynomial for every secret field, in the order they are split. */
  datatype Field = Tokens | PriceCo | PriceExp | VolumeCo | VolumeExp | MinVolumeCo | MinVolumeExp | Nonce

  function FieldOf(o: Order, f: Field): Word
  {
    match f
    case Tokens => o.tokens
    case PriceCo => o.price.co
    case PriceExp => o.price.exp
    case VolumeCo => o.volume.co
    case VolumeExp => o.volume.exp
    case MinVolumeCo => o.minimumVolume.co
    case MinVolumeExp => o.minimumVolume.exp
    case Nonce => o.nonce
  }

  function ShareOf(frag: Fragment, f: Field): Share
  {
    match f
    case Tokens => frag.tokens
    case PriceCo => frag.price.co
    case PriceExp => frag.price.exp
    case VolumeCo => frag.volume.co
    case VolumeExp => frag.volume.exp
    case MinVolumeCo => frag.minimumVolume.co
    case MinVolumeExp => frag.minimumVolume.exp
    case Nonce => frag.nonce
  }

  type OrderPolys = Field -> seq<int>

  /** Polynomials with k coefficients whose constant terms are the order. */
  ghost predicate Shares(polys: OrderPolys, o: Order, k: nat)
  {
    k > 0 && forall f :: |polys(f)| == k && polys(f)[0] == FieldOf(o, f)
  }

  /** The fragment of the order held at position x. */
  ghost predicate IsFragment(frag: Fragment, o: Order, polys: OrderPolys, x: int)
  {
    && frag.orderId == o.id && frag.orderType == o.ty && frag.orderParity == o.parity
    && frag.orderSettlement == o.settlement && frag.orderExpiry == o.expiry
    && forall f :: IsShare(ShareOf(frag, f), x, polys(f))
  }

  /** Whether every field lies in the field, which splitting insists on. */
  predicate Splittable(o: Order)
  {
    && o.tokens < PRIME && o.price.co < PRIME && o.price.exp < PRIME && o.volume.co < PRIME && o.volume.exp < PRIME
    && o.minimumVolume.co < PRIME && o.minimumVolume.exp < PRIME && o.nonce < PRIME
  }

  lemma SplittableFields(o: Order)
    ensures Splittable(o) <==> forall f :: FieldOf(o, f) < PRIME
  {
    if forall f :: FieldOf(o, f) < PRIME {
      assert FieldOf(o, Tokens) < PRIME && FieldOf(o, PriceCo) < PRIME && FieldOf(o, PriceExp) < PRIME;
      assert FieldOf(o, VolumeCo) < PRIME && FieldOf(o, VolumeExp) < PRIME;
      assert FieldOf(o, MinVolumeCo) < PRIME && FieldOf(o, MinVolumeExp) < PRIME && FieldOf(o, Nonce) < PRIME;
    }
  }

  /** The coefficients drawn for each field. */
  type Draws = Field -> seq<Word>

  ghost predicate GoodDraws(drawn: Draws, k: int)
  {
    forall f :: |drawn(f)| == k - 1 && forall c :: c in drawn(f) ==> c < PRIME
  }

  ghost function PolysOf(o: Order, drawn: Draws): OrderPolys
  {
    f => SplitPoly([FieldOf(o, f)] + drawn(f))
  }

  /** Splits an order into n fragments of which k rebuild it. Fails as the
      first failing field does. */
  method SplitOrder(o: Order, n: int, k: int, drawn: Draws) returns (r: Result<seq<Fragment>>)
    requires 1 <= k && n < TOP && GoodDraws(drawn, k)
    ensures r.Err? <==> n < k || !Splittable(o)
    ensures r.Err? ==> r.error == if n < k then ErrNK else ErrFiniteField
    ensures r.Ok? ==> Shares(PolysOf(o, drawn), o, k) && |r.value| == n
    ensures r.Ok? ==> forall i :: 0 <= i < n ==> IsFragment(r.value[i], o, PolysOf(o, drawn), i + 1)
  {
    hide IsSplitting, SplitPoly;
    ghost var polys := PolysOf(o, drawn);
    var tokens := SplitField(o, Tokens, n, k, drawn);
    if tokens.Err? { return Err(tokens.error); }
    var priceCos := SplitField(o, PriceCo, n, k, drawn);
    if priceCos.Err? { return Err(priceCos.error); }
    var priceExps := SplitField(o, PriceExp, n, k, drawn);
    if priceExps.Err? { return Err(priceExps.error); }
    var volumeCos := SplitField(o, VolumeCo, n, k, drawn);
    if volumeCos.Err? { return Err(volumeCos.error); }
    var volumeExps := SplitField(o, VolumeExp, n, k, drawn);
    if volumeExps.Err? { return Err(volumeExps.error); }
    var minCos := SplitField(o, MinVolumeCo, n, k, drawn);
    if minCos.Err? { return Err(minCos.error); }
    var minExps := SplitField(o, MinVolumeExp, n, k, drawn);
    if minExps.Err? { return Err(minExps.error); }
    var nonces := SplitField(o, Nonce, n, k, drawn);
    if nonces.Err? { return Err(nonces.error); }
    SplitShares(o, drawn, k);
    SplittingLengths(tokens.value, polys(Tokens), priceCos.value, polys(PriceCo), n);
    SplittingLengths(priceExps.value, polys(PriceExp), volumeCos.value, polys(VolumeCo), n);
    SplittingLengths(volumeExps.value, polys(VolumeExp), minCos.value, polys(MinVolumeCo), n);
    SplittingLengths(minExps.value, polys(MinVolumeExp), nonces.value, polys(Nonce), n);
    var fragments: seq<Fragment> := [];
    for i := 0 to n
      invariant |fragments| == i
      invariant forall j :: 0 <= j < i ==> IsFragment(fragments[j], o, polys, j + 1)
    {
      var frag := Fragment(o.id, o.ty, o.parity, o.settlement, o.expiry, tokens.value[i],
                           CoExpShare(priceCos.value[i], priceExps.value[i]),
                           CoExpShare(volumeCos.value[i], volumeExps.value[i]),
                           CoExpShare(minCos.value[i], minExps.value[i]), nonces.value[i]);
      forall f ensures IsShare(ShareOf(frag, f), i + 1, polys(f)) {
        match f
        case Tokens => SplittingAt(tokens.value, n, polys(f), i);
        case PriceCo => SplittingAt(priceCos.value, n, polys(f), i);
        case PriceExp => SplittingAt(priceExps.value, n, polys(f), i);
        case VolumeCo => SplittingAt(volumeCos.value, n, polys(f), i);
        case VolumeExp => SplittingAt(volumeExps.value, n, polys(f), i);
        case MinVolumeCo => SplittingAt(minCos.value, n, polys(f), i);
        case MinVolumeExp => SplittingAt(minExps.value, n, polys(f), i);
        case Nonce => SplittingAt(nonces.value, n, polys(f), i);
      }
      fragments := fragments + [frag];
    }
    return Ok(fragments);
  }

  method SplitField(o: Order, f: Field, n: int, k: int, drawn: Draws) returns (r: Result<seq<Share>>)
    requires 1 <= k && n < TOP && GoodDraws(drawn, k)
    ensures r.Err? <==> n < k || PRIME <= FieldOf(o, f)
    ensures r.Err? ==> r.error == if n < k then ErrNK else ErrFiniteField
    ensures r.Ok? ==> IsSplitting(r.value, n, PolysOf(o, drawn)(f))
  {
    r := Split(n, k, FieldOf(o, f), drawn(f));
  }

  lemma SplitShares(o: Order, drawn: Draws, k: int)
    requires 1 <= k && GoodDraws(drawn, k)
    ensures Shares(PolysOf(o, drawn), o, k)
  {
  }

  lemma SplittingLengths(a: seq<Share>, f: seq<int>, b: seq<Share>, g: seq<int>, n: int)
    requires IsSplitting(a, n, f) && IsSplitting(b, n, g)
    ensures |a| == n && |b| == n
  {
  }

  lemma SplittingAt(shares: seq<Share>, n: int, f: seq<int>, i: nat)
    requires IsSplitting(shares, n, f) && i < n
    ensures i < |shares| && IsShare(shares[i], i + 1, f)
  {
  }
}
