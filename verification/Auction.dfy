/** Auctions: when they may be notified at all, and the ceiling advertised with them. */
module Auction {
  import opened Models
  import opened Rounding
  import opened Money

  const MICROS_PER_MINUTE := 60_000_000

  function Gate(l: Listing, now: int, gateMinutes: int): Urgency {
    if l.saleType != SaleType.Auction then NoUrgency
    else if l.endsAt.None? || l.endsAt.value - now <= 0 then NoUrgency
    else if l.endsAt.value - now > gateMinutes * MICROS_PER_MINUTE then Watch
    else Quiet
  }

  function EffectiveBid(l: Listing, increment: real): real {
    (if l.currentBid.Some? then l.currentBid.value else l.price) + increment
  }

  /** What may be bid at most: ceiling times capacity, less shipping, rounded half-even. */
  function MaxBid(totalGb: int, ceiling: real, shipping: real): real {
    ToCentsEven(ceiling * totalGb as real - shipping)
  }

  lemma BelowGrid(q: real, ceiling: real)
    requires OnPerGbGrid(ceiling) && ToPerGb(q) < ceiling
    ensures q < ceiling
  {
    if q >= ceiling {
      Monotone(ceiling * 10000.0, q * 10000.0);
      PerGbFixed(ceiling);
    }
  }

  lemma Scaled(q: real, c: real, t: real)
    requires q < c && t > 0.0
    ensures q * t < c * t
  {
  }

  /** Rounding a price per gigabyte to ten-thousandths keeps it on its side of a ceiling that
      lies on that grid. */
  lemma BelowCeilingExact(cost: real, totalGb: int, ceiling: real)
    requires totalGb > 0 && OnPerGbGrid(ceiling)
    requires EurPerGb(cost, totalGb) < ceiling
    ensures cost < ceiling * totalGb as real
  {
    var t := totalGb as real;
    var q := cost / t;
    assert q * t == cost;
    BelowGrid(q, ceiling);
    Scaled(q, ceiling, t);
  }

  /** The bound behind every auction alert: a bid whose cost is below the ceiling per gigabyte
      fits under the advertised maximum, although one side rounds half-up and the other
      half-even. */
  lemma BidFitsUnderMaxBid(bid: real, shipping: real, totalGb: int, ceiling: real)
    requires totalGb > 0 && OnPerGbGrid(ceiling)
    requires WholeCents(bid) && WholeCents(shipping)
    requires EurPerGb(ToCents(bid + shipping), totalGb) < ceiling
    ensures bid <= MaxBid(totalGb, ceiling, shipping)
  {
    WholeCentsSum(bid, shipping);
    CentsFixed(bid + shipping);
    BelowCeilingExact(bid + shipping, totalGb, ceiling);
    Monotone(bid * 100.0, (ceiling * totalGb as real - shipping) * 100.0);
    CentsFixed(bid);
  }

  lemma QuotientIs(product: real, t: real, c: real)
    requires t > 0.0 && product == c * t
    ensures product / t == c
  {
    var q := product / t;
    assert q * t == product;
    if q < c { Scaled(q, c, t); }
    if c < q { Scaled(c, q, t); }
  }

  lemma CeilingPerGb(budget: real, totalGb: int, ceiling: real)
    requires totalGb > 0 && OnPerGbGrid(ceiling) && budget == ceiling * totalGb as real
    ensures EurPerGb(budget, totalGb) == ceiling
  {
    QuotientIs(budget, totalGb as real, ceiling);
    PerGbFixed(ceiling);
    hide ToPerGb, OnPerGbGrid;
  }

  /** When the ceiling amounts to whole cents, paying exactly the advertised maximum plus
      shipping costs exactly the ceiling per gigabyte, so no cent more could have been allowed. */
  lemma MaxBidIsTight(totalGb: int, ceiling: real, shipping: real)
    requires totalGb > 0 && OnPerGbGrid(ceiling)
    requires WholeCents(shipping) && WholeCents(ceiling * totalGb as real)
    ensures EurPerGb(ToCents(MaxBid(totalGb, ceiling, shipping) + shipping), totalGb) == ceiling
    ensures MaxBid(totalGb, ceiling, shipping) + shipping == ceiling * totalGb as real
  {
    var budget := ceiling * totalGb as real;
    WholeCentsSum(budget, shipping);
    CentsFixed(budget - shipping);
    CentsFixed(budget);
    assert MaxBid(totalGb, ceiling, shipping) == budget - shipping;
    assert budget - shipping + shipping == budget;
    CeilingPerGb(budget, totalGb, ceiling);
  }

  /** The maximum is the cent nearest to ceiling times capacity less shipping, the even one on a tie. */
  lemma MaxBidIsNearest(totalGb: int, ceiling: real, shipping: real)
    ensures var max, exact := MaxBid(totalGb, ceiling, shipping), ceiling * totalGb as real - shipping;
      var cents := (max * 100.0).Floor;
      && max == cents as real / 100.0
      && -0.005 <= max - exact <= 0.005
      && (max - exact == 0.005 || max - exact == -0.005 ==> cents % 2 == 0)
  {
    var exact := ceiling * totalGb as real - shipping;
    var n := HalfEven(exact * 100.0);
    assert MaxBid(totalGb, ceiling, shipping) * 100.0 == n as real;
  }
}
