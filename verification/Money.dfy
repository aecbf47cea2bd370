/** Amounts: conversion, total cost and price per gigabyte, all rounded half-up. */
module Money {
  import opened Models
  import opened Rounding

  datatype CostBreakdown = CostBreakdown(total: real, shippingUsed: real, shippingEstimated: bool)

  function Times(price: real, units: int): real { price * units as real }

  function Converted(amount: real, rate: real): real { amount * rate }

  /** Converts to EUR; `None` is the `MoneyError` of an absent rate. */
  function ToEur(amount: real, currency: string, rates: map<string, real>): Option<real> {
    if currency == "EUR" then Some(ToCents(amount))
    else if currency in rates then Some(ToCents(Converted(amount, rates[currency])))
    else None
  }

  function TotalCost(price: real, shipping: Option<real>, estimate: real): CostBreakdown {
    match shipping
    case None => CostBreakdown(ToCents(price + estimate), estimate, true)
    case Some(s) => CostBreakdown(ToCents(price + s), s, false)
  }

  function EurPerGb(cost: real, totalGb: int): real
    requires totalGb > 0
  {
    ToPerGb(cost / totalGb as real)
  }

  /** A larger cost on a smaller capacity is never cheaper per gigabyte. */
  lemma QuotientMonotone(a: real, b: real, small: int, large: int)
    requires 0.0 <= a <= b && 0 < small <= large
    ensures 0.0 <= a / large as real <= b / small as real
  {
    var s, l := small as real, large as real;
    var q := a / l;
    assert q * l == a;
    assert q >= 0.0;
    assert q * s <= q * l;
    assert q <= b / s by {
      var p := b / s;
      assert p * s == b;
      if q > p { assert q * s > p * s; }
    }
  }
}
