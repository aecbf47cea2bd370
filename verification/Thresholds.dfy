/** The decision rules, in their normative order. */
module Thresholds {
  import opened Models
  import opened Rounding
  import opened Money
  import Auction
  import Market

  datatype Refusal =
    | NotQualified | BasisUnknown | TotalUnknown | BelowFloor | BelowMinTotal
    | AboveCeiling | InsufficientDiscount | AuctionGate(urgency: Urgency) | BidAboveCeiling

  /** `NoDeal(BelowFloor)` is the one refusal that asks for the language model; `MoneyError` is
      the exception of a currency without a rate. */
  datatype Verdict = IsDeal(deal: Deal) | NoDeal(why: Refusal) | MoneyError

  /** The displayed price in EUR, scaled to the whole lot when it is the price of one module. */
  function LotPrice(l: Listing, s: Spec, rates: map<string, real>): Option<real> {
    match ToEur(l.price, l.currency, rates)
    case None => None
    case Some(eur) => Some(if s.basis == Unit && s.count > 1 then Times(eur, s.count) else eur)
  }

  function ShippingEur(l: Listing, rates: map<string, real>): Option<real> {
    if l.shipping.None? then None else ToEur(l.shipping.value, l.currency, rates)
  }

  function IntegerFloor(x: real): int { x.Floor }

  function Trim(s: string): string
    decreases |s|
  {
    if s == "" then s
    else if s[0] == ' ' then Trim(s[1..])
    else if s[|s| - 1] == ' ' then Trim(s[..|s| - 1])
    else s
  }

  function LowerOf(c: char): char { if 'A' <= c <= 'Z' then (c as int + 32) as char else c }

  function Lower(s: string): string {
    seq(|s|, i requires 0 <= i < |s| => LowerOf(s[i]))
  }

  /** Seller names compare without case or surrounding blanks; an absent one reads `?`. */
  function NormalizedSeller(seller: Option<string>): string {
    if seller.None? || seller.value == "" then "?" else Lower(Trim(seller.value))
  }

  predicate IsBlank(s: string) { forall i :: 0 <= i < |s| ==> s[i] == ' ' }

  lemma {:induction false} TrimmedExactly(s: string) returns (left: string, right: string)
    ensures s == left + Trim(s) + right && IsBlank(left) && IsBlank(right)
    ensures Trim(s) != "" ==> Trim(s)[0] != ' ' && Trim(s)[|Trim(s)| - 1] != ' '
    decreases |s|
  {
    left, right := "", "";
    if s != "" && s[0] == ' ' {
      left, right := TrimmedExactly(s[1..]);
      left := " " + left;
    } else if s != "" && s[|s| - 1] == ' ' {
      left, right := TrimmedExactly(s[..|s| - 1]);
      right := right + " ";
    }
  }

  /** The same character, or the two cases of one letter. */
  predicate SameLetter(c: char, d: char) {
    || c == d
    || ('A' <= c <= 'Z' && d as int == c as int + 32)
    || ('A' <= d <= 'Z' && c as int == d as int + 32)
  }

  lemma LettersAgree(c: char, d: char)
    ensures LowerOf(c) == LowerOf(d) <==> SameLetter(c, d)
  {
  }

  lemma LowerAgrees(a: string, b: string)
    ensures Lower(a) == Lower(b) <==> |a| == |b| && forall i :: 0 <= i < |a| ==> SameLetter(a[i], b[i])
  {
    var x, y := Lower(a), Lower(b);
    if |a| == |b| {
      forall i | 0 <= i < |a| ensures x[i] == y[i] <==> SameLetter(a[i], b[i]) {
        LettersAgree(a[i], b[i]);
      }
    }
  }

  /** Names that differ only in blanks around them and in case make one seller; others do not. */
  lemma SellersAgreeExactly(a: string, b: string)
    requires a != "" && b != ""
    ensures NormalizedSeller(Some(a)) == NormalizedSeller(Some(b)) <==>
      |Trim(a)| == |Trim(b)| && forall i :: 0 <= i < |Trim(a)| ==> SameLetter(Trim(a)[i], Trim(b)[i])
  {
    LowerAgrees(Trim(a), Trim(b));
  }

  /** Listings without a seller share one name. */
  lemma AnonymousSellers(seller: Option<string>)
    ensures seller.None? || seller.value == "" ==> NormalizedSeller(seller) == "?"
  {
  }

  function FingerprintOf(l: Listing, s: Spec, lotPrice: real): Fingerprint {
    Fingerprint(
      NormalizedSeller(l.seller),
      if s.capacity.Some? then s.capacity.value else 0,
      s.count,
      IntegerFloor(lotPrice / 10.0))
  }

  predicate InTenEuros(price: real, bucket: int) {
    10.0 * bucket as real <= price < 10.0 * bucket as real + 10.0
  }

  lemma SameBucketExactly(price: real, price': real)
    ensures IntegerFloor(price / 10.0) == IntegerFloor(price' / 10.0) <==>
      exists bucket: int :: InTenEuros(price, bucket) && InTenEuros(price', bucket)
  {
    assert InTenEuros(price, IntegerFloor(price / 10.0));
    assert InTenEuros(price', IntegerFloor(price' / 10.0));
    forall bucket: int | InTenEuros(price, bucket) && InTenEuros(price', bucket)
      ensures IntegerFloor(price / 10.0) == bucket == IntegerFloor(price' / 10.0)
    {
    }
  }

  /** Two readings share a fingerprint if and only if their sellers' names agree, and their capacity,
      count and ten-euro bucket. */
  lemma FingerprintsAgreeExactly(l: Listing, s: Spec, price: real, l': Listing, s': Spec, price': real)
    ensures FingerprintOf(l, s, price) == FingerprintOf(l', s', price') <==>
      && NormalizedSeller(l.seller) == NormalizedSeller(l'.seller)
      && (if s.capacity.Some? then s.capacity.value else 0) == (if s'.capacity.Some? then s'.capacity.value else 0)
      && s.count == s'.count
      && exists bucket: int :: InTenEuros(price, bucket) && InTenEuros(price', bucket)
  {
    SameBucketExactly(price, price');
    hide NormalizedSeller, InTenEuros;
  }

  /** The reference price the discount is measured against. */
  function Reference(s: Spec, index: Index): Option<real>
    requires s.total.Some?
  {
    Market.ReferenceFor(
      if s.capacity.Some? && s.capacity.value != 0 then s.capacity.value else s.total.value, index)
  }

  function Discount(perGb: real, ref: Option<real>): real {
    if ref.None? || ref.value <= 0.0 then 0.0 else 1.0 - perGb / ref.value
  }

  /** The current bid plus increment, in EUR. */
  function BidEur(l: Listing, p: Policy): Option<real> {
    ToEur(Auction.EffectiveBid(l, p.bidIncrement), l.currency, p.rates)
  }

  /** What the next bid would cost per gigabyte, shipping included. */
  function BidPerGb(l: Listing, s: Spec, p: Policy): real
    requires s.total.Some? && s.total.value > 0
    requires LotPrice(l, s, p.rates).Some?
  {
    EurPerGb(TotalCost(BidEur(l, p).value, ShippingEur(l, p.rates), p.shippingEstimate).total,
             s.total.value)
  }

  function Evaluate(l: Listing, s: Spec, index: Index, p: Policy, now: int, observation: bool): (v: Verdict)
  {
    if !s.Qualified() then NoDeal(NotQualified)
    else if s.basis == UnknownBasis && s.via != Llm then NoDeal(BasisUnknown)
    else if s.total.None? || s.total.value <= 0 then NoDeal(TotalUnknown)
    else if LotPrice(l, s, p.rates).None? then MoneyError
    else
      var price := LotPrice(l, s, p.rates).value;
      var shipping := ShippingEur(l, p.rates);
      var cost := TotalCost(price, shipping, p.shippingEstimate);
      var perGb := EurPerGb(cost.total, s.total.value);
      var ref := Reference(s, index);
      var discount := Discount(perGb, ref);
      if perGb < p.floor then NoDeal(BelowFloor)
      else if s.total.value < p.minTotal then NoDeal(BelowMinTotal)
      else if perGb >= p.ceiling then NoDeal(AboveCeiling)
      else if !observation && (ref.None? || discount <= p.minDiscount) then NoDeal(InsufficientDiscount)
      else
        var fp := FingerprintOf(l, s, price);
        if l.saleType == Auction then
          var urgency := Auction.Gate(l, now, p.gateMinutes);
          if urgency == Watch || urgency == NoUrgency then NoDeal(AuctionGate(urgency))
          else if BidPerGb(l, s, p) >= p.ceiling then NoDeal(BidAboveCeiling)
          else IsDeal(Deal(l, s, cost.total, perGb, ref, discount, Quiet,
                           Some(Auction.MaxBid(s.total.value, p.ceiling, cost.shippingUsed)),
                           fp, cost.shippingEstimated))
        else
          IsDeal(Deal(l, s, cost.total, perGb, ref, discount, Immediate, None, fp,
                      cost.shippingEstimated))
  }

  /** The price is a currency-convertible one exactly when the rules cannot raise, and they
      raise on nothing else than an absent rate met after the three cheap refusals. */
  lemma RaisesExactlyOnMissingRate(l: Listing, s: Spec, index: Index, p: Policy, now: int, observation: bool)
    ensures Evaluate(l, s, index, p, now, observation).MoneyError? <==>
      && s.Qualified() && (s.basis == UnknownBasis ==> s.via == Llm)
      && s.total.Some? && s.total.value > 0
      && l.currency != "EUR" && l.currency !in p.rates
  {
  }

  /** Every guard a deal has passed, whatever the order they were tried in. */
  ghost predicate Passes(d: Deal, p: Policy, now: int, observation: bool) {
    var l, s := d.listing, d.spec;
    && s.Qualified()
    && (s.basis == UnknownBasis ==> s.via == Llm)
    && s.total.Some? && s.total.value > 0 && s.total.value >= p.minTotal
    && p.floor <= d.eurPerGb < p.ceiling
    && (!observation ==> d.marketRef.Some? && d.discount > p.minDiscount)
    && (d.urgency == Quiet || d.urgency == Immediate)
    && (d.urgency == Quiet <==> l.saleType == Auction)
    && (l.saleType == Auction ==>
          && l.endsAt.Some?
          && 0 < l.endsAt.value - now <= p.gateMinutes * 60_000_000
          && BidEur(l, p).Some? && d.maxBid.Some?)
  }

  lemma DealsPass(l: Listing, s: Spec, index: Index, p: Policy, now: int, observation: bool)
    requires Evaluate(l, s, index, p, now, observation).IsDeal?
    ensures var d := Evaluate(l, s, index, p, now, observation).deal;
      d.listing == l && d.spec == s && Passes(d, p, now, observation)
  {
  }

  /** The price lies more than `minDiscount` under the reference; a worthless reference only
      passes a negative barrier. */
  predicate Undercuts(perGb: real, ref: Option<real>, minDiscount: real) {
    && ref.Some?
    && (ref.value > 0.0 ==> perGb < (1.0 - minDiscount) * ref.value)
    && (ref.value <= 0.0 ==> minDiscount < 0.0)
  }

  lemma BarrierMeansUndercuts(perGb: real, ref: Option<real>, minDiscount: real)
    ensures (ref.Some? && Discount(perGb, ref) > minDiscount) <==> Undercuts(perGb, ref, minDiscount)
  {
    if ref.Some? && ref.value > 0.0 {
      var q := perGb / ref.value;
      assert q * ref.value == perGb;
      if q < 1.0 - minDiscount {
        assert q * ref.value < (1.0 - minDiscount) * ref.value;
      } else {
        assert q * ref.value >= (1.0 - minDiscount) * ref.value;
      }
    }
  }

  /** The advertised total for a reading, all in EUR. */
  function LotCost(l: Listing, s: Spec, p: Policy): real
    requires LotPrice(l, s, p.rates).Some?
  {
    TotalCost(LotPrice(l, s, p.rates).value, ShippingEur(l, p.rates), p.shippingEstimate).total
  }

  /** The price per gigabyte the rules judge a reading by. */
  function RulePerGb(l: Listing, s: Spec, p: Policy): real
    requires s.total.Some? && s.total.value > 0 && LotPrice(l, s, p.rates).Some?
  {
    EurPerGb(LotCost(l, s, p), s.total.value)
  }

  /** What makes a listing a deal, free of the order the rules are tried in. */
  predicate IsBargain(l: Listing, s: Spec, index: Index, p: Policy, now: int, observation: bool) {
    && s.Qualified() && (s.basis == UnknownBasis ==> s.via == Llm)
    && s.total.Some? && s.total.value > 0 && s.total.value >= p.minTotal
    && LotPrice(l, s, p.rates).Some?
    && p.floor <= RulePerGb(l, s, p) < p.ceiling
    && (observation || Undercuts(RulePerGb(l, s, p), Reference(s, index), p.minDiscount))
    && (l.saleType == Auction ==>
          && l.endsAt.Some?
          && 0 < l.endsAt.value - now <= p.gateMinutes * 60_000_000
          && BidPerGb(l, s, p) < p.ceiling)
  }

  /** Exactly the bargains are deals. */
  lemma DealExactly(l: Listing, s: Spec, index: Index, p: Policy, now: int, observation: bool)
    ensures Evaluate(l, s, index, p, now, observation).IsDeal? <==> IsBargain(l, s, index, p, now, observation)
  {
    if s.total.Some? && s.total.value > 0 && LotPrice(l, s, p.rates).Some? {
      BarrierMeansUndercuts(RulePerGb(l, s, p), Reference(s, index), p.minDiscount);
    }
    hide Undercuts, Discount, EurPerGb, TotalCost, LotPrice, BidPerGb, Reference;
  }

  /** A reading sound enough to be judged whose price is too low to be believed. */
  predicate IsImplausible(l: Listing, s: Spec, p: Policy) {
    && s.Qualified() && (s.basis == UnknownBasis ==> s.via == Llm)
    && s.total.Some? && s.total.value > 0 && LotPrice(l, s, p.rates).Some?
    && RulePerGb(l, s, p) < p.floor
  }

  /** Exactly those are refused as below the floor, whatever their volume. */
  lemma FloorExactly(l: Listing, s: Spec, index: Index, p: Policy, now: int, observation: bool)
    ensures Evaluate(l, s, index, p, now, observation) == NoDeal(BelowFloor) <==> IsImplausible(l, s, p)
  {
    hide Undercuts, Discount, EurPerGb, TotalCost, LotPrice, BidPerGb, Reference;
  }

  /** Outside observation mode a deal was compared with a reference from the index. */
  lemma DealReference(l: Listing, s: Spec, index: Index, p: Policy, now: int, observation: bool)
    requires Evaluate(l, s, index, p, now, observation).IsDeal?
    ensures !observation ==> index != []
  {
  }

  /** The modules one displayed price pays for. */
  function UnitsPaid(s: Spec): int { if s.basis == Unit && s.count > 1 then s.count else 1 }

  /** The displayed price, for all the modules it is meant to buy. */
  function TruePrice(l: Listing, s: Spec): real { Times(l.price, UnitsPaid(s)) }

  /** The shipping a listing shows, or the estimate. */
  function ShownShipping(l: Listing, p: Policy): real {
    if l.shipping.Some? then l.shipping.value else p.shippingEstimate
  }

  lemma TruePriceByCase(l: Listing, s: Spec)
    ensures TruePrice(l, s) == if s.basis == Unit && s.count > 1 then Times(l.price, s.count) else l.price
  {
  }

  lemma Reorder(x: real, m: real)
    ensures x * m * 100.0 == x * 100.0 * m
  {
  }

  lemma ProductOfIntegers(a: int, b: int)
    ensures a as real * b as real == (a * b) as real
  {
  }

  lemma TimesIsWhole(x: real, n: int, y: real)
    requires WholeCents(x) && y == x * n as real
    ensures WholeCents(y)
  {
    var cents, m := (x * 100.0).Floor, n as real;
    Reorder(x, m);
    ProductOfIntegers(cents, n);
    Integral(y * 100.0, cents * n);
  }

  lemma TruePriceIsWhole(l: Listing, s: Spec)
    requires WholeCents(l.price)
    ensures WholeCents(TruePrice(l, s))
  {
    hide WholeCents;
    TimesIsWhole(l.price, UnitsPaid(s), TruePrice(l, s));
  }

  lemma EurLot(l: Listing, s: Spec, rates: map<string, real>)
    requires l.currency == "EUR" && WholeCents(l.price)
    ensures LotPrice(l, s, rates) == Some(TruePrice(l, s))
    ensures WholeCents(TruePrice(l, s))
  {
    CentsFixed(l.price);
    TruePriceByCase(l, s);
    TruePriceIsWhole(l, s);
    hide ToCents, WholeCents, TruePrice;
  }

  lemma DealCost(l: Listing, s: Spec, index: Index, p: Policy, now: int, observation: bool)
    requires Evaluate(l, s, index, p, now, observation).IsDeal?
    ensures s.total.Some? && s.total.value > 0 && LotPrice(l, s, p.rates).Some?
    ensures var d := Evaluate(l, s, index, p, now, observation).deal;
      && d.totalCost == TotalCost(LotPrice(l, s, p.rates).value, ShippingEur(l, p.rates), p.shippingEstimate).total
      && d.eurPerGb == EurPerGb(d.totalCost, s.total.value)
      && d.marketRef == Reference(s, index) && d.discount == Discount(d.eurPerGb, d.marketRef)
      && d.fingerprint == FingerprintOf(l, s, LotPrice(l, s, p.rates).value)
  {
  }

  /** The rest of what a deal advertises: whether its shipping was estimated, and, for an auction only,
      the maximum bid after the shipping charged. */
  lemma DealFields(l: Listing, s: Spec, index: Index, p: Policy, now: int, observation: bool)
    requires Evaluate(l, s, index, p, now, observation).IsDeal?
    ensures s.total.Some?
    ensures var d := Evaluate(l, s, index, p, now, observation).deal;
      && (d.shippingEstimated <==> l.shipping.None?)
      && (l.saleType != Auction ==> d.maxBid == None)
      && (l.saleType == Auction ==> d.maxBid == Some(Auction.MaxBid(s.total.value, p.ceiling,
            if l.shipping.None? then p.shippingEstimate else ToEur(l.shipping.value, l.currency, p.rates).value)))
  {
  }

  /** For amounts in whole euro cents no rounding touches the total a deal advertises. */
  lemma DealTotalIsExact(l: Listing, s: Spec, index: Index, p: Policy, now: int, observation: bool)
    requires l.currency == "EUR" && WholeCents(l.price) && WholeCents(ShownShipping(l, p))
    requires Evaluate(l, s, index, p, now, observation).IsDeal?
    ensures Evaluate(l, s, index, p, now, observation).deal.totalCost == TruePrice(l, s) + ShownShipping(l, p)
  {
    CentsFixed(ShownShipping(l, p));
    DealCost(l, s, index, p, now, observation);
    EurLot(l, s, p.rates);
    hide Evaluate, ToCents, ToPerGb, WholeCents, LotPrice, TruePrice, Discount, EurPerGb;
    WholeCentsSum(TruePrice(l, s), ShownShipping(l, p));
    CentsFixed(TruePrice(l, s) + ShownShipping(l, p));
  }

  lemma PerGbIsClose(cost: real, total: int)
    requires total > 0
    ensures -0.00005 <= EurPerGb(cost, total) - cost / total as real <= 0.00005
  {
    var x := cost / total as real;
    var n := HalfUp(x * 10000.0);
    assert -0.5 <= n as real - x * 10000.0 <= 0.5;
  }

  /** And the price per gigabyte it advertises is within half a ten-thousandth of the true one:
      three roundings together err no more than one. */
  lemma DealPriceIsTrue(l: Listing, s: Spec, index: Index, p: Policy, now: int, observation: bool)
    requires l.currency == "EUR" && WholeCents(l.price) && WholeCents(ShownShipping(l, p))
    requires Evaluate(l, s, index, p, now, observation).IsDeal?
    ensures s.total.Some? && s.total.value > 0
    ensures var perGb := Evaluate(l, s, index, p, now, observation).deal.eurPerGb;
      -0.00005 <= perGb - (TruePrice(l, s) + ShownShipping(l, p)) / s.total.value as real <= 0.00005
  {
    DealTotalIsExact(l, s, index, p, now, observation);
    DealCost(l, s, index, p, now, observation);
    hide Evaluate, TruePrice, EurPerGb, TotalCost, Discount;
    PerGbIsClose(TruePrice(l, s) + ShownShipping(l, p), s.total.value);
  }

  /** The market sample the index takes from the listing behind a deal. */
  function SampleOf(l: Listing, s: Spec, p: Policy): int
    requires s.total.Some? && s.total.value > 0
  {
    Market.Sample(Market.Row(l.price, l.shipping, if s.capacity.Some? then s.capacity.value else 0, s.total.value), p.shippingEstimate)
  }

  lemma LotAtLeastUnit(l: Listing, s: Spec)
    requires l.price >= 0.0
    ensures l.price <= TruePrice(l, s)
    ensures UnitsPaid(s) == 1 ==> l.price == TruePrice(l, s)
  {
  }

  lemma SampleIsRounded(l: Listing, s: Spec, p: Policy)
    requires s.total.Some? && s.total.value > 0
    ensures SampleOf(l, s, p) as real / 10000.0
      == EurPerGb(ToCents(l.price + ShownShipping(l, p)), s.total.value)
  {
  }

  lemma Scales(a: real, b: real, g: real)
    requires a <= b && g > 0.0
    ensures a / g * 10000.0 <= b / g * 10000.0
  {
    var q := (b - a) / g;
    assert q * g == b - a;
    assert q >= 0.0;
    assert b / g == a / g + q;
  }

  lemma CostsInOrder(low: real, high: real, total: int)
    requires low <= high && total > 0
    ensures EurPerGb(ToCents(low), total) <= EurPerGb(ToCents(high), total)
  {
    Monotone(low * 100.0, high * 100.0);
    var a, b, g := ToCents(low), ToCents(high), total as real;
    Scales(a, b, g);
    Monotone(a / g * 10000.0, b / g * 10000.0);
  }

  /** The index reads a euro listing at the price the rules judge it by, unless that price is one
      module's: then the sample never exceeds the judged price. */
  lemma SampleAgainstDeal(l: Listing, s: Spec, index: Index, p: Policy, now: int, observation: bool)
    requires l.currency == "EUR" && l.price >= 0.0 && WholeCents(l.price)
    requires l.shipping.Some? ==> WholeCents(l.shipping.value)
    requires Evaluate(l, s, index, p, now, observation).IsDeal?
    ensures var d := Evaluate(l, s, index, p, now, observation).deal;
      && SampleOf(l, s, p) as real / 10000.0 <= d.eurPerGb
      && (UnitsPaid(s) == 1 ==> SampleOf(l, s, p) as real / 10000.0 == d.eurPerGb)
  {
    var extra := ShownShipping(l, p);
    var lot := TruePrice(l, s);
    if l.shipping.Some? { CentsFixed(l.shipping.value); }
    DealCost(l, s, index, p, now, observation);
    EurLot(l, s, p.rates);
    hide Evaluate, ToCents, EurPerGb, SampleOf, WholeCents, LotPrice, TruePrice;
    LotAtLeastUnit(l, s);
    CostsInOrder(l.price + extra, lot + extra, s.total.value);
    SampleIsRounded(l, s, p);
  }

  lemma OneApart(x: real, y: real)
    requires y >= x + 1.0
    ensures HalfUp(x) < HalfUp(y)
  {
  }

  lemma GapSurvives(low: real, high: real, total: int)
    requires total > 0 && high >= low + 0.0001 * total as real
    ensures EurPerGb(low, total) < EurPerGb(high, total)
  {
    var g := total as real;
    var q := (high - low) / g;
    assert q * g == high - low;
    assert q >= 0.0001;
    assert high / g == low / g + q;
    OneApart(low / g * 10000.0, high / g * 10000.0);
  }

  /** In any currency and for any basis the sample follows the total it is taken from: it is the
      judged price when the unconverted total is the advertised one, and differs on that total's
      side as soon as the two are a ten-thousandth of a euro per gigabyte apart. */
  lemma SampleFollowsTotal(l: Listing, s: Spec, index: Index, p: Policy, now: int, observation: bool)
    requires s.total.Some? && s.total.value > 0
    ensures var v := Evaluate(l, s, index, p, now, observation);
      var shown := ToCents(l.price + ShownShipping(l, p));
      var sample, apart := SampleOf(l, s, p) as real / 10000.0, 0.0001 * s.total.value as real;
      v.IsDeal? ==>
        && (shown == v.deal.totalCost ==> sample == v.deal.eurPerGb)
        && (shown + apart <= v.deal.totalCost ==> sample < v.deal.eurPerGb)
        && (v.deal.totalCost + apart <= shown ==> v.deal.eurPerGb < sample)
  {
    var v := Evaluate(l, s, index, p, now, observation);
    if v.IsDeal? {
      DealCost(l, s, index, p, now, observation);
      SampleIsRounded(l, s, p);
      hide Evaluate, EurPerGb, TotalCost, SampleOf, Discount;
      var shown, apart := ToCents(l.price + ShownShipping(l, p)), 0.0001 * s.total.value as real;
      hide ToCents;
      if shown + apart <= v.deal.totalCost { GapSurvives(shown, v.deal.totalCost, s.total.value); }
      if v.deal.totalCost + apart <= shown { GapSurvives(v.deal.totalCost, shown, s.total.value); }
    }
  }

  lemma ForeignCost(l: Listing, s: Spec, p: Policy)
    requires l.currency in p.rates && UnitsPaid(s) == 1 && l.shipping.Some?
    ensures LotPrice(l, s, p.rates) == ToEur(l.price, l.currency, p.rates)
    ensures ShippingEur(l, p.rates) == ToEur(l.shipping.value, l.currency, p.rates)
  {
    hide ToEur;
  }

  lemma ProductBySide(amount: real, rate: real, product: real)
    requires amount >= 0.0 && product == amount * rate
    ensures rate <= 1.0 ==> product <= amount
    ensures rate >= 1.0 ==> amount <= product
  {
  }

  lemma CentsInOrder(low: real, high: real)
    requires low <= high
    ensures ToCents(low) <= ToCents(high)
  {
    Monotone(low * 100.0, high * 100.0);
  }

  lemma ConvertedBySide(amount: real, currency: string, rates: map<string, real>)
    requires currency != "EUR" && currency in rates && amount >= 0.0 && WholeCents(amount)
    ensures ToEur(amount, currency, rates).Some?
    ensures rates[currency] <= 1.0 ==> ToEur(amount, currency, rates).value <= amount
    ensures rates[currency] >= 1.0 ==> amount <= ToEur(amount, currency, rates).value
  {
    var product := Converted(amount, rates[currency]);
    CentsFixed(amount);
    ProductBySide(amount, rates[currency], product);
    assert ToEur(amount, currency, rates) == Some(ToCents(product));
    hide ToCents, WholeCents, ToEur;
    if product <= amount { CentsInOrder(product, amount); }
    if amount <= product { CentsInOrder(amount, product); }
  }

  /** The sample of a foreign lot with a shown shipping errs on one side, the side of its rate; at a
      rate of one it is the judged price. */
  lemma ForeignSampleErrsWithRate(l: Listing, s: Spec, index: Index, p: Policy, now: int, observation: bool)
    requires l.currency != "EUR" && l.currency in p.rates
    requires UnitsPaid(s) == 1 && l.price >= 0.0 && WholeCents(l.price)
    requires l.shipping.Some? && l.shipping.value >= 0.0 && WholeCents(l.shipping.value)
    requires s.total.Some? && s.total.value > 0
    ensures var v := Evaluate(l, s, index, p, now, observation); var rate := p.rates[l.currency];
      v.IsDeal? ==>
        && (rate <= 1.0 ==> v.deal.eurPerGb <= SampleOf(l, s, p) as real / 10000.0)
        && (rate >= 1.0 ==> SampleOf(l, s, p) as real / 10000.0 <= v.deal.eurPerGb)
  {
    if Evaluate(l, s, index, p, now, observation).IsDeal? {
      var rate := p.rates[l.currency];
      DealCost(l, s, index, p, now, observation);
      ForeignCost(l, s, p);
      SampleIsRounded(l, s, p);
      ConvertedBySide(l.price, l.currency, p.rates);
      ConvertedBySide(l.shipping.value, l.currency, p.rates);
      hide Evaluate, ToEur, LotPrice, ShippingEur, ToCents, EurPerGb, SampleOf, WholeCents, Discount;
      var shown := l.price + l.shipping.value;
      var converted := ToEur(l.price, l.currency, p.rates).value + ToEur(l.shipping.value, l.currency, p.rates).value;
      if rate <= 1.0 { CostsInOrder(converted, shown, s.total.value); }
      if rate >= 1.0 { CostsInOrder(shown, converted, s.total.value); }
    }
  }

  lemma LotAtLeastDouble(l: Listing, s: Spec)
    requires l.price >= 0.0 && UnitsPaid(s) > 1
    ensures TruePrice(l, s) >= l.price + l.price
  {
    assert l.price * (UnitsPaid(s) - 2) as real >= 0.0;
  }

  /** The sample of a listing priced by the module understates it, and by more than rounding can
      hide as soon as one module costs a ten-thousandth of a euro per gigabyte of the lot. */
  lemma UnitSamplesUnderstate(l: Listing, s: Spec, index: Index, p: Policy, now: int, observation: bool)
    requires l.currency == "EUR" && WholeCents(l.price) && WholeCents(ShownShipping(l, p))
    requires Evaluate(l, s, index, p, now, observation).IsDeal?
    requires UnitsPaid(s) > 1 && s.total.Some? && l.price >= 0.0001 * s.total.value as real
    ensures s.total.value > 0
    ensures SampleOf(l, s, p) as real / 10000.0 < Evaluate(l, s, index, p, now, observation).deal.eurPerGb
  {
    CentsFixed(ShownShipping(l, p));
    DealCost(l, s, index, p, now, observation);
    EurLot(l, s, p.rates);
    hide Evaluate, ToCents, EurPerGb, SampleOf, WholeCents, LotPrice, TruePrice;
    var extra := ShownShipping(l, p);
    WholeCentsSum(l.price, extra);
    WholeCentsSum(TruePrice(l, s), extra);
    CentsFixed(l.price + extra);
    CentsFixed(TruePrice(l, s) + extra);
    LotAtLeastDouble(l, s);
    GapSurvives(l.price + extra, TruePrice(l, s) + extra, s.total.value);
    SampleIsRounded(l, s, p);
  }

  /** The shipping charged to a lot: the listed one or the estimate. */
  function ShippingUsed(l: Listing, p: Policy): real {
    var shipping := ShippingEur(l, p.rates);
    if shipping.Some? then shipping.value else p.shippingEstimate
  }

  lemma ConvertedIsWholeCents(amount: real, currency: string, rates: map<string, real>)
    ensures ToEur(amount, currency, rates).Some? ==> WholeCents(ToEur(amount, currency, rates).value)
  {
    ToCentsIsWhole(amount);
    if currency in rates { ToCentsIsWhole(Converted(amount, rates[currency])); }
  }

  lemma AmountsAreWholeCents(l: Listing, p: Policy)
    requires WholeCents(p.shippingEstimate)
    ensures BidEur(l, p).Some? ==> WholeCents(BidEur(l, p).value)
    ensures WholeCents(ShippingUsed(l, p))
  {
    ConvertedIsWholeCents(Auction.EffectiveBid(l, p.bidIncrement), l.currency, p.rates);
    if l.shipping.Some? {
      ConvertedIsWholeCents(l.shipping.value, l.currency, p.rates);
    }
  }

  lemma BidBelowCeilingFits(l: Listing, s: Spec, p: Policy)
    requires OnPerGbGrid(p.ceiling) && WholeCents(p.shippingEstimate)
    requires s.total.Some? && s.total.value > 0
    requires LotPrice(l, s, p.rates).Some?
    requires BidPerGb(l, s, p) < p.ceiling
    ensures BidEur(l, p).Some?
    ensures BidEur(l, p).value <= Auction.MaxBid(s.total.value, p.ceiling, ShippingUsed(l, p))
  {
    AmountsAreWholeCents(l, p);
    Auction.BidFitsUnderMaxBid(BidEur(l, p).value, ShippingUsed(l, p), s.total.value, p.ceiling);
  }

  /** Every auction deal: the current bid, or the price while there is none, plus the increment is in
      EUR at most the advertised maximum. */
  lemma AuctionDealWithinMaxBid(l: Listing, s: Spec, index: Index, p: Policy, now: int, observation: bool)
    requires OnPerGbGrid(p.ceiling) && WholeCents(p.shippingEstimate)
    ensures var v := Evaluate(l, s, index, p, now, observation);
      var bid := ToEur((if l.currentBid.Some? then l.currentBid.value else l.price) + p.bidIncrement, l.currency, p.rates);
      v.IsDeal? && l.saleType == Auction ==>
        v.deal.maxBid.Some? && bid.Some? && bid.value <= v.deal.maxBid.value
  {
    var v := Evaluate(l, s, index, p, now, observation);
    if v.IsDeal? && l.saleType == Auction {
      BidBelowCeilingFits(l, s, p);
    }
  }
}
