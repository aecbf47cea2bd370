/** The free prefilter: an upper bound on the capacity a text can mean, and the price per gigabyte
    no reading of the listing can beat. */
module Prefilter {
  import opened Models
  import opened Rounding
  import opened Money
  import opened Grammar
  import opened Thresholds

  const MAX_MODULES := 16
  const SAFETY_CEILING_GB := 2048

  function LastFour(digits: seq<nat>): seq<nat> {
    if |digits| <= 4 then digits else digits[|digits| - 4..]
  }

  /** `_CAP_RE`: no boundary on the left, so of a longer run the last four digits match. */
  function LenientMatches(runs: seq<DigitRun>): seq<int> {
    if runs == [] then []
    else
      var rest := LenientMatches(runs[1..]);
      if runs[0].unit && |runs[0].digits| >= 1 then [DigitsValue(LastFour(runs[0].digits))] + rest else rest
  }

  function LenientCaps(s: Scan): seq<int> {
    Filter(LenientMatches(s.runs), v => 1 <= v <= 4096)
  }

  function Products(pairs: seq<(nat, nat)>): seq<int> {
    if pairs == [] then [] else [pairs[0].0 * pairs[0].1] + Products(pairs[1..])
  }

  /** The largest number of modules the text could mean. */
  function GenerousModules(s: Scan): (n: int)
    ensures MaxPlausible(s) <= n <= MAX_MODULES
  {
    if MaxPlausible(s) == 1 && s.unitMarker then MAX_MODULES else MaxPlausible(s)
  }

  /** The largest capacity the text writes times the largest count it could mean. */
  function LargestReading(s: Scan): int {
    if LenientCaps(s) == [] then 0 else SeqMax(LenientCaps(s)) * GenerousModules(s)
  }

  function Candidates(s: Scan): seq<int> {
    s.totals + Products(s.nxm + s.parensNxm)
    + if LenientCaps(s) == [] then []
      else [SeqMax(LenientCaps(s)) * GenerousModules(s), SeqMax(LenientCaps(s))]
  }

  function OptimisticTotal(s: Scan): Option<int> {
    if Candidates(s) == [] || SeqMax(Candidates(s)) > SAFETY_CEILING_GB then None
    else Some(SeqMax(Candidates(s)))
  }

  lemma {:induction false} ProductsMember(pairs: seq<(nat, nat)>, x: int)
    ensures x in Products(pairs) <==> exists p :: p in pairs && x == p.0 * p.1
  {
    if pairs == [] {
    } else {
      ProductsMember(pairs[1..], x);
      assert forall p :: p in pairs <==> p == pairs[0] || p in pairs[1..];
    }
  }

  /** A capacity the text may mean: a declared total, an N x M product, or the largest capacity written,
      alone or times the most modules it could mean. */
  predicate IsReading(s: Scan, c: int) {
    || c in s.totals
    || (exists p :: p in s.nxm + s.parensNxm && c == p.0 * p.1)
    || (LenientCaps(s) != [] && (c == SeqMax(LenientCaps(s)) * GenerousModules(s) || c == SeqMax(LenientCaps(s))))
  }

  lemma CandidatesExactly(s: Scan, c: int)
    ensures c in Candidates(s) <==> IsReading(s, c)
  {
    ProductsMember(s.nxm + s.parensNxm, c);
    hide LenientCaps, GenerousModules;
  }

  /** When a text can be bounded, and by what: the largest of its readings, if there is one and none
      exceeds 2048. */
  lemma BoundExactly(s: Scan)
    ensures var bound := OptimisticTotal(s);
      && (bound.Some? <==> (exists c :: IsReading(s, c)) && forall c :: IsReading(s, c) ==> c <= 2048)
      && (bound.Some? ==> IsReading(s, bound.value) && forall c :: IsReading(s, c) ==> c <= bound.value)
  {
    forall c ensures c in Candidates(s) <==> IsReading(s, c) { CandidatesExactly(s, c); }
    hide Candidates, IsReading;
    if Candidates(s) != [] { assert Candidates(s)[0] in Candidates(s); }
  }

  lemma SplitLastFour(digits: seq<nat>)
    requires |digits| > 4
    ensures var n := |digits|;
      digits == digits[..n - 4] + [digits[n - 4], digits[n - 3], digits[n - 2], digits[n - 1]]
  {
  }

  lemma EmptyIsZero()
    ensures DigitsValue([]) == 0
  {
  }

  lemma OneMore(high: seq<nat>, a: nat)
    ensures DigitsValue(high + [a]) == 10 * DigitsValue(high) + a
  {
    assert (high + [a])[..|high|] == high;
  }

  lemma FourMore(high: seq<nat>, a: nat, b: nat, c: nat, d: nat)
    ensures DigitsValue(high + [a, b, c, d]) == 10_000 * DigitsValue(high) + 1000 * a + 100 * b + 10 * c + d
  {
    OneMore(high, a);
    OneMore(high + [a], b);
    OneMore(high + [a] + [b], c);
    OneMore(high + [a] + [b] + [c], d);
    assert high + [a, b, c, d] == high + [a] + [b] + [c] + [d];
  }

  lemma LastFourOf(digits: seq<nat>, high: seq<nat>, a: nat, b: nat, c: nat, d: nat)
    requires digits == high + [a, b, c, d] && high != [] && a <= 9 && b <= 9 && c <= 9 && d <= 9
    ensures DigitsValue(LastFour(digits)) == DigitsValue(digits) % 10_000
  {
    FourMore(high, a, b, c, d);
    FourMore([], a, b, c, d);
    assert LastFour(digits) == [] + [a, b, c, d];
    hide DigitsValue, LastFour;
    assert DigitsValue([]) == 0 by { EmptyIsZero(); }
  }

  lemma {:induction false} DigitsBelow(digits: seq<nat>)
    requires |digits| <= 4 && forall i :: 0 <= i < |digits| ==> digits[i] <= 9
    ensures DigitsValue(digits) < 10_000
    ensures |digits| == 0 ==> DigitsValue(digits) == 0
    ensures |digits| <= 3 ==> DigitsValue(digits) < 1000
    ensures |digits| <= 2 ==> DigitsValue(digits) < 100
    ensures |digits| <= 1 ==> DigitsValue(digits) < 10
  {
    if digits != [] { DigitsBelow(digits[..|digits| - 1]); }
  }

  /** The last four digits are the value modulo ten thousand. */
  lemma LastFourIsRemainder(digits: seq<nat>)
    requires forall i :: 0 <= i < |digits| ==> digits[i] <= 9
    ensures DigitsValue(LastFour(digits)) == DigitsValue(digits) % 10_000
  {
    if |digits| <= 4 {
      DigitsBelow(digits);
      hide DigitsValue;
    } else {
      hide DigitsValue, LastFour;
      var n := |digits|;
      SplitLastFour(digits);
      LastFourOf(digits, digits[..n - 4], digits[n - 4], digits[n - 3], digits[n - 2], digits[n - 1]);
    }
  }

  /** What the lenient expression reads of a run: any run with a unit, boundary or not, by its last
      four digits. */
  lemma {:induction false} LenientExactly(runs: seq<DigitRun>, x: int)
    ensures x in LenientMatches(runs) <==>
      exists r :: r in runs && r.unit && |r.digits| >= 1 && DigitsValue(LastFour(r.digits)) == x
  {
    if runs != [] {
      LenientExactly(runs[1..], x);
      assert forall r :: r in runs <==> r == runs[0] || r in runs[1..];
    }
  }

  /** The most modules a text could mean: the generous count, or 16 when it counts one but prices by
      the unit. */
  lemma ModulesExactly(s: Scan)
    ensures GenerousModules(s) == 16 <==> MaxPlausible(s) == 16 || (MaxPlausible(s) == 1 && s.unitMarker)
    ensures GenerousModules(s) != 16 ==> GenerousModules(s) == MaxPlausible(s)
  {
  }

  lemma ProductsAppend(pairs: seq<(nat, nat)>, p: (nat, nat))
    ensures Products(pairs + [p]) == Products(pairs) + [p.0 * p.1]
  {
    if pairs != [] {
      assert (pairs + [p])[1..] == pairs[1..] + [p];
    }
  }

  /** The body of `optimistic_total_gb`: one candidate list, grown source by source. */
  method ComputeOptimisticTotal(s: Scan) returns (bound: Option<int>)
    ensures bound == OptimisticTotal(s)
  {
    var candidates: seq<int> := s.totals;
    var pairs := s.nxm + s.parensNxm;
    for i := 0 to |pairs|
      invariant candidates == s.totals + Products(pairs[..i])
    {
      ProductsAppend(pairs[..i], pairs[i]);
      assert pairs[..i + 1] == pairs[..i] + [pairs[i]];
      candidates := candidates + [pairs[i].0 * pairs[i].1];
    }
    assert pairs[..|pairs|] == pairs;
    var caps := LenientCaps(s);
    if caps != [] {
      var largest := SeqMax(caps);
      var count := MaxPlausibleCount(s);
      if count == 1 && s.unitMarker {
        count := MAX_MODULES;
      }
      candidates := candidates + [largest * count];
      candidates := candidates + [largest];
    }
    assert candidates == Candidates(s);
    if candidates == [] {
      return None;
    }
    var upper := SeqMax(candidates);
    bound := if upper > SAFETY_CEILING_GB then None else Some(upper);
  }

  /** Whatever the strict capacity expression reads, the lenient one reads too. */
  lemma {:induction false} StrictMatchIsLenient(runs: seq<DigitRun>, c: nat)
    requires c in CapacityMatches(runs)
    ensures c in LenientMatches(runs)
  {
    if c !in CapacityMatches(runs[1..]) {
      assert LastFour(runs[0].digits) == runs[0].digits;
    } else {
      StrictMatchIsLenient(runs[1..], c);
    }
  }

  lemma ModuleCapacityIsLenient(s: Scan)
    requires ModuleCapacity(s.runs).Some?
    ensures ModuleCapacity(s.runs).value in LenientCaps(s)
  {
    var c := ModuleCapacity(s.runs).value;
    StrictMatchIsLenient(s.runs, c);
    FilterMember(LenientMatches(s.runs), v => 1 <= v <= 4096, c);
  }

  /** The parser took its count from a plain multiplier above the generous ceiling, and no
      declared total or usable N x M form overrides it. */
  predicate PlainOvercount(s: Scan) {
    && s.totals == [] && UsableNxm(s).None?
    && PlainCount(s.multipliers).Some? && PlainCount(s.multipliers).value > GENEROUS_COUNT_CEILING
  }

  lemma PlainCountIsGenerous(s: Scan)
    requires PlainCount(s.multipliers).Some? && PlainCount(s.multipliers).value <= GENEROUS_COUNT_CEILING
    ensures PlainCount(s.multipliers).value <= MaxPlausible(s)
  {
    var c := PlainCount(s.multipliers).value;
    var k := PlainCountOrigin(s.multipliers);
    FlattenMember(s.multipliers, k, c);
    GenerousCountExactly(s);
    assert IsGenerousCount(s, c);
  }

  lemma CountTimesCapacity(count: int, capacity: int, modules: int, largest: int)
    requires 0 <= count <= modules && 0 <= capacity <= largest
    ensures count * capacity <= largest * modules
  {
    assert count * capacity <= modules * capacity;
    assert modules * capacity <= modules * largest;
  }

  lemma NxmReadingIsCandidate(s: Scan)
    requires UsableNxm(s).Some?
    ensures UsableNxm(s).value.0 * UsableNxm(s).value.1 in Candidates(s)
  {
    var p := UsableNxm(s).value;
    assert p in s.nxm + s.parensNxm;
    ProductsMember(s.nxm + s.parensNxm, p.0 * p.1);
  }

  lemma PlainReadingIsDominated(s: Scan)
    requires UsableNxm(s).None? && ModuleCapacity(s.runs).Some?
    requires PlainCount(s.multipliers).Some? ==> PlainCount(s.multipliers).value <= GENEROUS_COUNT_CEILING
    ensures Candidates(s) != [] && ModuleCapacity(s.runs).value * Count(s) <= SeqMax(Candidates(s))
  {
    ModuleCapacityIsLenient(s);
    if PlainCount(s.multipliers).Some? {
      PlainCountIsGenerous(s);
    }
    CountTimesCapacity(Count(s), ModuleCapacity(s.runs).value, GenerousModules(s), SeqMax(LenientCaps(s)));
    assert SeqMax(LenientCaps(s)) * GenerousModules(s) in Candidates(s);
  }

  /** The admissible bound: whenever the prefilter can bound a text at all, its bound is at least
      the total the grammar reads from the same text, through declared totals, N x M forms, plain
      multipliers and capacity selection, as long as a plain multiplier does not exceed 16. */
  lemma BoundDominatesParse(s: Scan)
    requires OptimisticTotal(s).Some? && Parse(s).total.Some?
    requires !PlainOvercount(s)
    ensures Parse(s).total.value <= OptimisticTotal(s).value
  {
    if s.totals != [] {
      assert s.totals[0] in Candidates(s);
    } else if UsableNxm(s).Some? {
      NxmReadingIsCandidate(s);
    } else {
      PlainReadingIsDominated(s);
    }
  }

  /** Some N x M form multiplies out to `total` or more. */
  predicate NxmReaches(pairs: seq<(nat, nat)>, total: int) {
    exists p :: p in pairs && total <= p.0 * p.1
  }

  lemma BoundWithoutTotals(s: Scan, total: int)
    requires OptimisticTotal(s).Some? && s.totals == [] && ModuleCapacity(s.runs).Some?
    ensures total <= OptimisticTotal(s).value <==>
      || total <= LargestReading(s)
      || NxmReaches(s.nxm + s.parensNxm, total)
  {
    var pairs := s.nxm + s.parensNxm;
    ModuleCapacityIsLenient(s);
    assert LargestReading(s) in Candidates(s);
    FilterMembers(LenientMatches(s.runs), v => 1 <= v <= 4096);
    CountTimesCapacity(1, SeqMax(LenientCaps(s)), GenerousModules(s), SeqMax(LenientCaps(s)));
    forall p | p in pairs ensures p.0 * p.1 <= OptimisticTotal(s).value {
      ProductsMember(pairs, p.0 * p.1);
      assert p.0 * p.1 in Candidates(s);
    }
    if OptimisticTotal(s).value in Products(pairs) {
      ProductsMember(pairs, OptimisticTotal(s).value);
    }
  }

  /** Exactly when the bound holds: outside the over-count family always, and inside it only if
      another capacity or another N x M form in the text happens to be large enough. */
  lemma BoundDominatesExactly(s: Scan)
    requires OptimisticTotal(s).Some? && Parse(s).total.Some?
    ensures Parse(s).total.value <= OptimisticTotal(s).value <==>
      || !PlainOvercount(s)
      || Parse(s).total.value <= LargestReading(s)
      || NxmReaches(s.nxm + s.parensNxm, Parse(s).total.value)
  {
    if !PlainOvercount(s) {
      BoundDominatesParse(s);
    } else {
      BoundWithoutTotals(s, Parse(s).total.value);
    }
  }

  lemma OvercountedProduct(count: int, capacity: int, modules: int)
    requires modules <= GENEROUS_COUNT_CEILING < count && capacity > 0
    ensures capacity * count > capacity * modules
  {
  }

  /** For a text that writes a single capacity and no N x M form ("Lot de 20 barrettes 16Go"), the
      bound holds if and only if the multiplier is at most 16. */
  lemma SingleCapacityBound(s: Scan, capacity: int)
    requires OptimisticTotal(s).Some? && s.totals == [] && s.nxm == [] && s.parensNxm == []
    requires ModuleCapacity(s.runs) == Some(capacity)
    requires forall c :: c in LenientCaps(s) ==> c == capacity
    ensures Parse(s).total.value <= OptimisticTotal(s).value <==> Count(s) <= GENEROUS_COUNT_CEILING
  {
    ModuleCapacityIsLenient(s);
    assert s.nxm + s.parensNxm == [];
    BoundWithoutTotals(s, capacity * Count(s));
    if Count(s) <= GENEROUS_COUNT_CEILING {
      PlainReadingIsDominated(s);
    } else {
      OvercountedProduct(Count(s), capacity, GenerousModules(s));
    }
  }

  /** The lowest price per gigabyte the listing could mean, from the raw price. */
  function BestCase(price: real, s: Scan): Option<real> {
    var upper := OptimisticTotal(s);
    if upper.None? || upper.value <= 0 then None
    else Some(ToPerGbEven(price / upper.value as real))
  }

  /** The rounded price per gigabyte is monotone in the amount and antitone in the capacity. */
  lemma PerGbMonotone(low: real, high: real, total: int, bound: int)
    requires 0.0 <= low <= high && 0 < total <= bound
    ensures EurPerGb(ToCents(low), bound) <= EurPerGb(ToCents(high), total)
  {
    Monotone(low * 100.0, high * 100.0);
    IntegerBound(low * 100.0, 0);
    QuotientMonotone(ToCents(low), ToCents(high), total, bound);
    Monotone(ToCents(low) / bound as real * 10000.0, ToCents(high) / total as real * 10000.0);
  }

  /** Price per gigabyte of `units` displayed prices over `total` gigabytes. */
  function CostAt(l: Listing, eur: real, units: int, total: int, p: Policy): real
    requires total > 0
  {
    EurPerGb(TotalCost(Times(eur, units), ShippingEur(l, p.rates), p.shippingEstimate).total, total)
  }

  /** The next bid over `total` gigabytes. */
  function BidAt(l: Listing, total: int, p: Policy): real
    requires total > 0 && BidEur(l, p).Some?
  {
    EurPerGb(TotalCost(BidEur(l, p).value, ShippingEur(l, p.rates), p.shippingEstimate).total, total)
  }

  lemma LotPriceByUnits(l: Listing, eur: real, s: Spec, p: Policy)
    requires ToEur(l.price, l.currency, p.rates) == Some(eur)
    ensures LotPrice(l, s, p.rates) == Some(Times(eur, UnitsPaid(s)))
  {
    hide ToEur;
    assert Times(eur, 1) == eur;
    hide Times;
  }

  /** The rules' figures for a reading depend only on the units paid for and the total. */
  lemma RulesAreCosts(l: Listing, eur: real, s: Spec, p: Policy)
    requires ToEur(l.price, l.currency, p.rates) == Some(eur) && s.total.Some? && s.total.value > 0
    ensures LotPrice(l, s, p.rates).Some? && BidEur(l, p).Some?
    ensures RulePerGb(l, s, p) == CostAt(l, eur, UnitsPaid(s), s.total.value, p)
    ensures BidPerGb(l, s, p) == BidAt(l, s.total.value, p)
  {
    LotPriceByUnits(l, eur, s, p);
    hide LotPrice, EurPerGb, TotalCost;
  }

  lemma UnitsCostMore(eur: real, units: int)
    requires eur >= 0.0 && units >= 1
    ensures 0.0 <= Times(eur, 1) <= Times(eur, units)
  {
  }

  lemma TopCostsLess(l: Listing, eur: real, units: int, total: int, high: int, p: Policy)
    requires eur >= 0.0 && ShippingUsed(l, p) >= 0.0 && units >= 1 && 0 < total <= high
    ensures CostAt(l, eur, 1, high, p) <= CostAt(l, eur, units, total, p)
  {
    UnitsCostMore(eur, units);
    PerGbMonotone(Times(eur, 1) + ShippingUsed(l, p), Times(eur, units) + ShippingUsed(l, p), total, high);
    hide EurPerGb, ToCents, Times;
  }

  /** No reading within the bound is judged cheaper per gigabyte than one displayed price over the
      whole bound. */
  lemma NoSpecBeatsTheBound(l: Listing, eur: real, s: Spec, bound: int, p: Policy)
    requires ToEur(l.price, l.currency, p.rates) == Some(eur) && eur >= 0.0
    requires ShippingUsed(l, p) >= 0.0
    requires s.total.Some? && 0 < s.total.value <= bound
    ensures LotPrice(l, s, p.rates).Some?
    ensures CostAt(l, eur, 1, bound, p) <= RulePerGb(l, s, p)
  {
    RulesAreCosts(l, eur, s, p);
    TopCostsLess(l, eur, UnitsPaid(s), s.total.value, bound, p);
  }

  lemma AboveCeilingIsNoDeal(l: Listing, s: Spec, index: Index, p: Policy, now: int, observation: bool)
    requires s.total.Some? && s.total.value > 0 && LotPrice(l, s, p.rates).Some?
    requires RulePerGb(l, s, p) >= p.ceiling
    ensures !Evaluate(l, s, index, p, now, observation).IsDeal?
  {
  }

  lemma ConvertedShippingNonNegative(l: Listing, p: Policy)
    requires l.Valid() && p.shippingEstimate >= 0.0
    requires l.currency == "EUR" || (l.currency in p.rates && p.rates[l.currency] >= 0.0)
    ensures ShippingUsed(l, p) >= 0.0
  {
    if l.shipping.Some? {
      var s := l.shipping.value;
      if l.currency == "EUR" {
        IntegerBound(s * 100.0, 0);
      } else {
        assert s * p.rates[l.currency] >= 0.0;
        IntegerBound(s * p.rates[l.currency] * 100.0, 0);
      }
    }
  }

  /** A unit of the currency is worth at least a euro. */
  predicate IsWorthAEuro(currency: string, rates: map<string, real>) {
    currency == "EUR" || (currency in rates && rates[currency] >= 1.0)
  }

  lemma BestCaseIsExceeded(price: real, bound: int, ceiling: real)
    requires WholeCents(price) && bound > 0 && ceiling >= 0.0
    requires ToPerGbEven(price / bound as real) > ceiling
    ensures price >= 0.0 && EurPerGb(ToCents(price), bound) > ceiling
  {
    var q := price / bound as real;
    assert q * bound as real == price;
    IntegerBound(q * 10000.0, 0);
    assert q >= 0.0;
    EvenBelowUp(q * 10000.0);
    CentsFixed(price);
  }

  /** Half-even on the bare price against half-up on the converted price plus shipping. */
  lemma BestCaseBelowRules(price: real, eur: real, shipping: real, bound: int, ceiling: real)
    requires WholeCents(price) && eur >= price && shipping >= 0.0 && bound > 0 && ceiling >= 0.0
    requires ToPerGbEven(price / bound as real) > ceiling
    ensures price >= 0.0
    ensures EurPerGb(ToCents(eur + shipping), bound) > ceiling
  {
    BestCaseIsExceeded(price, bound, ceiling);
    PerGbMonotone(price, eur + shipping, bound, bound);
  }

  lemma ConversionKeepsPrice(l: Listing, p: Policy)
    requires IsWorthAEuro(l.currency, p.rates) && WholeCents(l.price) && l.price >= 0.0
    ensures ToEur(l.price, l.currency, p.rates).Some? && ToEur(l.price, l.currency, p.rates).value >= l.price
  {
    CentsFixed(l.price);
    if l.currency != "EUR" { ConvertedBySide(l.price, l.currency, p.rates); }
  }

  lemma CostOfOne(l: Listing, eur: real, total: int, p: Policy)
    requires total > 0
    ensures CostAt(l, eur, 1, total, p) == EurPerGb(ToCents(eur + ShippingUsed(l, p)), total)
  {
    assert Times(eur, 1) == eur;
    hide EurPerGb, ToCents, Times;
  }

  /** A rejection hides no deal: if the best case of a listing priced in whole cents, of a currency
      whose unit is worth at least a euro, exceeds the ceiling, the decision rules refuse it under
      every spec whose total stays within the bound, for any price basis, sale type, index and
      clock, although the best case rounds half-even and the rules half-up. */
  lemma RejectionHidesNoDeal(
    l: Listing, scan: Scan, s: Spec, index: Index, p: Policy, now: int, observation: bool)
    requires l.Valid() && IsWorthAEuro(l.currency, p.rates) && WholeCents(l.price)
    requires p.shippingEstimate >= 0.0 && p.ceiling >= 0.0
    requires BestCase(l.price, scan).Some? && BestCase(l.price, scan).value > p.ceiling
    requires s.total.Some? ==> s.total.value <= OptimisticTotal(scan).value
    ensures !Evaluate(l, s, index, p, now, observation).IsDeal?
  {
    if s.total.Some? && s.total.value > 0 {
      var bound := OptimisticTotal(scan).value;
      ConvertedShippingNonNegative(l, p);
      BestCaseIsExceeded(l.price, bound, p.ceiling);
      ConversionKeepsPrice(l, p);
      var eur := ToEur(l.price, l.currency, p.rates).value;
      hide Evaluate, WholeCents, ToEur, OptimisticTotal, ToPerGbEven, ShippingUsed, EurPerGb, ToCents, LotPrice;
      BestCaseBelowRules(l.price, eur, ShippingUsed(l, p), bound, p.ceiling);
      CostOfOne(l, eur, bound, p);
      NoSpecBeatsTheBound(l, eur, s, bound, p);
      AboveCeilingIsNoDeal(l, s, index, p, now, observation);
    }
  }

  // Which readings of a listing are deals, in any currency, by the capacities they may claim.

  /** The index as a mapping from capacities: positive, each at most once. */
  predicate IsMapping(index: Index) {
    && (forall k :: 0 <= k < |index| ==> index[k].0 > 0)
    && (forall j, k :: 0 <= j < k < |index| ==> index[j].0 != index[k].0)
  }

  /** The relative barrier, against some reference of the index; off in observation mode. */
  predicate BeatsSomeReference(perGb: real, index: Index, p: Policy, observation: bool) {
    observation || exists k :: 0 <= k < |index| && Undercuts(perGb, Some(index[k].1), p.minDiscount)
  }

  /** An auction must be in its end window with a next bid below the ceiling. */
  predicate IsBiddable(l: Listing, total: int, p: Policy, now: int)
    requires total > 0 && BidEur(l, p).Some?
  {
    l.saleType == Auction ==>
      && l.endsAt.Some?
      && 0 < l.endsAt.value - now <= p.gateMinutes * 60_000_000
      && BidAt(l, total, p) < p.ceiling
  }

  /** Some reading with a total between `low` and `high` is a deal. */
  ghost predicate HasDeal(l: Listing, low: int, high: int, index: Index, p: Policy, now: int, observation: bool) {
    exists s: Spec :: s.total.Some? && low <= s.total.value <= high && Evaluate(l, s, index, p, now, observation).IsDeal?
  }

  /** `units` prices over `total` gigabytes pass every barrier. */
  predicate IsCheap(l: Listing, eur: real, units: int, total: int, index: Index, p: Policy, now: int, observation: bool)
    requires ToEur(l.price, l.currency, p.rates).Some?
  {
    && units >= 1 && total > 0 && total >= p.minTotal
    && p.floor <= CostAt(l, eur, units, total, p) < p.ceiling
    && BeatsSomeReference(CostAt(l, eur, units, total, p), index, p, observation)
    && IsBiddable(l, total, p, now)
  }

  lemma DealIsCheap(l: Listing, eur: real, s: Spec, index: Index, p: Policy, now: int, observation: bool)
    requires ToEur(l.price, l.currency, p.rates) == Some(eur)
    requires Evaluate(l, s, index, p, now, observation).IsDeal?
    ensures s.total.Some? && IsCheap(l, eur, UnitsPaid(s), s.total.value, index, p, now, observation)
  {
    DealExactly(l, s, index, p, now, observation);
    RulesAreCosts(l, eur, s, p);
    hide Evaluate, CostAt, BidAt, RulePerGb, BidPerGb, Undercuts, LotPrice;
    if !observation {
      var capacity := if s.capacity.Some? && s.capacity.value != 0 then s.capacity.value else s.total.value;
      assert Reference(s, index) == Some(index[Market.Nearest(capacity, index)].1);
    }
  }

  /** A reading that claims `units` modules and `total` gigabytes, of the bucket `capacity`. */
  function Claim(capacity: Option<int>, units: int, total: int): Spec {
    Spec(capacity, units, Some(total), Rdimm, None, if units > 1 then Unit else Lot, 1.0, Rules, None)
  }

  lemma CheapIsDeal(l: Listing, eur: real, units: int, total: int, index: Index, p: Policy, now: int, observation: bool) returns (s: Spec)
    requires ToEur(l.price, l.currency, p.rates) == Some(eur) && IsMapping(index)
    requires IsCheap(l, eur, units, total, index, p, now, observation)
    ensures s.total == Some(total) && Evaluate(l, s, index, p, now, observation).IsDeal?
  {
    hide Evaluate, CostAt, BidAt, RulePerGb, BidPerGb, Undercuts, LotPrice, ToEur, BidEur;
    if observation {
      s := Claim(None, units, total);
    } else {
      var k :| 0 <= k < |index| && Undercuts(CostAt(l, eur, units, total, p), Some(index[k].1), p.minDiscount);
      s := Claim(Some(index[k].0), units, total);
      Market.OwnBucketWins(index[k].0, index, k);
      assert Reference(s, index) == Some(index[k].1);
    }
    RulesAreCosts(l, eur, s, p);
    DealExactly(l, s, index, p, now, observation);
  }

  /** In any currency with a rate, at any clock and barrier and for any sale type: some reading with
      a total in the range is a deal if and only if some number of displayed prices over some total
      of the range passes every barrier. */
  lemma HasDealExactly(l: Listing, eur: real, low: int, high: int, index: Index, p: Policy, now: int, observation: bool)
    requires ToEur(l.price, l.currency, p.rates) == Some(eur) && IsMapping(index)
    ensures HasDeal(l, low, high, index, p, now, observation) <==>
      exists units, total :: low <= total <= high && IsCheap(l, eur, units, total, index, p, now, observation)
  {
    hide Evaluate, IsCheap;
    forall s: Spec | s.total.Some? && low <= s.total.value <= high && Evaluate(l, s, index, p, now, observation).IsDeal?
      ensures exists units, total :: low <= total <= high && IsCheap(l, eur, units, total, index, p, now, observation)
    {
      DealIsCheap(l, eur, s, index, p, now, observation);
    }
    forall units, total | low <= total <= high && IsCheap(l, eur, units, total, index, p, now, observation)
      ensures HasDeal(l, low, high, index, p, now, observation)
    {
      var s := CheapIsDeal(l, eur, units, total, index, p, now, observation);
    }
  }

  lemma BidIsLowerAtTheTop(l: Listing, total: int, high: int, p: Policy)
    requires BidEur(l, p).Some? && BidEur(l, p).value >= 0.0 && ShippingUsed(l, p) >= 0.0 && 0 < total <= high
    ensures BidAt(l, high, p) <= BidAt(l, total, p)
  {
    PerGbMonotone(BidEur(l, p).value + ShippingUsed(l, p), BidEur(l, p).value + ShippingUsed(l, p), total, high);
    hide EurPerGb, ToCents, BidEur;
  }

  lemma LowerUndercuts(low: real, high: real, ref: real, minDiscount: real)
    requires low <= high && Undercuts(high, Some(ref), minDiscount)
    ensures Undercuts(low, Some(ref), minDiscount)
  {
  }

  lemma LowerBeatsReferences(low: real, high: real, index: Index, p: Policy, observation: bool)
    requires low <= high && BeatsSomeReference(high, index, p, observation)
    ensures BeatsSomeReference(low, index, p, observation)
  {
    if !observation {
      var k :| 0 <= k < |index| && Undercuts(high, Some(index[k].1), p.minDiscount);
      LowerUndercuts(low, high, index[k].1, p.minDiscount);
    }
  }

  lemma CheapestAtTheTop(l: Listing, eur: real, units: int, total: int, high: int, index: Index, p: Policy, now: int, observation: bool)
    requires ToEur(l.price, l.currency, p.rates) == Some(eur)
    requires eur >= 0.0 && ShippingUsed(l, p) >= 0.0 && (l.saleType == Auction ==> BidEur(l, p).value >= 0.0)
    requires 0 < total <= high && CostAt(l, eur, 1, high, p) >= p.floor
    requires IsCheap(l, eur, units, total, index, p, now, observation)
    ensures IsCheap(l, eur, 1, high, index, p, now, observation)
  {
    TopCostsLess(l, eur, units, total, high, p);
    if l.saleType == Auction { BidIsLowerAtTheTop(l, total, high, p); }
    var top, perGb := CostAt(l, eur, 1, high, p), CostAt(l, eur, units, total, p);
    hide CostAt, BidAt;
    LowerBeatsReferences(top, perGb, index, p, observation);
  }

  /** With amounts that are not negative, and unless the largest total makes the price implausible,
      it is enough to look at one displayed price over the largest total. */
  lemma HasDealAtTheTop(l: Listing, eur: real, low: int, high: int, index: Index, p: Policy, now: int, observation: bool)
    requires ToEur(l.price, l.currency, p.rates) == Some(eur) && IsMapping(index)
    requires eur >= 0.0 && ShippingUsed(l, p) >= 0.0 && (l.saleType == Auction ==> BidEur(l, p).value >= 0.0)
    requires low <= high && high > 0 && CostAt(l, eur, 1, high, p) >= p.floor
    ensures HasDeal(l, low, high, index, p, now, observation) <==> IsCheap(l, eur, 1, high, index, p, now, observation)
  {
    HasDealExactly(l, eur, low, high, index, p, now, observation);
    forall units, total | low <= total <= high && IsCheap(l, eur, units, total, index, p, now, observation)
      ensures IsCheap(l, eur, 1, high, index, p, now, observation)
    {
      CheapestAtTheTop(l, eur, units, total, high, index, p, now, observation);
    }
  }

  // The number of displayed prices that needs trying.

  /** The least positive count of prices `eur` that is sure to amount to `need`. */
  function UnitsFor(eur: real, need: real): (n: int)
    requires eur > 0.0
    ensures n >= 1
  {
    var q := need / eur;
    if q < 0.0 then 1 else q.Floor + 1
  }

  /** An amount at which `total` gigabytes are plausible under any rounding. */
  function PlausibleAmount(floor: real, total: int): real { (floor + 1.0) * total as real }

  /** Beyond so many displayed prices every total is plausible. */
  function MaxUnits(eur: real, total: int, p: Policy): (n: int)
    ensures n >= 1
  {
    if eur > 0.0 then UnitsFor(eur, PlausibleAmount(p.floor, total)) else 1
  }

  lemma UnitsForIsEnough(eur: real, need: real)
    requires eur > 0.0
    ensures Times(eur, UnitsFor(eur, need)) >= need
  {
    var q, n := need / eur, UnitsFor(eur, need);
    assert q * eur == need;
    assert n as real >= q;
    assert (n as real - q) * eur >= 0.0;
  }

  lemma QuotientAtLeast(x: real, t: real, bound: real)
    requires t > 0.0 && x >= bound * t
    ensures x / t >= bound
  {
    var q := x / t;
    assert q * t == x;
    if q < bound { assert q * t < bound * t; }
  }

  lemma QuotientAtMost(x: real, t: real, bound: real)
    requires t > 0.0 && x <= bound * t
    ensures x / t <= bound
  {
    var q := x / t;
    assert q * t == x;
    if q > bound { assert q * t > bound * t; }
  }

  lemma CentsAreClose(x: real)
    ensures -0.005 <= ToCents(x) - x <= 0.005
  {
    var n := HalfUp(x * 100.0);
    assert -0.5 <= n as real - x * 100.0 <= 0.5;
  }

  lemma PlausibleCost(cost: real, total: int, floor: real)
    requires total > 0 && cost >= PlausibleAmount(floor, total)
    ensures EurPerGb(ToCents(cost), total) >= floor
  {
    var t := total as real;
    CentsAreClose(cost);
    assert (floor + 1.0) * t == (floor + 0.5) * t + 0.5 * t;
    QuotientAtLeast(ToCents(cost), t, floor + 0.5);
    hide ToCents;
    PerGbIsClose(ToCents(cost), total);
    hide EurPerGb;
  }

  lemma UnitsInOrder(eur: real, fewer: int, units: int)
    requires eur >= 0.0 && 1 <= fewer <= units
    ensures 0.0 <= Times(eur, fewer) <= Times(eur, units)
  {
    assert eur * (units - fewer) as real >= 0.0;
  }

  lemma CostsGrowWithUnits(l: Listing, eur: real, fewer: int, units: int, total: int, p: Policy)
    requires eur >= 0.0 && ShippingUsed(l, p) >= 0.0 && 1 <= fewer <= units && total > 0
    ensures CostAt(l, eur, fewer, total, p) <= CostAt(l, eur, units, total, p)
  {
    UnitsInOrder(eur, fewer, units);
    PerGbMonotone(Times(eur, fewer) + ShippingUsed(l, p), Times(eur, units) + ShippingUsed(l, p), total, total);
    hide EurPerGb, ToCents, Times;
  }

  lemma MostIsEnough(eur: real, total: int, p: Policy)
    requires eur > 0.0
    ensures Times(eur, MaxUnits(eur, total, p)) >= PlausibleAmount(p.floor, total)
  {
    UnitsForIsEnough(eur, PlausibleAmount(p.floor, total));
    hide UnitsFor, PlausibleAmount, Times;
  }

  lemma FreeIsFree(l: Listing, eur: real, units: int, other: int, total: int, p: Policy)
    requires eur == 0.0 && total > 0
    ensures CostAt(l, eur, units, total, p) == CostAt(l, eur, other, total, p)
  {
    assert Times(eur, units) == 0.0 == Times(eur, other);
    hide Times, EurPerGb, TotalCost;
  }

  lemma CostOfMost(l: Listing, eur: real, total: int, p: Policy)
    requires total > 0 && ShippingUsed(l, p) >= 0.0
    requires Times(eur, MaxUnits(eur, total, p)) >= PlausibleAmount(p.floor, total)
    ensures CostAt(l, eur, MaxUnits(eur, total, p), total, p) >= p.floor
  {
    hide MaxUnits, Times, EurPerGb, ToCents, PlausibleAmount;
    PlausibleCost(Times(eur, MaxUnits(eur, total, p)) + ShippingUsed(l, p), total, p.floor);
  }

  lemma MostIsPlausible(l: Listing, eur: real, units: int, total: int, p: Policy)
    requires eur >= 0.0 && ShippingUsed(l, p) >= 0.0 && total > 0
    requires units > MaxUnits(eur, total, p) && CostAt(l, eur, units, total, p) >= p.floor
    ensures p.floor <= CostAt(l, eur, MaxUnits(eur, total, p), total, p) <= CostAt(l, eur, units, total, p)
  {
    hide MaxUnits, CostAt, Times, ShippingUsed;
    CostsGrowWithUnits(l, eur, MaxUnits(eur, total, p), units, total, p);
    if eur > 0.0 {
      MostIsEnough(eur, total, p);
      CostOfMost(l, eur, total, p);
    } else {
      FreeIsFree(l, eur, MaxUnits(eur, total, p), units, total, p);
    }
  }

  /** If some number of prices passes every barrier, so does one within the limit. */
  lemma FewUnitsSuffice(l: Listing, eur: real, units: int, total: int, index: Index, p: Policy, now: int, observation: bool)
    requires ToEur(l.price, l.currency, p.rates) == Some(eur) && eur >= 0.0 && ShippingUsed(l, p) >= 0.0
    requires IsCheap(l, eur, units, total, index, p, now, observation) && units > MaxUnits(eur, total, p)
    ensures IsCheap(l, eur, MaxUnits(eur, total, p), total, index, p, now, observation)
  {
    MostIsPlausible(l, eur, units, total, p);
    hide MaxUnits, CostAt, BidAt, ToEur;
    LowerBeatsReferences(CostAt(l, eur, MaxUnits(eur, total, p), total, p), CostAt(l, eur, units, total, p), index, p, observation);
  }

  /** A finite test: over the totals of the range, and no more displayed prices than the limit. */
  lemma HasDealFinitely(l: Listing, eur: real, low: int, high: int, index: Index, p: Policy, now: int, observation: bool)
    requires ToEur(l.price, l.currency, p.rates) == Some(eur) && IsMapping(index)
    requires eur >= 0.0 && ShippingUsed(l, p) >= 0.0
    ensures HasDeal(l, low, high, index, p, now, observation) <==>
      exists units, total :: low <= total <= high && 1 <= units <= MaxUnits(eur, total, p)
        && IsCheap(l, eur, units, total, index, p, now, observation)
  {
    HasDealExactly(l, eur, low, high, index, p, now, observation);
    forall units, total | low <= total <= high && IsCheap(l, eur, units, total, index, p, now, observation)
      ensures exists n :: 1 <= n <= MaxUnits(eur, total, p) && IsCheap(l, eur, n, total, index, p, now, observation)
    {
      if units > MaxUnits(eur, total, p) {
        FewUnitsSuffice(l, eur, units, total, index, p, now, observation);
      }
    }
  }

  // Two texts.

  /** "Lot de 20 barrettes 16Go": the grammar reads 20 modules, the bound allows 16. */
  const LOT_OF_TWENTY := Scan(
    [DigitRun([2, 0], false, false), DigitRun([1, 6], false, true)],
    [], [], [], [[20], [], [], [], [20], [], [], [], []], [],
    false, true, UnknownKind, None, None, None, None)

  /** "RDIMM 16GB": one module, its price basis unknown. */
  const ONE_MODULE := Scan(
    [DigitRun([1, 6], false, true)],
    [], [], [], [[], [], [], [], [], [], [], [], []], [],
    false, false, Rdimm, None, None, None, None)

  lemma TwoDigits(a: nat, b: nat)
    ensures DigitsValue([a, b]) == 10 * a + b
  {
    assert [a, b][..1] == [a] && [a][..0] == [];
    assert DigitsValue([a]) == DigitsValue([]) * 10 + a;
  }

  lemma CountOfTwenty()
    ensures PlainCount(LOT_OF_TWENTY.multipliers) == Some(20)
  {
    assert Offers(LOT_OF_TWENTY.multipliers[0]);
  }

  lemma {:induction false} FlattenEmpty(lists: seq<seq<nat>>)
    requires forall i :: 0 <= i < |lists| ==> lists[i] == []
    ensures Flatten(lists) == []
  {
    if lists != [] { FlattenEmpty(lists[1..]); }
  }

  lemma FlattenTwenty()
    ensures Flatten(LOT_OF_TWENTY.multipliers) == [20, 20]
  {
    var m := LOT_OF_TWENTY.multipliers;
    assert Flatten(m[5..]) == [] by { FlattenEmpty(m[5..]); }
    assert m[4..][1..] == m[5..] && Flatten(m[4..]) == [20];
    assert m[3..][1..] == m[4..] && m[2..][1..] == m[3..] && m[1..][1..] == m[2..];
    assert Flatten(m[3..]) == [20] && Flatten(m[2..]) == [20] && Flatten(m[1..]) == [20];
  }

  lemma GenerousOfTwenty()
    ensures MaxPlausible(LOT_OF_TWENTY) == 16
  {
    FlattenTwenty();
    GenerousCountExactly(LOT_OF_TWENTY);
    hide Flatten, MaxPlausible;
    assert GenerousCounts(LOT_OF_TWENTY) == [20, 20];
  }

  lemma SizesOfTwenty()
    ensures CapacityMatches(LOT_OF_TWENTY.runs) == [16] && LenientCaps(LOT_OF_TWENTY) == [16]
    ensures ModuleCapacity(LOT_OF_TWENTY.runs) == Some(16) && Written(LOT_OF_TWENTY.runs, 20)
  {
    var s := LOT_OF_TWENTY;
    TwoDigits(1, 6);
    TwoDigits(2, 0);
    var sixteen := s.runs[1];
    assert s.runs[0] in s.runs && s.runs[1..] == [sixteen] && [sixteen][1..] == [];
    assert CapacityMatches([sixteen]) == [16] && CapacityMatches(s.runs) == [16];
    assert LenientMatches([sixteen]) == [16] && LenientMatches(s.runs) == [16];
  }

  lemma BoundOfTwenty()
    ensures OptimisticTotal(LOT_OF_TWENTY) == Some(256)
  {
    var s := LOT_OF_TWENTY;
    SizesOfTwenty();
    GenerousOfTwenty();
    hide LenientCaps, CapacityMatches, ModuleCapacity, MaxPlausible, Written;
    assert SeqMax([16]) == 16 && GenerousModules(s) == 16;
    assert Candidates(s) == [256, 16];
    hide Candidates, GenerousModules;
    assert [256, 16][1..] == [16];
    assert SeqMax([256, 16]) == 256;
  }

  /** The total read exceeds the bound: 320 GB against 256. */
  lemma LotOfTwentyIsUnderbound()
    ensures Consistent(LOT_OF_TWENTY) && PlainOvercount(LOT_OF_TWENTY)
    ensures Parse(LOT_OF_TWENTY) == Spec(Some(16), 20, Some(320), UnknownKind, None, Lot, 0.85, Rules, None)
    ensures OptimisticTotal(LOT_OF_TWENTY) == Some(256)
  {
    SizesOfTwenty();
    FlattenTwenty();
    CountOfTwenty();
    BoundOfTwenty();
    hide CapacityMatches, Flatten, ModuleCapacity, PlainCount, DigitsValue, OptimisticTotal;
  }

  lemma {:induction false} NoPlainCount(multipliers: seq<seq<nat>>)
    requires forall i :: 0 <= i < |multipliers| ==> multipliers[i] == []
    ensures PlainCount(multipliers) == None
  {
    if multipliers != [] { NoPlainCount(multipliers[1..]); }
  }

  lemma OneModuleReading()
    ensures Consistent(ONE_MODULE) && OptimisticTotal(ONE_MODULE) == Some(16)
    ensures Parse(ONE_MODULE) == Spec(Some(16), 1, Some(16), Rdimm, None, UnknownBasis, 0.85, Rules, None)
  {
    var s := ONE_MODULE;
    TwoDigits(1, 6);
    var sixteen := s.runs[0];
    assert s.runs[1..] == [];
    assert CapacityMatches(s.runs) == [16] && LenientMatches(s.runs) == [16];
    assert LenientCaps(s) == [16];
    assert ModuleCapacity(s.runs) == Some(16);
    FlattenEmpty(s.multipliers);
    NoPlainCount(s.multipliers);
    assert GenerousCounts(s) == [];
    assert MaxPlausible(s) == 1;
    assert Candidates(s) == [16, 16];
  }
}
