/** The stored price of a listing: a ratchet that follows the lowest price seen, to within the
    drop that makes a listing worth another look. */
module Ratchet {
  import opened Models
  import opened Rounding
  import opened Tables
  import opened RateLimit
  import opened Pipeline
  import opened Runs

  /** The prices the run observed for one listing, in order. */
  function Observed(steps: seq<Step>, key: Key): seq<real> {
    if steps == [] then []
    else
      var s := steps[|steps| - 1];
      Observed(steps[..|steps| - 1], key)
      + if s.Collect? && s.listing.Key() == key then [s.listing.price] else []
  }

  /** The stored price after a sequence of observations, and how often it was lowered. */
  datatype Track = Track(stored: real, looks: nat)

  function Next(t: Track, p: real, dropPct: real): Track {
    if t.stored > 0.0 && DropsEnough(t.stored, p, dropPct) then Track(p, t.looks + 1) else t
  }

  function Follow(prices: seq<real>, dropPct: real): Track
    requires prices != []
  {
    if |prices| == 1 then Track(prices[0], 0)
    else
      Next(Follow(prices[..|prices| - 1], dropPct), prices[|prices| - 1], dropPct)
  }

  lemma TableStep(st: State, s: Step, d: Deps, key: Key)
    ensures var db, after := st.db, Apply(st, s, d).db;
      if s.Collect? && s.listing.Key() == key then
        && key in after.listings
        && after.listings[key].price ==
             (if key in db.listings && !PriceDropped(s.listing, db.listings, d.spam.dropPct)
              then db.listings[key].price else s.listing.price)
      else
        && (key in after.listings <==> key in db.listings)
        && (key in db.listings ==> after.listings[key].price == db.listings[key].price)
  {
    if s.Collect? {
      CollectListings(Settled(st), s.listing, s.world, d, s.cycle);
      hide Attempted, DropsEnough;
    }
  }

  lemma FollowOne(seen: seq<real>, p: real, dropPct: real)
    ensures Follow(seen + [p], dropPct) == if seen == [] then Track(p, 0) else Next(Follow(seen, dropPct), p, dropPct)
  {
    assert (seen + [p])[..|seen|] == seen;
  }

  lemma PriceDroppedIsNext(l: Listing, listings: map<Key, ListingRow>, dropPct: real)
    requires l.Key() in listings
    ensures forall t: Track :: t.stored == listings[l.Key()].price ==>
      Next(t, l.price, dropPct).stored == if PriceDropped(l, listings, dropPct) then l.price else t.stored
  {
  }

  /** What the table holds is exactly what the ratchet computes from the observations. */
  lemma {:induction false} StoredPriceIsRatchet(steps: seq<Step>, d: Deps, key: Key)
    ensures key in Run(EMPTY, steps, d).db.listings <==> Observed(steps, key) != []
    ensures Observed(steps, key) != [] ==>
      Run(EMPTY, steps, d).db.listings[key].price == Follow(Observed(steps, key), d.spam.dropPct).stored
  {
    hide Apply, DropsEnough, PriceDropped, Follow, Next;
    if steps != [] {
      var s := steps[|steps| - 1];
      var before := steps[..|steps| - 1];
      StoredPriceIsRatchet(before, d, key);
      TableStep(Run(EMPTY, before, d), s, d, key);
      if s.Collect? && s.listing.Key() == key {
        FollowOne(Observed(before, key), s.listing.price, d.spam.dropPct);
        if Observed(before, key) != [] {
          PriceDroppedIsNext(s.listing, Run(EMPTY, before, d).db.listings, d.spam.dropPct);
        }
      } else {
        assert Observed(steps, key) == Observed(before, key);
      }
    }
  }

  function Lowest(prices: seq<real>): real
    requires prices != []
  {
    if |prices| == 1 then prices[0]
    else
      var m := Lowest(prices[..|prices| - 1]);
      var p := prices[|prices| - 1];
      if p < m then p else m
  }

  lemma {:induction false} LowestIsLeast(prices: seq<real>)
    requires prices != []
    ensures Lowest(prices) in prices
    ensures forall p :: p in prices ==> Lowest(prices) <= p
  {
    if |prices| > 1 {
      LowestIsLeast(prices[..|prices| - 1]);
      assert forall q :: q in prices ==> q in prices[..|prices| - 1] || q == prices[|prices| - 1];
    }
  }

  predicate AllPositive(prices: seq<real>) {
    prices == [] || (prices[|prices| - 1] > 0.0 && AllPositive(prices[..|prices| - 1]))
  }

  function Power(x: real, k: nat): real { if k == 0 then 1.0 else x * Power(x, k - 1) }

  lemma Shrinks(keep: real, p: real)
    requires keep < 1.0 && p > 0.0
    ensures keep * p < p
  {
  }

  lemma NextTracksLowest(t: Track, lowest: real, p: real, dropPct: real)
    requires p > 0.0 && t.stored > 0.0 && 0.0 < dropPct <= 100.0
    requires (1.0 - dropPct / 100.0) * t.stored < lowest <= t.stored
    ensures var m := if p < lowest then p else lowest; var next := Next(t, p, dropPct);
      (1.0 - dropPct / 100.0) * next.stored < m <= next.stored && (next.stored == t.stored || next.stored == p)
  {
    hide DropsEnough;
    DropsEnoughMeans(t.stored, p, dropPct);
    Shrinks(1.0 - dropPct / 100.0, p);
  }

  lemma {:induction false} FollowTracksLowest(prices: seq<real>, dropPct: real)
    requires prices != [] && AllPositive(prices) && 0.0 < dropPct <= 100.0
    ensures var stored := Follow(prices, dropPct).stored;
      && (1.0 - dropPct / 100.0) * stored < Lowest(prices) <= stored
      && Lowest(prices) > 0.0 && stored in prices
  {
    hide Next;
    var p := prices[|prices| - 1];
    if |prices| == 1 {
      Shrinks(1.0 - dropPct / 100.0, p);
    } else {
      FollowTracksLowest(prices[..|prices| - 1], dropPct);
      var t := Follow(prices[..|prices| - 1], dropPct);
      NextTracksLowest(t, Lowest(prices[..|prices| - 1]), p, dropPct);
    }
  }

  /** For positive observations and a drop d% in (0, 100], the stored price is one of them, and none
      of them is lower than it by d% or more. */
  lemma RatchetTracksLowest(steps: seq<Step>, d: Deps, key: Key)
    requires Observed(steps, key) != [] && AllPositive(Observed(steps, key)) && 0.0 < d.spam.dropPct <= 100.0
    ensures key in Run(EMPTY, steps, d).db.listings
    ensures var stored := Run(EMPTY, steps, d).db.listings[key].price;
      && stored in Observed(steps, key)
      && forall p :: p in Observed(steps, key) ==> (1.0 - d.spam.dropPct / 100.0) * stored < p
  {
    hide Run, Follow, Observed;
    StoredPriceIsRatchet(steps, d, key);
    FollowTracksLowest(Observed(steps, key), d.spam.dropPct);
    LowestIsLeast(Observed(steps, key));
  }

  // Re-evaluations.

  /** How often the run ran a stored listing through extraction and the rules again. */
  function Reevaluated(steps: seq<Step>, d: Deps, key: Key): nat {
    if steps == [] then 0
    else
      var s, before := steps[|steps| - 1], Run(EMPTY, steps[..|steps| - 1], d).db;
      Reevaluated(steps[..|steps| - 1], d, key)
      + if s.Collect? && s.listing.Key() == key && key in before.listings && !Unchanged(before, s.listing, d) then 1 else 0
  }

  lemma DroppedCountsALook(l: Listing, listings: map<Key, ListingRow>, dropPct: real)
    requires l.Key() in listings
    ensures forall t: Track :: t.stored == listings[l.Key()].price ==>
      Next(t, l.price, dropPct).looks == t.looks + if PriceDropped(l, listings, dropPct) then 1 else 0
  {
  }

  /** The pipeline re-evaluates a listing exactly when the ratchet moves. */
  lemma {:induction false} ReevaluationsMoveTheRatchet(steps: seq<Step>, d: Deps, key: Key)
    ensures Reevaluated(steps, d, key) ==
      if Observed(steps, key) == [] then 0 else Follow(Observed(steps, key), d.spam.dropPct).looks
  {
    hide Apply, DropsEnough, PriceDropped, Follow;
    if steps != [] {
      var s := steps[|steps| - 1];
      var before := steps[..|steps| - 1];
      ReevaluationsMoveTheRatchet(before, d, key);
      StoredPriceIsRatchet(before, d, key);
      if s.Collect? && s.listing.Key() == key {
        FollowOne(Observed(before, key), s.listing.price, d.spam.dropPct);
        if Observed(before, key) != [] {
          DroppedCountsALook(s.listing, Run(EMPTY, before, d).db.listings, d.spam.dropPct);
        }
      } else {
        assert Observed(steps, key) == Observed(before, key);
      }
    }
  }

  lemma PowerZero(x: real, first: real)
    ensures Power(x, 0) * first == first
  {
  }

  lemma PowerStep(keep: real, k: nat, stored: real, first: real)
    requires 0.0 <= keep && stored <= Power(keep, k) * first
    ensures keep * stored <= Power(keep, k + 1) * first
  {
    var q := Power(keep, k) * first;
    assert keep * stored <= keep * q;
    assert keep * q == Power(keep, k + 1) * first;
  }

  /** k lowerings force stored <= (1 - d%)^k first, whatever the prices. */
  lemma {:induction false} LoweringsDecay(prices: seq<real>, dropPct: real)
    requires prices != [] && prices[0] > 0.0 && 0.0 < dropPct <= 100.0
    ensures var t := Follow(prices, dropPct);
      t.stored <= Power(1.0 - dropPct / 100.0, t.looks) * prices[0]
  {
    hide DropsEnough, Power;
    var keep := 1.0 - dropPct / 100.0;
    if |prices| == 1 {
      PowerZero(keep, prices[0]);
    } else {
      var t := Follow(prices[..|prices| - 1], dropPct);
      LoweringsDecay(prices[..|prices| - 1], dropPct);
      if t.stored > 0.0 {
        DropsEnoughMeans(t.stored, prices[|prices| - 1], dropPct);
        PowerStep(keep, t.looks, t.stored, prices[0]);
      }
    }
  }

  /** k re-evaluations of a listing force its stored price to at most (1 - d%)^k times the first
      price seen, whatever the prices in between. */
  lemma ReevaluationsDecay(steps: seq<Step>, d: Deps, key: Key)
    requires Observed(steps, key) != [] && Observed(steps, key)[0] > 0.0 && 0.0 < d.spam.dropPct <= 100.0
    ensures key in Run(EMPTY, steps, d).db.listings
    ensures Run(EMPTY, steps, d).db.listings[key].price
         <= Power(1.0 - d.spam.dropPct / 100.0, Reevaluated(steps, d, key)) * Observed(steps, key)[0]
  {
    hide Run, Follow, Observed, Reevaluated, Power;
    StoredPriceIsRatchet(steps, d, key);
    ReevaluationsMoveTheRatchet(steps, d, key);
    LoweringsDecay(Observed(steps, key), d.spam.dropPct);
  }

  lemma ACentApart(p: real, q: real)
    requires WholeCents(p) && WholeCents(q) && p < q
    ensures p * 100.0 + 1.0 <= q * 100.0
  {
    assert (p * 100.0).Floor < (q * 100.0).Floor;
  }

  /** Whole-cent prices: every lowering takes at least a cent. */
  lemma {:induction false} LoweringsAreBounded(prices: seq<real>, dropPct: real)
    requires prices != [] && (forall p :: p in prices ==> WholeCents(p)) && dropPct > 0.0
    ensures var t := Follow(prices, dropPct);
      t.stored in prices && t.looks as real <= (prices[0] - t.stored) * 100.0
  {
    if |prices| > 1 {
      var before := prices[..|prices| - 1];
      var p := prices[|prices| - 1];
      assert p in prices && forall q :: q in before ==> q in prices;
      LoweringsAreBounded(before, dropPct);
      var t := Follow(before, dropPct);
      if t.stored > 0.0 && DropsEnough(t.stored, p, dropPct) {
        DropsEnoughMeans(t.stored, p, dropPct);
        Shrinks(1.0 - dropPct / 100.0, t.stored);
        ACentApart(p, t.stored);
      }
    }
  }

  /** Prices in whole cents: the re-evaluations of a run are at most the cents between the first
      price seen and the stored one. */
  lemma ReevaluationsAreBounded(steps: seq<Step>, d: Deps, key: Key)
    requires Observed(steps, key) != [] && d.spam.dropPct > 0.0
    requires forall p :: p in Observed(steps, key) ==> WholeCents(p)
    ensures key in Run(EMPTY, steps, d).db.listings
    ensures Reevaluated(steps, d, key) as real
         <= (Observed(steps, key)[0] - Run(EMPTY, steps, d).db.listings[key].price) * 100.0
  {
    hide Run, Follow, Observed, Reevaluated, WholeCents;
    StoredPriceIsRatchet(steps, d, key);
    ReevaluationsMoveTheRatchet(steps, d, key);
    LoweringsAreBounded(Observed(steps, key), d.spam.dropPct);
  }

  /** It never rises, whatever is observed; and a price at or below zero freezes it for good. */
  lemma {:induction false} RatchetNeverRises(prices: seq<real>, more: seq<real>, dropPct: real)
    requires prices != [] && dropPct >= 0.0
    ensures Follow(prices + more, dropPct).stored <= Follow(prices, dropPct).stored
    ensures Follow(prices, dropPct).stored <= 0.0 ==> Follow(prices + more, dropPct) == Follow(prices, dropPct)
  {
    if more == [] {
      assert prices + more == prices;
    } else {
      var n := |more| - 1;
      RatchetNeverRises(prices, more[..n], dropPct);
      assert (prices + more)[..|prices| + n] == prices + more[..n];
      var t := Follow(prices + more[..n], dropPct);
      if t.stored > 0.0 {
        DropsEnoughMeans(t.stored, more[n], dropPct);
        assert dropPct / 100.0 * t.stored >= 0.0;
      }
    }
  }

  // Alerts per listing.

  function RowsFor(alerts: seq<AlertRow>, key: Key): nat {
    if alerts == [] then 0
    else RowsFor(alerts[..|alerts| - 1], key) + if alerts[|alerts| - 1].key == key then 1 else 0
  }

  lemma {:induction false} RowsForIgnoresFeedback(a: seq<AlertRow>, b: seq<AlertRow>, key: Key)
    requires |b| <= |a| && forall i :: 0 <= i < |b| ==> SameAlert(a[i], b[i])
    ensures RowsFor(b, key) <= RowsFor(a, key)
  {
    if a != [] {
      if |b| == |a| {
        assert SameAlert(a[|a| - 1], b[|b| - 1]);
        RowsForIgnoresFeedback(a[..|a| - 1], b[..|b| - 1], key);
      } else {
        RowsForIgnoresFeedback(a[..|a| - 1], b, key);
      }
    }
  }

  /** A step adds a row for a listing only by evaluating that very listing. */
  lemma AlertNeedsEvaluation(st: State, s: Step, d: Deps, key: Key)
    ensures RowsFor(Settled(Apply(st, s, d)).alerts, key) <= RowsFor(Settled(st).alerts, key)
      + if s.Collect? && s.listing.Key() == key && !Unchanged(st.db, s.listing, d) then 1 else 0
  {
    FlightTakesOff(st, s, d);
    var before, after := Settled(st).alerts, Settled(Apply(st, s, d)).alerts;
    if s.Collect? {
      CollectAlerts(Settled(st), s.listing, s.world, d, s.cycle);
      hide Apply, Attempted;
      var deal := AlertedDeal(Settled(st), s.listing, s.world, d, s.cycle);
      if deal.Some? {
        assert after[..|after| - 1] == before;
        assert !Unchanged(Settled(st), s.listing, d);
      }
    } else {
      hide Apply;
      RowsForIgnoresFeedback(before, after, key);
    }
  }

  lemma NothingSettled(key: Key)
    ensures RowsFor(Settled(EMPTY).alerts, key) == 0
  {
  }

  /** A listing is alerted, in flight included, at most once for its first sight and once for every
      re-evaluation: so never, whatever a drain resolves meanwhile, until its price drops. */
  lemma {:induction false} AlertsPerListing(steps: seq<Step>, d: Deps, key: Key)
    ensures RowsFor(Settled(Run(EMPTY, steps, d)).alerts, key)
         <= Reevaluated(steps, d, key) + if Observed(steps, key) == [] then 0 else 1
  {
    hide Apply, Settled, PriceDropped;
    if steps == [] {
      NothingSettled(key);
    } else {
      var n := |steps| - 1;
      AlertsPerListing(steps[..n], d, key);
      StoredPriceIsRatchet(steps[..n], d, key);
      AlertNeedsEvaluation(Run(EMPTY, steps[..n], d), steps[n], d, key);
    }
  }
}
