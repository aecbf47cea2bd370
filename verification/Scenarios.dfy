/** Short runs from the empty tables: states that must not be dismissed as unreachable. */
module Scenarios {
  import opened Models
  import opened Money
  import opened Tables
  import opened RateLimit
  import opened Pipeline
  import opened Runs
  import opened AlertLog
  import Cascade
  import Grammar
  import Prefilter
  import Rounding
  import Thresholds

  const POLICY := Policy(3.0, 0.0, 0.5, 8, 0.80, 12.0, map[], 0, 0.0)

  /** No language model, no quantity verification; at most ten urgent alerts a day, and a new one
      from a drop of 10 %. */
  const DEPS := Deps(POLICY, SpamPolicy(10, 10.0, 0, 0, 3), Matrix({}, {}, {}), false, false, 1, 0.75)

  /** The notifier accepts at once. */
  const SENT := World(None, true, true, 0)

  function Morning(now: int): Cycle { Cycle(now, [], true) }

  /** A 16 GB module by its part number, sold in lots of `count`, priced by the lot or the piece. */
  function ScanOf(count: nat, byPiece: bool): Scan {
    Scan([DigitRun([count], false, false)], [], [], [], [[count], [], [], [], [], [], [], [], []], [],
         byPiece, false, UnknownKind, None, None, None, Some(Module(16, Rdimm, None)))
  }

  function Offered(id: string, count: nat, byPiece: bool, price: real): Listing {
    Listing("ebay", id, Text(id, ScanOf(count, byPiece)), price, "EUR", Some(0.0), BuyNow, None, None, Some("bob"), Marker, true)
  }

  function SpecOf(count: nat, byPiece: bool): Spec {
    Spec(Some(16), count, Some(16 * count), Rdimm, None, if byPiece then Unit else Lot, 1.0, PartNumber, None)
  }

  lemma {:induction false} NothingInside(lists: seq<seq<nat>>)
    requires forall i :: 0 <= i < |lists| ==> lists[i] == []
    ensures Grammar.Flatten(lists) == []
  {
    if lists != [] { NothingInside(lists[1..]); }
  }

  lemma NothingAfterFirst(lists: seq<seq<nat>>)
    requires lists != [] && forall i :: 1 <= i < |lists| ==> lists[i] == []
    ensures Grammar.Flatten(lists) == lists[0]
  {
    NothingInside(lists[1..]);
  }

  lemma OfferedIsConsistent(count: nat, byPiece: bool)
    requires 1 <= count <= 9
    ensures Grammar.Consistent(ScanOf(count, byPiece))
  {
    var s := ScanOf(count, byPiece);
    assert [count][..0] == [] && Grammar.DigitsValue([count]) == count;
    assert s.runs[0] in s.runs && Grammar.Written(s.runs, count);
    NothingAfterFirst(s.multipliers);
  }

  lemma OfferedReads(id: string, count: nat, byPiece: bool, price: real)
    requires 1 <= count <= 9
    ensures RunCascade(Offered(id, count, byPiece, price), DEPS) == SpecOf(count, byPiece)
    ensures Grammar.Consistent(ScanOf(count, byPiece))
  {
    var s := ScanOf(count, byPiece);
    assert Grammar.Offers(s.multipliers[0]) && Grammar.PlainCount(s.multipliers) == Some(count);
    OfferedIsConsistent(count, byPiece);
    hide Grammar.Consistent;
  }

  /** The price of the whole lot. */
  function LotOf(count: nat, byPiece: bool, price: real): real { if byPiece && count > 1 then Times(price, count) else price }

  /** The lot is plausible and under the ceiling. */
  predicate IsGood(count: nat, byPiece: bool, price: real) {
    && 1 <= count <= 9 && Rounding.WholeCents(price)
    && 0.6 * (16 * count) as real <= LotOf(count, byPiece, price) <= 2.9 * (16 * count) as real
  }

  lemma Bobs()
    ensures Thresholds.NormalizedSeller(Some("bob")) == "bob"
  {
  }

  lemma OfferedLot(id: string, count: nat, byPiece: bool, price: real)
    requires Rounding.WholeCents(price)
    ensures Thresholds.LotPrice(Offered(id, count, byPiece, price), SpecOf(count, byPiece), POLICY.rates)
      == Some(LotOf(count, byPiece, price))
  {
    Rounding.CentsFixed(price);
    hide Rounding.ToCents, Times;
  }

  lemma LotIsCheap(lot: real, total: int)
    requires total > 0 && 0.6 * total as real <= lot <= 2.9 * total as real
    ensures 0.5 <= EurPerGb(Rounding.ToCents(lot), total) < 3.0
  {
    var t := total as real;
    Prefilter.CentsAreClose(lot);
    assert 0.6 * t == 0.55 * t + 0.05 * t && 2.95 * t == 2.9 * t + 0.05 * t;
    hide Rounding.ToCents;
    Prefilter.QuotientAtLeast(Rounding.ToCents(lot), t, 0.55);
    Prefilter.QuotientAtMost(Rounding.ToCents(lot), t, 2.95);
    Thresholds.PerGbIsClose(Rounding.ToCents(lot), total);
    hide EurPerGb;
  }

  /** A good offer is a deal at once, in the bucket of its lot. */
  lemma OfferedIsADeal(id: string, count: nat, byPiece: bool, price: real, now: int)
    requires IsGood(count, byPiece, price)
    ensures var v := Thresholds.Evaluate(Offered(id, count, byPiece, price), SpecOf(count, byPiece), [], POLICY, now, true);
      && v.IsDeal? && v.deal.listing.price == price && v.deal.urgency == Immediate
      && v.deal.fingerprint == Fingerprint("bob", 16, count, (LotOf(count, byPiece, price) / 10.0).Floor)
  {
    var l, s := Offered(id, count, byPiece, price), SpecOf(count, byPiece);
    OfferedLot(id, count, byPiece, price);
    Bobs();
    assert Thresholds.ShippingEur(l, POLICY.rates) == Some(0.0) by { Rounding.Integral(0.0, 0); }
    LotIsCheap(LotOf(count, byPiece, price), 16 * count);
    hide Thresholds.LotPrice, EurPerGb, Rounding.ToCents, LotOf;
    assert Thresholds.RulePerGb(l, s, POLICY) == EurPerGb(Rounding.ToCents(LotOf(count, byPiece, price)), 16 * count);
    Thresholds.DealExactly(l, s, [], POLICY, now, true);
    Thresholds.DealCost(l, s, [], POLICY, now, true);
    Thresholds.DealsPass(l, s, [], POLICY, now, true);
    hide Thresholds.Evaluate;
  }

  /** What an alerted offer leaves in the log. */
  predicate IsRowOf(row: AlertRow, count: nat, byPiece: bool, price: real, now: int) {
    && row.fingerprint == Fingerprint("bob", 16, count, (LotOf(count, byPiece, price) / 10.0).Floor)
    && row.price == price && row.sentAt == now && row.urgency == Immediate && row.mutedUntil == None
  }

  /** The rate limiter lets any deal of this price pass. */
  ghost predicate AllowsAt(db: Db, price: real, now: int) {
    forall deal: Deal :: deal.listing.price == price ==> Decide(deal, db.alerts, DEPS.spam, now, 0).Allowed?
  }

  /** A good offer of a new text and key is alerted if the rate limiter allows its price. */
  lemma OfferedIsAlerted(db: Db, id: string, count: nat, byPiece: bool, price: real, now: int)
    requires IsGood(count, byPiece, price)
    requires Offered(id, count, byPiece, price).Key() !in db.listings && id !in db.specs
    requires AllowsAt(db, price, now)
    ensures var a := Attempted(db, Offered(id, count, byPiece, price), SENT, DEPS, Morning(now), true);
      && a.db.alerts == db.alerts && a.row.Some? && IsRowOf(a.row.value, count, byPiece, price, now)
  {
    var l := Offered(id, count, byPiece, price);
    OfferedReads(id, count, byPiece, price);
    OfferedIsADeal(id, count, byPiece, price, now);
    hide RunCascade, Thresholds.Evaluate, LotOf;
    CollectAlerts(db, l, SENT, DEPS, Morning(now));
    assert JudgedSpec(db, l, SENT, DEPS) == SpecOf(count, byPiece);
    hide Attempted, JudgedSpec;
  }

  lemma OneStepOn(steps: seq<Step>, s: Step)
    ensures Run(EMPTY, steps + [s], DEPS) == Apply(Run(EMPTY, steps, DEPS), s, DEPS)
  {
    hide Apply;
    assert (steps + [s])[..|steps|] == steps;
  }

  lemma FirstIsAllowed(db: Db)
    requires db.alerts == []
    ensures forall price :: AllowsAt(db, price, 0)
  {
  }

  lemma FirstIsLogged(count: nat, byPiece: bool, price: real)
    requires IsGood(count, byPiece, price)
    ensures var st := Run(EMPTY, [Collect(Offered("a", count, byPiece, price), SENT, Morning(0)), Record], DEPS);
      && st.flight == None && |st.db.alerts| == 1 && IsRowOf(st.db.alerts[0], count, byPiece, price, 0)
      && st.db.listings.Keys == {("ebay", "a")} && "b" !in st.db.specs
  {
    var first := Offered("a", count, byPiece, price);
    var s1 := Collect(first, SENT, Morning(0));
    assert [s1, Record][..1] == [s1] && [s1][..0] == [];
    FirstIsAllowed(EMPTY.db);
    OfferedIsAlerted(EMPTY.db, "a", count, byPiece, price, 0);
    CollectListings(EMPTY.db, first, SENT, DEPS, Morning(0));
    CollectSpecs(EMPTY.db, first, SENT, DEPS, Morning(0));
    hide Attempted, LotOf, IsGood, Decide, SpecFor, JudgedSpec;
    assert Run(EMPTY, [s1], DEPS) == Apply(EMPTY, s1, DEPS);
    assert Run(EMPTY, [s1, Record], DEPS) == Apply(Apply(EMPTY, s1, DEPS), Record, DEPS);
  }

  lemma SecondIsAllowed(db: Db, count: nat, byPiece: bool, price: real, byPiece': bool, price': real)
    requires |db.alerts| == 1 && IsRowOf(db.alerts[0], count, byPiece, price, 0)
    requires price > 0.0 && price' <= 0.9 * price
    ensures AllowsAt(db, price', 1)
  {
    var log := db.alerts;
    assert log[..0] == [] && UrgentOn(log, 0) <= 1;
    DropsEnoughMeans(price, price', 10.0);
    forall deal: Deal | deal.listing.price == price' ensures Decide(deal, log, DEPS.spam, 1, 0).Allowed? {
      var last := LastAlert(log, deal.fingerprint, 0);
      assert last.Some? ==> log[last.value] == log[0];
    }
  }

  /** Two good offers of one fingerprint, the second a tenth cheaper: the first is logged, and the
      second is in flight. */
  lemma SecondIsInFlight(count: nat, byPiece: bool, price: real, byPiece': bool, price': real)
    requires IsGood(count, byPiece, price) && IsGood(count, byPiece', price')
    requires (LotOf(count, byPiece, price) / 10.0).Floor == (LotOf(count, byPiece', price') / 10.0).Floor
    requires price > 0.0 && price' <= 0.9 * price
    ensures var st := Run(EMPTY, [Collect(Offered("a", count, byPiece, price), SENT, Morning(0)), Record,
                                  Collect(Offered("b", count, byPiece', price'), SENT, Morning(1))], DEPS);
      && |st.db.alerts| == 1 && IsRowOf(st.db.alerts[0], count, byPiece, price, 0)
      && st.flight.Some? && IsRowOf(st.flight.value, count, byPiece', price', 1)
      && st.flight.value.fingerprint == st.db.alerts[0].fingerprint
  {
    var first, second := Offered("a", count, byPiece, price), Offered("b", count, byPiece', price');
    var s1, s3 := Collect(first, SENT, Morning(0)), Collect(second, SENT, Morning(1));
    FirstIsLogged(count, byPiece, price);
    var st := Run(EMPTY, [s1, Record], DEPS);
    OneStepOn([s1, Record], s3);
    assert [s1, Record] + [s3] == [s1, Record, s3];
    hide Run, Attempted, LotOf, IsGood, AllowsAt;
    SecondIsAllowed(st.db, count, byPiece, price, byPiece', price');
    OfferedIsAlerted(st.db, "b", count, byPiece', price', 1);
  }

  // The mute that an alert in flight escapes.

  const BOBS := Fingerprint("bob", 16, 1, 3)

  /** A module at 39 EUR and one at 31 from the same seller, the mute between the second decision and
      its insert. */
  const RACE := [Collect(Offered("a", 1, true, 39.0), SENT, Morning(0)), Record,
                 Collect(Offered("b", 1, true, 31.0), SENT, Morning(1)),
                 MuteFor(BOBS, 1), Record]

  lemma RaceInFlight()
    ensures var st := AtMute(RACE, DEPS, 3);
      && |st.db.alerts| == 1 && st.db.alerts[0].fingerprint == BOBS && st.db.alerts[0].sentAt == 0
      && st.flight.Some? && st.flight.value.fingerprint == BOBS
      && st.flight.value.sentAt == 1 && st.flight.value.mutedUntil == None
  {
    Rounding.Integral(3900.0, 3900);
    Rounding.Integral(3100.0, 3100);
    SecondIsInFlight(1, true, 39.0, true, 31.0);
    assert RACE[..3] == [RACE[0], Record, RACE[2]];
    hide Run;
  }

  /** In flight at the mute, as the newest alert of its fingerprint. */
  lemma RaceRaces()
    ensures var at := AtMute(RACE, DEPS, 3);
      && Holds(at.db.alerts, BOBS) && Racing(at, BOBS, 1 + MUTE_MICROS) && at.flight.value.mutedUntil.None?
      && forall i :: 0 <= i < |at.db.alerts| && at.db.alerts[i].fingerprint == BOBS ==>
           at.db.alerts[i].sentAt < at.flight.value.sentAt
  {
    RaceInFlight();
    hide AtMute;
    assert AtMute(RACE, DEPS, 3).db.alerts[0].fingerprint == BOBS;
  }

  lemma RaceLands()
    ensures LogOf(RACE, DEPS)
      == Apply(Apply(AtMute(RACE, DEPS, 3), MuteFor(BOBS, 1), DEPS), Record, DEPS).db.alerts
  {
    hide Run, Apply;
    OneStepOn(RACE[..3], RACE[3]);
    OneStepOn(RACE[..4], Record);
    assert RACE[..3] + [RACE[3]] == RACE[..4] && RACE[..4] + [Record] == RACE;
  }

  lemma RaceIsOrdered()
    ensures ClocksAdvance(RACE) && FateAfter(RACE, 3) == Landed
    ensures RACE[3] == MuteFor(BOBS, 1)
  {
    assert RACE[..4] == RACE[..3] + [RACE[3]];
    assert FateAfter(RACE[..4], 3) == InFlight;
  }

  /** From the empty tables, in five steps: the fingerprint is muted, its alert lands all the same,
      and no later alert of it is held back by the mute. */
  lemma RaceIsReachable(deal: Deal, now: int, pick: nat)
    requires deal.fingerprint == BOBS
    ensures ClocksAdvance(RACE) && RACE[3] == MuteFor(BOBS, 1)
    ensures var at := AtMute(RACE, DEPS, 3); var until := 1 + 86_400_000_000;
      && Holds(at.db.alerts, BOBS) && Racing(at, BOBS, until) && FateAfter(RACE, 3) == Landed
      && Breached(LogOf(RACE, DEPS), |at.db.alerts|, BOBS, until)
      && Decide(deal, LogOf(RACE, DEPS), DEPS.spam, now, pick) != Suppressed(Muted)
  {
    var at := AtMute(RACE, DEPS, 3);
    hide *;
    RaceRaces();
    RaceIsOrdered();
    RaceLands();
    RacingAlertLiftsSilence(at, BOBS, 1, DEPS, deal, now, pick);
  }

  // Alerted twice for want of one unit.

  /** A lot of four at 105 EUR, then the same four at 26 EUR apiece. */
  const MIXED := [Collect(Offered("a", 4, false, 105.0), SENT, Morning(0)), Record,
                  Collect(Offered("b", 4, true, 26.0), SENT, Morning(1)), Record]

  lemma MixedLots()
    ensures IsGood(4, false, 105.0) && IsGood(4, true, 26.0)
    ensures (LotOf(4, false, 105.0) / 10.0).Floor == 10 == (LotOf(4, true, 26.0) / 10.0).Floor
  {
    Rounding.Integral(10500.0, 10500);
    Rounding.Integral(2600.0, 2600);
    assert LotOf(4, true, 26.0) == 104.0 && LotOf(4, false, 105.0) == 105.0;
  }

  lemma MixedInFlight()
    ensures var st := Run(EMPTY, MIXED[..3], DEPS);
      && |st.db.alerts| == 1 && st.flight.Some?
      && st.flight.value.fingerprint == st.db.alerts[0].fingerprint == Fingerprint("bob", 16, 4, 10)
  {
    MixedLots();
    hide Run, LotOf, IsGood;
    SecondIsInFlight(4, false, 105.0, true, 26.0);
    assert MIXED[..3] == [MIXED[0], Record, MIXED[2]];
  }

  lemma RecordedNext(st: State)
    requires st.flight.Some?
    ensures Apply(st, Record, DEPS).db.alerts == st.db.alerts + [st.flight.value]
  {
  }

  /** One fingerprint, in a bucket that cannot contain the drop, is alerted twice when the lot and the
      piece are mixed: the bucket is cut from the lot, the drop measured on the displayed price. */
  lemma MixedUnitsAlertTwice()
    ensures var log := LogOf(MIXED, DEPS);
      && |log| == 2 && log[0].fingerprint == log[1].fingerprint
      && log[1].fingerprint.bucket as real * DEPS.spam.dropPct >= 100.0
  {
    MixedInFlight();
    OneStepOn(MIXED[..3], Record);
    assert MIXED[..3] + [Record] == MIXED;
    hide Run;
    RecordedNext(Run(EMPTY, MIXED[..3], DEPS));
  }
}
