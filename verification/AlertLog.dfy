/** What every reachable alert log satisfies: the daily cap, the 24 hours after a mute, the price
    ladder of a fingerprint, and where each row comes from. */
module AlertLog {
  import opened Models
  import opened Money
  import opened Rounding
  import opened Tables
  import opened RateLimit
  import opened Pipeline
  import opened Runs
  import LlmQueue
  import Thresholds

  // The daily cap.

  lemma {:induction false} UrgentOnIgnoresFeedback(a: seq<AlertRow>, b: seq<AlertRow>, day: int)
    requires |a| == |b| && forall i :: 0 <= i < |a| ==> SameAlert(a[i], b[i])
    ensures UrgentOn(a, day) == UrgentOn(b, day)
  {
    if a != [] {
      UrgentOnIgnoresFeedback(a[..|a| - 1], b[..|b| - 1], day);
    }
  }

  function CountsOn(flight: Option<AlertRow>, day: int): nat {
    if flight.Some? && flight.value.urgency == Immediate && Day(flight.value.sentAt) == day then 1 else 0
  }

  lemma SettledCount(st: State, day: int)
    ensures UrgentOn(Settled(st).alerts, day) == UrgentOn(st.db.alerts, day) + CountsOn(st.flight, day)
  {
    if st.flight.Some? {
      assert Settled(st).alerts[..|st.db.alerts|] == st.db.alerts;
    }
  }

  lemma UrgentStep(st: State, s: Step, d: Deps, day: int)
    ensures var before, after := Settled(st), Apply(st, s, d);
      UrgentOn(Settled(after).alerts, day) == UrgentOn(before.alerts, day)
        + (if s.Collect? then CountsOn(after.flight, day) else 0)
        - (if s.Crash? then CountsOn(st.flight, day) else 0)
  {
    var before, after := Settled(st), Apply(st, s, d);
    LogGrows(st, s, d);
    SettledCount(st, day);
    SettledCount(after, day);
    FlightTakesOff(st, s, d);
    if s.Collect? {
      hide Apply;
    } else if !s.Crash? {
      UrgentOnIgnoresFeedback(before.alerts, Settled(after).alerts, day);
    }
  }

  /** An immediate alert goes out only while its day is below the cap. */
  lemma AcceptedUnderCap(st: State, s: Step, d: Deps)
    requires s.Collect?
    ensures var flight := Apply(st, s, d).flight;
      flight.Some? && flight.value.urgency == Immediate ==>
        UrgentOn(Settled(st).alerts, Day(flight.value.sentAt)) < d.spam.dailyCap
  {
    CollectAlerts(Settled(st), s.listing, s.world, d, s.cycle);
    hide Attempted, Settled, UrgentOn;
    if AlertedDeal(Settled(st), s.listing, s.world, d, s.cycle).Some? {
      AlertsAreAllowed(Settled(st), s.listing, s.world, d, s.cycle);
    }
    hide AlertedDeal;
  }

  lemma CapStep(st: State, s: Step, d: Deps, day: int)
    requires UrgentOn(Settled(st).alerts, day) <= d.spam.dailyCap
    ensures UrgentOn(Settled(Apply(st, s, d)).alerts, day) <= d.spam.dailyCap
  {
    hide Apply, Settled, UrgentOn;
    UrgentStep(st, s, d, day);
    if s.Collect? { AcceptedUnderCap(st, s, d); }
  }

  lemma PrefixHoldsFewer(st: State, day: int)
    ensures UrgentOn(st.db.alerts, day) <= UrgentOn(Settled(st).alerts, day)
  {
    if st.flight.Some? {
      assert Settled(st).alerts[..|st.db.alerts|] == st.db.alerts;
    }
  }

  /** In every reachable state no UTC day holds more than the cap of immediate alerts, the one in
      flight included: whatever the clock does and however mutes, deletions, drains and crashes
      fall between a decision and its insert. */
  lemma {:induction false} DailyCapHolds(st: State, steps: seq<Step>, d: Deps)
    requires d.spam.dailyCap >= 0 && forall day :: UrgentOn(Settled(st).alerts, day) <= d.spam.dailyCap
    ensures forall day ::
      UrgentOn(Run(st, steps, d).db.alerts, day) <= UrgentOn(Settled(Run(st, steps, d)).alerts, day) <= d.spam.dailyCap
  {
    hide Apply;
    if steps != [] {
      DailyCapHolds(st, steps[..|steps| - 1], d);
    }
    forall day ensures UrgentOn(Run(st, steps, d).db.alerts, day) <= UrgentOn(Settled(Run(st, steps, d)).alerts, day) <= d.spam.dailyCap {
      if steps != [] {
        CapStep(Run(st, steps[..|steps| - 1], d), steps[|steps| - 1], d, day);
      }
      PrefixHoldsFewer(Run(st, steps, d), day);
    }
  }

  /** The immediate alerts of a day the notifier accepted over a run: every collection that ends with
      an alert in flight had it accepted. */
  function AcceptedOn(st: State, steps: seq<Step>, d: Deps, day: int): nat {
    if steps == [] then 0
    else
      var n := |steps| - 1;
      AcceptedOn(st, steps[..n], d, day)
      + if steps[n].Collect? then CountsOn(Apply(Run(st, steps[..n], d), steps[n], d).flight, day) else 0
  }

  /** Those a crash lost before their row was inserted. */
  function LostOn(st: State, steps: seq<Step>, d: Deps, day: int): nat {
    if steps == [] then 0
    else
      var n := |steps| - 1;
      LostOn(st, steps[..n], d, day)
      + if steps[n].Crash? then CountsOn(Run(st, steps[..n], d).flight, day) else 0
  }

  function Crashes(steps: seq<Step>): nat {
    if steps == [] then 0 else Crashes(steps[..|steps| - 1]) + if steps[|steps| - 1].Crash? then 1 else 0
  }

  lemma AtMostOne(flight: Option<AlertRow>, day: int)
    ensures CountsOn(flight, day) <= 1
  {
  }

  lemma SettledEmpty(day: int)
    ensures UrgentOn(Settled(EMPTY).alerts, day) == 0
  {
  }

  lemma EmptyHasNone(d: Deps)
    requires d.spam.dailyCap >= 0
    ensures forall day :: UrgentOn(Settled(EMPTY).alerts, day) <= d.spam.dailyCap
  {
    forall day ensures UrgentOn(Settled(EMPTY).alerts, day) <= d.spam.dailyCap { SettledEmpty(day); }
  }

  /** Every accepted immediate alert of a day is in the log, in flight, or lost to a crash; so a day
      sees at most the cap and the crashes. */
  lemma {:induction false} AcceptedAreLoggedOrLost(steps: seq<Step>, d: Deps, day: int)
    requires d.spam.dailyCap >= 0
    ensures AcceptedOn(EMPTY, steps, d, day) == UrgentOn(Settled(Run(EMPTY, steps, d)).alerts, day) + LostOn(EMPTY, steps, d, day)
    ensures AcceptedOn(EMPTY, steps, d, day) <= d.spam.dailyCap + Crashes(steps)
    ensures LostOn(EMPTY, steps, d, day) <= Crashes(steps)
  {
    hide Apply, Settled, CountsOn;
    if steps != [] {
      var n := |steps| - 1;
      AcceptedAreLoggedOrLost(steps[..n], d, day);
      UrgentStep(Run(EMPTY, steps[..n], d), steps[n], d, day);
      AtMostOne(Run(EMPTY, steps[..n], d).flight, day);
    } else {
      SettledEmpty(day);
    }
    EmptyHasNone(d);
    DailyCapHolds(EMPTY, steps, d);
  }

  // Where rows come from.

  /** The alert log at the end of a run. */
  function LogOf(steps: seq<Step>, d: Deps): seq<AlertRow> { Run(EMPTY, steps, d).db.alerts }

  /** The tables the collector's step `k` of a run worked on. */
  function TablesAt(st: State, steps: seq<Step>, d: Deps, k: nat): Db
    requires k <= |steps|
  {
    Settled(Run(st, steps[..k], d))
  }

  /** The row is what step `s`, taken on `db`, sent. */
  ghost predicate SentBy(db: Db, s: Step, d: Deps, row: AlertRow) {
    && s.Collect? && AlertedDeal(db, s.listing, s.world, d, s.cycle).Some?
    && SameAlert(RowOf(AlertedDeal(db, s.listing, s.world, d, s.cycle).value, s.cycle.now), row)
  }

  lemma SentByFacts(db: Db, s: Step, d: Deps, row: AlertRow)
    requires SentBy(db, s, d, row)
    ensures row.sentAt == s.cycle.now && row.price == s.listing.price
    ensures row.fingerprint == AlertedDeal(db, s.listing, s.world, d, s.cycle).value.fingerprint
    ensures Decide(AlertedDeal(db, s.listing, s.world, d, s.cycle).value, db.alerts, d.spam, s.cycle.now, s.world.pick).Allowed?
    ensures AlertedDeal(db, s.listing, s.world, d, s.cycle).value.listing == s.listing
  {
    CollectAlerts(db, s.listing, s.world, d, s.cycle);
    AlertsAreAllowed(db, s.listing, s.world, d, s.cycle);
    hide AlertedDeal, Decide, Attempted;
  }

  /** Every row of a run, recorded or in flight, was there before it or was sent by one of its
      collection steps. */
  lemma {:induction false} SentByCollection(st: State, steps: seq<Step>, d: Deps, i: nat) returns (k: nat)
    requires |Settled(st).alerts| <= i < |Settled(Run(st, steps, d)).alerts|
    ensures k < |steps| && |TablesAt(st, steps, d, k).alerts| == i
    ensures SentBy(TablesAt(st, steps, d, k), steps[k], d, Settled(Run(st, steps, d)).alerts[i])
  {
    hide Apply, AlertedDeal, RowOf, Settled;
    var n := |steps| - 1;
    var before := Run(st, steps[..n], d);
    FlightTakesOff(before, steps[n], d);
    if i < |Settled(before).alerts| {
      k := SentByCollection(st, steps[..n], d, i);
      PrefixOfPrefix(steps, k, n);
      assert SameAlert(Settled(before).alerts[i], Settled(Run(st, steps, d)).alerts[i]);
    } else {
      k := n;
    }
  }

  lemma RecordedRowsSettle(st: State)
    ensures |st.db.alerts| <= |Settled(st).alerts| <= |st.db.alerts| + 1
    ensures forall i :: 0 <= i < |st.db.alerts| ==> Settled(st).alerts[i] == st.db.alerts[i]
  {
  }

  // Mutes.

  /** Collection clocks do not run backwards among themselves, nor do mute clocks. */
  predicate ClocksAdvance(steps: seq<Step>) {
    && (forall i, j :: 0 <= i < j < |steps| && steps[i].Collect? && steps[j].Collect? ==>
          steps[i].cycle.now <= steps[j].cycle.now)
    && (forall i, j :: 0 <= i < j < |steps| && steps[i].MuteFor? && steps[j].MuteFor? ==>
          steps[i].at <= steps[j].at)
  }

  predicate Holds(alerts: seq<AlertRow>, fp: Fingerprint) {
    exists i :: 0 <= i < |alerts| && alerts[i].fingerprint == fp
  }

  /** Every row of the fingerprint is either still silenced until `until` or later, or was sent
      at `until` or later. */
  predicate Silenced(alerts: seq<AlertRow>, fp: Fingerprint, until: int) {
    forall i :: 0 <= i < |alerts| && alerts[i].fingerprint == fp ==>
      alerts[i].sentAt >= until || (alerts[i].mutedUntil.Some? && alerts[i].mutedUntil.value >= until)
  }

  /** Rows beyond the first `n` of a fingerprint were all sent at `until` or later. */
  predicate NoneBefore(alerts: seq<AlertRow>, n: nat, fp: Fingerprint, until: int) {
    forall i :: n <= i < |alerts| && alerts[i].fingerprint == fp ==> alerts[i].sentAt >= until
  }

  predicate Hushed(alerts: seq<AlertRow>, n: nat, fp: Fingerprint, until: int) {
    n <= |alerts| && Silenced(alerts, fp, until) && NoneBefore(alerts, n, fp, until)
  }

  /** The newest row of a silenced fingerprint blocks until the silence is over: it either carries
      the mute, or was itself sent after it. */
  lemma SilenceBlocks(db: Db, s: Step, d: Deps, fp: Fingerprint, until: int)
    requires s.Collect? && Silenced(db.alerts, fp, until) && Holds(db.alerts, fp)
    requires forall i :: 0 <= i < |db.alerts| && db.alerts[i].sentAt >= until ==> s.cycle.now >= until
    requires AlertedDeal(db, s.listing, s.world, d, s.cycle).Some?
    requires AlertedDeal(db, s.listing, s.world, d, s.cycle).value.fingerprint == fp
    ensures s.cycle.now >= until
  {
    AlertsAreAllowed(db, s.listing, s.world, d, s.cycle);
    hide AlertedDeal;
    var last := LastAlert(db.alerts, fp, s.world.pick);
    assert last.Some?;
  }

  lemma HoldsOn(before: seq<AlertRow>, after: seq<AlertRow>, fp: Fingerprint)
    requires |before| <= |after| && forall i :: 0 <= i < |before| ==> SameAlert(before[i], after[i])
    ensures Holds(before, fp) ==> Holds(after, fp)
  {
    if Holds(before, fp) {
      var i :| 0 <= i < |before| && before[i].fingerprint == fp;
      assert SameAlert(before[i], after[i]);
    }
  }

  lemma CollectKeepsSilence(st: State, s: Step, d: Deps, fp: Fingerprint, until: int, n: nat)
    requires s.Collect?
    requires Hushed(Settled(st).alerts, n, fp, until) && n <= |st.db.alerts| && Holds(st.db.alerts, fp)
    requires forall i :: 0 <= i < |Settled(st).alerts| && Settled(st).alerts[i].sentAt >= until ==> s.cycle.now >= until
    ensures Hushed(Settled(Apply(st, s, d)).alerts, n, fp, until)
  {
    FlightTakesOff(st, s, d);
    RecordedRowsSettle(st);
    hide Apply, Settled;
    HoldsOn(st.db.alerts, Settled(st).alerts, fp);
    var deal := AlertedDeal(Settled(st), s.listing, s.world, d, s.cycle);
    if deal.Some? && deal.value.fingerprint == fp {
      SilenceBlocks(Settled(st), s, d, fp, until);
    }
    hide AlertedDeal;
  }

  /** Feedback on the recorded rows that shortens no mute of the fingerprint. */
  lemma FeedbackKeepsQuiet(st: State, rows: seq<AlertRow>, fp: Fingerprint, until: int, n: nat)
    requires Hushed(Settled(st).alerts, n, fp, until)
    requires |rows| == |st.db.alerts| && forall i :: 0 <= i < |rows| ==>
      SameAlert(st.db.alerts[i], rows[i])
      && (rows[i].mutedUntil == st.db.alerts[i].mutedUntil
          || (rows[i].mutedUntil.Some? && rows[i].mutedUntil.value >= until))
    ensures Hushed(Settled(st.(db := st.db.(alerts := rows))).alerts, n, fp, until)
  {
    var before, after := Settled(st).alerts, Settled(st.(db := st.db.(alerts := rows))).alerts;
    forall i | 0 <= i < |after|
      ensures after[i].fingerprint == before[i].fingerprint && after[i].sentAt == before[i].sentAt
      ensures after[i].mutedUntil == before[i].mutedUntil || (after[i].mutedUntil.Some? && after[i].mutedUntil.value >= until)
    {
      if i < |rows| { assert SameAlert(st.db.alerts[i], rows[i]); }
    }
  }

  /** One step keeps the silence, if neither clock has run backwards past it. */
  lemma SilenceStep(st: State, s: Step, d: Deps, fp: Fingerprint, until: int, n: nat)
    requires Hushed(Settled(st).alerts, n, fp, until) && n <= |st.db.alerts| && Holds(st.db.alerts, fp)
    requires s.MuteFor? ==> s.at + MUTE_MICROS >= until
    requires s.Collect? ==>
      forall i :: 0 <= i < |Settled(st).alerts| && Settled(st).alerts[i].sentAt >= until ==> s.cycle.now >= until
    ensures var after := Apply(st, s, d);
      Hushed(Settled(after).alerts, n, fp, until) && n <= |after.db.alerts| && Holds(after.db.alerts, fp)
  {
    LogGrows(st, s, d);
    HoldsOn(st.db.alerts, Apply(st, s, d).db.alerts, fp);
    match s
    case Collect(_, _, _) => CollectKeepsSilence(st, s, d, fp, until, n); hide Apply;
    case MuteFor(other, at) => FeedbackKeepsQuiet(st, MuteRows(st.db.alerts, other, at), fp, until, n);
    case Buy(other) => FeedbackKeepsQuiet(st, BoughtRows(st.db.alerts, other), fp, until, n);
    case Drain(_, _, _) => hide LlmQueue.Drain;
    case Crash => RecordedRowsSettle(st);
    case Record => assert Settled(Apply(st, s, d)) == Settled(st);
    case Delete(_, _) => assert Settled(Apply(st, s, d)).alerts == Settled(st).alerts;
  }

  /** What becomes of the alert in flight after step `m`. */
  datatype Fate = InFlight | Landed | Lost

  function FateAfter(steps: seq<Step>, m: nat): Fate {
    if |steps| <= m + 1 then InFlight
    else
      var before := FateAfter(steps[..|steps| - 1], m);
      var s := steps[|steps| - 1];
      if before != InFlight then before
      else if s.Crash? then Lost
      else if s.Record? || s.Collect? then Landed
      else InFlight
  }

  /** At step `m` an alert of `fp` decided before `until` is accepted and not yet inserted. */
  predicate Racing(st: State, fp: Fingerprint, until: int) {
    st.flight.Some? && st.flight.value.fingerprint == fp && st.flight.value.sentAt < until
  }

  /** A row of the fingerprint beyond the first `n` was sent before `until`. */
  predicate Breached(alerts: seq<AlertRow>, n: nat, fp: Fingerprint, until: int) {
    exists i :: n <= i < |alerts| && alerts[i].fingerprint == fp && alerts[i].sentAt < until
  }

  /** What holds from the mute on, by the fate of a racing alert. */
  ghost predicate AfterMute(st: State, racing: bool, fate: Fate, flight: Option<AlertRow>, n: nat, fp: Fingerprint, until: int) {
    if racing && fate == InFlight then
      |st.db.alerts| == n && Hushed(st.db.alerts, n, fp, until) && Holds(st.db.alerts, fp) && st.flight == flight
    else if racing && fate == Landed then
      Breached(st.db.alerts, n, fp, until)
    else
      Hushed(Settled(st).alerts, n, fp, until) && n <= |st.db.alerts| && Holds(st.db.alerts, fp)
  }

  lemma MuteSilences(st: State, fp: Fingerprint, at: int, d: Deps)
    requires Holds(st.db.alerts, fp)
    ensures AfterMute(Apply(st, MuteFor(fp, at), d), Racing(st, fp, at + MUTE_MICROS), InFlight, st.flight,
                      |st.db.alerts|, fp, at + MUTE_MICROS)
  {
    HoldsOn(st.db.alerts, MuteRows(st.db.alerts, fp, at), fp);
  }

  lemma AfterMuteStep(st: State, s: Step, d: Deps, racing: bool, fate: Fate, flight: Option<AlertRow>,
                      n: nat, fp: Fingerprint, until: int)
    requires AfterMute(st, racing, fate, flight, n, fp, until)
    requires racing ==> flight.Some? && flight.value.fingerprint == fp && flight.value.sentAt < until
    requires s.MuteFor? ==> s.at + MUTE_MICROS >= until
    requires s.Collect? ==>
      forall i :: 0 <= i < |Settled(st).alerts| && Settled(st).alerts[i].sentAt >= until ==> s.cycle.now >= until
    ensures var next := if fate != InFlight then fate else if s.Crash? then Lost
                        else if s.Record? || s.Collect? then Landed else InFlight;
      AfterMute(Apply(st, s, d), racing, next, flight, n, fp, until)
  {
    if !racing || fate == Lost {
      SilenceStep(st, s, d, fp, until, n);
    } else if fate == Landed {
      LogGrows(st, s, d);
      hide Apply;
      var i :| n <= i < |st.db.alerts| && st.db.alerts[i].fingerprint == fp && st.db.alerts[i].sentAt < until;
      assert SameAlert(st.db.alerts[i], Apply(st, s, d).db.alerts[i]);
    } else if s.Record? || s.Collect? {
      LogGrows(st, s, d);
      hide Apply;
      assert Apply(st, s, d).db.alerts[n] == flight.value;
    } else if !s.Crash? {
      SilenceStep(State(st.db, None), s, d, fp, until, n);
    }
  }

  /** The tables at the mute of step `m`. */
  function AtMute(steps: seq<Step>, d: Deps, m: nat): State
    requires m <= |steps|
  {
    Run(EMPTY, steps[..m], d)
  }

  /** A collection never happens before the send time of a row it can see. */
  lemma ClockPassesRows(steps: seq<Step>, d: Deps, until: int)
    requires steps != [] && ClocksAdvance(steps)
    ensures var n := |steps| - 1; var seen := Settled(Run(EMPTY, steps[..n], d)).alerts;
      steps[n].Collect? ==> forall i :: 0 <= i < |seen| && seen[i].sentAt >= until ==> steps[n].cycle.now >= until
  {
    hide Apply, AlertedDeal, RowOf;
    var n := |steps| - 1;
    var before := steps[..n];
    var seen := Settled(Run(EMPTY, before, d)).alerts;
    if steps[n].Collect? {
      forall i | 0 <= i < |seen| && seen[i].sentAt >= until ensures steps[n].cycle.now >= until {
        var k := SentByCollection(EMPTY, before, d, i);
        SentByFacts(TablesAt(EMPTY, before, d, k), before[k], d, seen[i]);
        assert before[k] == steps[k];
      }
    }
  }

  lemma {:induction false} MuteInvariant(steps: seq<Step>, d: Deps, m: nat)
    requires m < |steps| && steps[m].MuteFor? && ClocksAdvance(steps)
    requires Holds(AtMute(steps, d, m).db.alerts, steps[m].fp)
    ensures var at := AtMute(steps, d, m); var until := steps[m].at + MUTE_MICROS;
      AfterMute(Run(EMPTY, steps, d), Racing(at, steps[m].fp, until), FateAfter(steps, m), at.flight,
                |at.db.alerts|, steps[m].fp, until)
  {
    hide Apply, AlertedDeal, RowOf, AfterMute, Settled;
    var n := |steps| - 1;
    var before := Run(EMPTY, steps[..n], d);
    var at, until := AtMute(steps, d, m), steps[m].at + MUTE_MICROS;
    if m == n {
      MuteSilences(before, steps[m].fp, steps[m].at, d);
    } else {
      PrefixOfPrefix(steps, m, n);
      assert steps[..n][m] == steps[m];
      MuteInvariant(steps[..n], d, m);
      ClockPassesRows(steps, d, until);
      AfterMuteStep(before, steps[n], d, Racing(at, steps[m].fp, until), FateAfter(steps[..n], m), at.flight,
                    |at.db.alerts|, steps[m].fp, until);
    }
  }

  /** After a mute that found a row, a row of the fingerprint with a send time within the next 24
      hours is added if and only if its alert was in flight at the mute (decided, accepted by the
      notifier, not yet inserted) and then landed: across cycles, crashes, repeated mutes, and
      whichever row the database picks among equal instants. */
  lemma MuteLastsADay(steps: seq<Step>, d: Deps, m: nat)
    requires m < |steps| && steps[m].MuteFor? && ClocksAdvance(steps)
    requires Holds(AtMute(steps, d, m).db.alerts, steps[m].fp)
    ensures var at := AtMute(steps, d, m); var until := steps[m].at + 86_400_000_000;
      Breached(Run(EMPTY, steps, d).db.alerts, |at.db.alerts|, steps[m].fp, until)
      <==> Racing(at, steps[m].fp, until) && FateAfter(steps, m) == Landed
  {
    MuteInvariant(steps, d, m);
    hide Run, FateAfter;
    RecordedRowsSettle(Run(EMPTY, steps, d));
  }

  /** A mute can race: the alert decided a moment before it lands unmuted after it, and as the
      newest row of its fingerprint it also lifts the silence, for any price and at any time. */
  lemma RacingAlertLiftsSilence(st: State, fp: Fingerprint, at: int, d: Deps, deal: Deal, now: int, pick: nat)
    requires Racing(st, fp, at + MUTE_MICROS) && st.flight.value.mutedUntil.None? && deal.fingerprint == fp
    requires forall i :: 0 <= i < |st.db.alerts| && st.db.alerts[i].fingerprint == fp ==>
      st.db.alerts[i].sentAt < st.flight.value.sentAt
    ensures var after := Apply(Apply(st, MuteFor(fp, at), d), Record, d).db.alerts;
      && Breached(after, |st.db.alerts|, fp, at + MUTE_MICROS)
      && Decide(deal, after, d.spam, now, pick) != Suppressed(Muted)
  {
    var after := Apply(Apply(st, MuteFor(fp, at), d), Record, d).db.alerts;
    assert after[|st.db.alerts|] == st.flight.value;
  }

  // The price ladder of a fingerprint.

  /** Rows of one fingerprint carry strictly increasing send times. */
  predicate SentInOrder(alerts: seq<AlertRow>) {
    forall i, j :: 0 <= i < j < |alerts| && alerts[i].fingerprint == alerts[j].fingerprint ==>
      alerts[i].sentAt < alerts[j].sentAt
  }

  /** Row `i` is the row of its fingerprint just before row `j`. */
  predicate Precedes(alerts: seq<AlertRow>, i: nat, j: nat) {
    && i < j < |alerts| && alerts[i].fingerprint == alerts[j].fingerprint
    && forall k :: i < k < j ==> alerts[k].fingerprint != alerts[j].fingerprint
  }

  /** A collection step leaves exactly what it saw in the log. */
  lemma CollectRecords(steps: seq<Step>, d: Deps, k: nat)
    requires k < |steps| && steps[k].Collect?
    ensures Run(EMPTY, steps[..k + 1], d).db.alerts == TablesAt(EMPTY, steps, d, k).alerts
  {
    LogGrows(Run(EMPTY, steps[..k], d), steps[k], d);
    hide Apply, Settled;
    assert steps[..k + 1][..k] == steps[..k];
  }

  /** Later steps only add rows and feedback. */
  lemma {:induction false} RunKeepsRows(st: State, steps: seq<Step>, d: Deps, k: nat)
    requires k <= |steps|
    ensures var early, late := Run(st, steps[..k], d).db.alerts, Run(st, steps, d).db.alerts;
      |early| <= |late| && forall i :: 0 <= i < |early| ==> SameAlert(early[i], late[i])
  {
    hide Apply;
    if k == |steps| {
      assert steps[..k] == steps;
    } else {
      var n := |steps| - 1;
      PrefixOfPrefix(steps, k, n);
      RunKeepsRows(st, steps[..n], d, k);
      LogGrows(Run(st, steps[..n], d), steps[n], d);
    }
  }

  /** What a collection step saw is in the log for good. */
  lemma SeenRowsStay(steps: seq<Step>, d: Deps, k: nat)
    requires k < |steps| && steps[k].Collect?
    ensures var early, late := TablesAt(EMPTY, steps, d, k).alerts, LogOf(steps, d);
      |early| <= |late| && forall i :: 0 <= i < |early| ==> SameAlert(early[i], late[i])
  {
    hide Apply, Settled, SameAlert;
    CollectRecords(steps, d, k);
    RunKeepsRows(EMPTY, steps, d, k + 1);
  }

  /** A row whose fingerprint was in the log already was allowed against some latest such row. */
  lemma AllowedAfterLast(steps: seq<Step>, d: Deps, j: nat, i: nat) returns (last: nat)
    requires i < j < |LogOf(steps, d)| && LogOf(steps, d)[i].fingerprint == LogOf(steps, d)[j].fingerprint
    ensures var log := LogOf(steps, d);
      && last < j && log[last].fingerprint == log[j].fingerprint
      && (forall k :: 0 <= k < j && log[k].fingerprint == log[j].fingerprint ==> log[k].sentAt <= log[last].sentAt)
      && (log[last].price > 0.0 ==> DropsEnough(log[last].price, log[j].price, d.spam.dropPct))
  {
    hide Apply, AlertedDeal, RowOf;
    var log := LogOf(steps, d);
    RecordedRowsSettle(Run(EMPTY, steps, d));
    var k := SentByCollection(EMPTY, steps, d, j);
    var before := TablesAt(EMPTY, steps, d, k);
    SeenRowsStay(steps, d, k);
    hide Settled;
    SentByFacts(before, steps[k], d, log[j]);
    assert forall n :: 0 <= n < j ==> SameAlert(before.alerts[n], log[n]);
    last := LastAlert(before.alerts, log[j].fingerprint, steps[k].world.pick).value;
  }

  /** Over any run with increasing alert times, each new alert of a fingerprint costs at most
      (1 - drop%) of the previous one, unless that one was not positive. */
  lemma PriceLadder(steps: seq<Step>, d: Deps, i: nat, j: nat)
    requires SentInOrder(LogOf(steps, d)) && Precedes(LogOf(steps, d), i, j)
    ensures var log := LogOf(steps, d);
      log[i].price > 0.0 ==> log[j].price <= (1.0 - d.spam.dropPct / 100.0) * log[i].price
  {
    hide Apply, AlertedDeal, RowOf;
    var last := AllowedAfterLast(steps, d, j, i);
    var log := LogOf(steps, d);
    assert last == i;
    if log[i].price > 0.0 {
      DropsEnoughMeans(log[i].price, log[j].price, d.spam.dropPct);
    }
  }

  /** The listing's displayed price, in whole EUR cents, pays for one of `units` equal parts of the
      lot whose price the fingerprint's bucket is cut from. */
  predicate EuroLotOf(l: Listing, s: Spec, units: int) {
    l.currency == "EUR" && WholeCents(l.price) && Thresholds.UnitsPaid(s) == units
  }

  /** A price and its lot of `units` lie in the bucket. */
  predicate InBucket(price: real, units: int, bucket: int) {
    10.0 * bucket as real <= Times(price, units) < 10.0 * bucket as real + 10.0
  }

  lemma BucketHoldsPrice(l: Listing, s: Spec, units: int, rates: map<string, real>)
    requires EuroLotOf(l, s, units)
    ensures Thresholds.LotPrice(l, s, rates) == Some(Times(l.price, units))
    ensures InBucket(l.price, units, Thresholds.FingerprintOf(l, s, Times(l.price, units)).bucket)
  {
    Thresholds.EurLot(l, s, rates);
    hide Thresholds.LotPrice, Times, WholeCents;
  }

  lemma DropScales(previous: real, price: real, units: int, dropPct: real)
    requires previous > 0.0 && units >= 1 && DropsEnough(previous, price, dropPct)
    ensures Times(price, units) <= (1.0 - dropPct / 100.0) * Times(previous, units)
  {
    DropsEnoughMeans(previous, price, dropPct);
    var keep, n := 1.0 - dropPct / 100.0, units as real;
    assert (keep * previous - price) * n >= 0.0;
    assert keep * previous * n == keep * (previous * n);
  }

  lemma TenEurosAreTooFew(previous: real, price: real, base: real, bucket: int, dropPct: real)
    requires bucket > 0 && bucket as real * dropPct >= 100.0 && base == 10.0 * bucket as real
    requires base <= previous < base + 10.0 && base <= price < base + 10.0
    ensures price > (1.0 - dropPct / 100.0) * previous
  {
    assert dropPct > 0.0;
    assert dropPct / 100.0 * previous >= dropPct / 100.0 * base;
    assert dropPct / 100.0 * base == bucket as real * dropPct / 10.0;
  }

  /** A ten-euro bucket cannot contain the required drop once bucket times drop% reaches 100. */
  lemma NoDropWithinBucket(previous: real, price: real, units: int, bucket: int, dropPct: real)
    requires bucket > 0 && bucket as real * dropPct >= 100.0 && units >= 1 && previous > 0.0
    requires InBucket(previous, units, bucket) && InBucket(price, units, bucket)
    ensures !DropsEnough(previous, price, dropPct)
  {
    if DropsEnough(previous, price, dropPct) {
      DropScales(previous, price, units, dropPct);
      TenEurosAreTooFew(Times(previous, units), Times(price, units), 10.0 * bucket as real, bucket, dropPct);
    }
  }

  /** Step `k` alerts a deal with fingerprint `fp`. */
  ghost predicate Alerts(steps: seq<Step>, d: Deps, k: nat, fp: Fingerprint)
    requires k < |steps|
  {
    && steps[k].Collect?
    && var deal := AlertedDeal(TablesAt(EMPTY, steps, d, k), steps[k].listing, steps[k].world, d, steps[k].cycle);
    deal.Some? && deal.value.fingerprint == fp
  }

  /** Every collection step that alerts this fingerprint saw a EUR listing priced by the same number
      of units. */
  ghost predicate OnlyEuroLotsOf(steps: seq<Step>, d: Deps, fp: Fingerprint, units: int) {
    forall k :: 0 <= k < |steps| && Alerts(steps, d, k, fp) ==>
      EuroLotOf(steps[k].listing, JudgedSpec(TablesAt(EMPTY, steps, d, k), steps[k].listing, steps[k].world, d), units)
  }

  lemma AlertedPriceInBucket(db: Db, l: Listing, w: World, d: Deps, c: Cycle, units: int)
    requires AlertedDeal(db, l, w, d, c).Some? && EuroLotOf(l, JudgedSpec(db, l, w, d), units)
    ensures var row := RowOf(AlertedDeal(db, l, w, d, c).value, c.now);
      InBucket(row.price, units, row.fingerprint.bucket)
  {
    BucketHoldsPrice(l, JudgedSpec(db, l, w, d), units, d.policy.rates);
    hide JudgedSpec, Thresholds.LotPrice, InBucket, Times, WholeCents, Unchanged, Sends;
  }

  lemma PriceInBucketInLog(steps: seq<Step>, d: Deps, i: nat, units: int)
    requires i < |LogOf(steps, d)|
    requires OnlyEuroLotsOf(steps, d, LogOf(steps, d)[i].fingerprint, units)
    ensures var row := LogOf(steps, d)[i];
      InBucket(row.price, units, row.fingerprint.bucket) && units >= 1
  {
    hide Apply, AlertedDeal, InBucket;
    RecordedRowsSettle(Run(EMPTY, steps, d));
    var k := SentByCollection(EMPTY, steps, d, i);
    var before := TablesAt(EMPTY, steps, d, k);
    SentByFacts(before, steps[k], d, LogOf(steps, d)[i]);
    assert Alerts(steps, d, k, LogOf(steps, d)[i].fingerprint);
    AlertedPriceInBucket(before, steps[k].listing, steps[k].world, d, steps[k].cycle, units);
  }

  lemma SignOfTimes(price: real, units: int)
    requires units >= 1
    ensures Times(price, units) > 0.0 ==> price > 0.0
  {
  }

  lemma PositiveInBucket(price: real, units: int, bucket: int)
    requires InBucket(price, units, bucket) && bucket > 0 && units >= 1
    ensures price > 0.0
  {
    SignOfTimes(price, units);
  }

  /** For EUR listings whose bucket times drop% is at least 100 (a lot of 100 EUR and up at 10 %), a
      fingerprint whose alerts are all priced by the same number of units, be it the lot or the
      module, is alerted at most once ever: at any times, in any order, under any choice among equal
      instants. */
  lemma AlertedAtMostOnce(steps: seq<Step>, d: Deps, i: nat, j: nat, units: int)
    requires i < j < |LogOf(steps, d)|
    requires OnlyEuroLotsOf(steps, d, LogOf(steps, d)[j].fingerprint, units)
    requires var b := LogOf(steps, d)[j].fingerprint.bucket;
      b > 0 && b as real * d.spam.dropPct >= 100.0
    ensures LogOf(steps, d)[i].fingerprint != LogOf(steps, d)[j].fingerprint
  {
    hide *;
    var log := LogOf(steps, d);
    if log[i].fingerprint == log[j].fingerprint {
      var last := AllowedAfterLast(steps, d, j, i);
      PriceInBucketInLog(steps, d, j, units);
      PriceInBucketInLog(steps, d, last, units);
      PositiveInBucket(log[last].price, units, log[j].fingerprint.bucket);
      NoDropWithinBucket(log[last].price, log[j].price, units, log[j].fingerprint.bucket, d.spam.dropPct);
    }
  }
}
