/** Whole runs: any interleaving of collected listings, mutes, purchases, account deletions and
    queue drains, and what a single step can do to each table. */
module Runs {
  import opened Models
  import opened Tables
  import opened RateLimit
  import opened Pipeline
  import Deletion
  import LlmQueue
  import Prefilter
  import Thresholds

  /** One collector goes from listing to listing; other processes write between its statements.
      Collecting ends with an accepted alert still on its way to the log. `Record` inserts it,
      `Crash` loses it, and the collector never starts on the next listing before inserting. */
  datatype Step =
    | Collect(listing: Listing, world: World, cycle: Cycle)
    | Record
    | Crash
    | MuteFor(fp: Fingerprint, at: int)
    | Buy(fp: Fingerprint)
    | Delete(id: string, username: string)
    | Drain(lane: Lane, llm: LlmQueue.LlmWorld, remoteFallback: bool)

  /** The tables, and the alert the notifier has accepted that is not in them yet. */
  datatype State = State(db: Db, flight: Option<AlertRow>)

  /** The tables once what is in flight is recorded: what the collector's next statement sees. */
  function Settled(st: State): Db { Recorded(st.db, st.flight) }

  function Apply(st: State, s: Step, d: Deps): State {
    match s
    case Collect(l, w, c) =>
      var a := Attempted(Settled(st), l, w, d, c, true);
      State(a.db, a.row)
    case Record => State(Settled(st), None)
    case Crash => State(st.db, None)
    case MuteFor(fp, at) => st.(db := st.db.(alerts := MuteRows(st.db.alerts, fp, at)))
    case Buy(fp) => st.(db := st.db.(alerts := BoughtRows(st.db.alerts, fp)))
    case Delete(id, username) => st.(db := Deletion.ProcessDeletion(st.db, id, username))
    case Drain(lane, w, remote) =>
      st.(db := LlmQueue.Drain(st.db, lane, w, LlmQueue.Config(d.matrix, d.parserVersion, remote)).db)
  }

  function Run(st: State, steps: seq<Step>, d: Deps): State {
    if steps == [] then st
    else Apply(Run(st, steps[..|steps| - 1], d), steps[|steps| - 1], d)
  }

  const EMPTY := State(Db(map[], map[], [], map[], []), None)

  /** A collection followed at once by its insert is a whole call of the collector. */
  lemma CollectThenRecord(db: Db, l: Listing, w: World, d: Deps, c: Cycle)
    ensures Apply(Apply(State(db, None), Collect(l, w, c), d), Record, d) == State(Handle(db, l, w, d, c, true).0, None)
  {
  }

  lemma PrefixOfPrefix(steps: seq<Step>, i: nat, j: nat)
    requires i <= j <= |steps|
    ensures steps[..j][..i] == steps[..i]
  {
  }

  /** The specification a collected listing is finally judged with. */
  function JudgedSpec(db: Db, l: Listing, w: World, d: Deps): Spec {
    VerifiedBasis(SpecFor(db.specs, l, d, true), w.hint, d)
  }

  /** The deal a collected listing is alerted for, if it is. */
  function AlertedDeal(db: Db, l: Listing, w: World, d: Deps, c: Cycle): Option<Deal> {
    if Unchanged(db, l, d) || !l.eligible
       || (SpecFor(db.specs, l, d, true).reject == Some(LowConfidence) && d.llmEnabled) then None
    else
      match Thresholds.Evaluate(l, JudgedSpec(db, l, w, d), c.index, d.policy, c.now, c.observation)
      case IsDeal(deal) => if Sends(db.alerts, deal, d, c.now, w) then Some(deal) else None
      case _ => None
  }

  lemma CollectAlerts(db: Db, l: Listing, w: World, d: Deps, c: Cycle)
    ensures var deal := AlertedDeal(db, l, w, d, c); var a := Attempted(db, l, w, d, c, true);
      && a.db.alerts == db.alerts
      && a.row == (if deal.Some? then Some(RowOf(deal.value, c.now)) else None)
      && a.outcome.alerted == deal.Some?
      && (deal.Some? ==> deal.value.listing == l && l.eligible && deal.value.spec == JudgedSpec(db, l, w, d))
  {
    hide Thresholds.Evaluate, RunCascade, VerifiedBasis, Enqueued, Sends, RowOf, PriceDropped;
    if AlertedDeal(db, l, w, d, c).Some? {
      Thresholds.DealsPass(l, JudgedSpec(db, l, w, d), c.index, d.policy, c.now, c.observation);
    }
  }

  /** An alert was allowed by the rate limiter as the log stood. */
  lemma AlertsAreAllowed(db: Db, l: Listing, w: World, d: Deps, c: Cycle)
    requires AlertedDeal(db, l, w, d, c).Some?
    ensures Decide(AlertedDeal(db, l, w, d, c).value, db.alerts, d.spam, c.now, w.pick).Allowed?
  {
  }

  lemma CollectListings(db: Db, l: Listing, w: World, d: Deps, c: Cycle)
    ensures var a := Attempted(db, l, w, d, c, true);
      && a.db.listings == (if Unchanged(db, l, d) then Touch(db.listings, l.Key(), c.now) else Upsert(db.listings, l, c.now))
      && a.db.events == db.events
      && a.outcome.isNew == (l.Key() !in db.listings)
  {
    hide Thresholds.Evaluate, RunCascade, VerifiedBasis, Enqueued, Sends, RowOf, PriceDropped;
  }

  /** Collecting a listing touches the specification of its own text only. */
  lemma CollectSpecs(db: Db, l: Listing, w: World, d: Deps, c: Cycle)
    ensures var after := Attempted(db, l, w, d, c, true).db;
      && (forall h :: h != l.Hash() ==> (h in after.specs <==> h in db.specs))
      && (forall h :: h != l.Hash() && h in db.specs ==> after.specs[h] == db.specs[h])
      && (l.Hash() in db.specs ==> l.Hash() in after.specs)
      && (!Unchanged(db, l, d) ==> l.Hash() in after.specs)
      && (l.Hash() in after.specs ==>
            || (l.Hash() in db.specs && after.specs[l.Hash()] == db.specs[l.Hash()])
            || after.specs[l.Hash()] == Cached(SpecFor(db.specs, l, d, true), d.parserVersion)
            || after.specs[l.Hash()] == Cached(JudgedSpec(db, l, w, d), d.parserVersion))
  {
    hide Thresholds.Evaluate, RunCascade, VerifiedBasis, Enqueued, Sends, RowOf, PriceDropped;
  }

  lemma CollectQueue(db: Db, l: Listing, w: World, d: Deps, c: Cycle)
    ensures var after := Attempted(db, l, w, d, c, true).db;
      after.queue == db.queue || (after.queue == Enqueued(db.queue, l, d) && l.Hash() in after.specs)
  {
    hide Thresholds.Evaluate, RunCascade, VerifiedBasis, Enqueued, Sends, RowOf, PriceDropped;
  }

  /** The listing is new, or its price fell by the required share of a positive stored one. */
  predicate IsWorthALook(db: Db, l: Listing, d: Deps) {
    l.Key() in db.listings ==>
      && db.listings[l.Key()].price > 0.0
      && l.price <= (1.0 - d.spam.dropPct / 100.0) * db.listings[l.Key()].price
  }

  lemma LookExactly(db: Db, l: Listing, d: Deps)
    ensures Unchanged(db, l, d) <==> !IsWorthALook(db, l, d)
  {
    if l.Key() in db.listings && db.listings[l.Key()].price > 0.0 {
      DropsEnoughMeans(db.listings[l.Key()].price, l.price, d.spam.dropPct);
    }
    hide DropsEnough;
  }

  /** The anti-spam rules let the deal that comes out pass. */
  predicate IsLetThrough(db: Db, l: Listing, w: World, d: Deps, c: Cycle) {
    var v := Thresholds.Evaluate(l, JudgedSpec(db, l, w, d), c.index, d.policy, c.now, c.observation);
    v.IsDeal? && MaySend(v.deal, db.alerts, d.spam, c.now, w.pick)
  }

  /** The whole pipeline as one condition: a collected listing is alerted if and only if it is new or
      cheaper by the required share; it is eligible and a bargain as judged; the anti-spam rules let
      it pass; and the notifier accepts one of two attempts. */
  lemma AlertedExactly(db: Db, l: Listing, w: World, d: Deps, c: Cycle)
    ensures AlertedDeal(db, l, w, d, c).Some? <==>
      && IsWorthALook(db, l, d) && l.eligible
      && Thresholds.IsBargain(l, JudgedSpec(db, l, w, d), c.index, d.policy, c.now, c.observation)
      && IsLetThrough(db, l, w, d, c)
      && (w.firstSend || w.secondSend)
  {
    var spec := JudgedSpec(db, l, w, d);
    var v := Thresholds.Evaluate(l, spec, c.index, d.policy, c.now, c.observation);
    LookExactly(db, l, d);
    Thresholds.DealExactly(l, spec, c.index, d.policy, c.now, c.observation);
    if v.IsDeal? {
      AllowedExactly(v.deal, db.alerts, d.spam, c.now, w.pick);
      Thresholds.DealsPass(l, spec, c.index, d.policy, c.now, c.observation);
    }
    hide Thresholds.Evaluate, Thresholds.IsBargain, Decide, MaySend, SpecFor, Unchanged, IsWorthALook;
  }

  /** The language model's queue: a call adds its text if and only if the model is on and the listing,
      new or cheaper and eligible, is of low confidence or implausibly cheap as judged. */
  lemma QueuedExactly(db: Db, l: Listing, w: World, d: Deps, c: Cycle)
    ensures var after := Attempted(db, l, w, d, c, true).db.queue;
      && (l.Hash() in after <==>
            || l.Hash() in db.queue
            || (d.llmEnabled && !Unchanged(db, l, d) && l.eligible
                && (SpecFor(db.specs, l, d, true).reject == Some(LowConfidence)
                    || Thresholds.IsImplausible(l, JudgedSpec(db, l, w, d), d.policy))))
      && (forall h :: h != l.Hash() ==> (h in after <==> h in db.queue))
      && (forall h :: h in db.queue ==> after[h] == db.queue[h])
  {
    var best := Prefilter.BestCase(l.price, l.text.scan);
    LlmQueue.EnqueueKeepsRows(db.queue, l.Hash(), LlmQueue.LaneFor(best, d.policy.ceiling, d.urgentMargin), best);
    Thresholds.FloorExactly(l, JudgedSpec(db, l, w, d), c.index, d.policy, c.now, c.observation);
    hide Thresholds.Evaluate, Thresholds.IsImplausible, RunCascade, Sends, RowOf, PriceDropped, LlmQueue.LaneFor,
         LlmQueue.Enqueue, Prefilter.BestCase;
  }

  /** A text newly queued carries its best case, in the urgent lane exactly when that stays under the
      ceiling by the margin, and no attempts. */
  lemma QueuedRowExactly(db: Db, l: Listing, w: World, d: Deps, c: Cycle)
    requires l.Hash() !in db.queue && l.Hash() in Attempted(db, l, w, d, c, true).db.queue && d.urgentMargin > 0.0
    ensures var row := Attempted(db, l, w, d, c, true).db.queue[l.Hash()];
      && row.bestCase == Prefilter.BestCase(l.price, l.text.scan) && row.attempts == 0
      && (row.lane == Urgent <==> row.bestCase.Some? && row.bestCase.value / d.urgentMargin < d.policy.ceiling)
  {
    CollectQueue(db, l, w, d, c);
    var best := Prefilter.BestCase(l.price, l.text.scan);
    LlmQueue.LaneExactly(best, d.policy.ceiling, d.urgentMargin);
    LlmQueue.EnqueueKeepsRows(db.queue, l.Hash(), LlmQueue.LaneFor(best, d.policy.ceiling, d.urgentMargin), best);
    hide Attempted, LlmQueue.LaneFor, LlmQueue.Enqueue, Prefilter.BestCase;
  }

  lemma UnchangedTouches(db: Db, l: Listing, w: World, d: Deps, c: Cycle)
    ensures Unchanged(db, l, d) ==>
      Attempted(db, l, w, d, c, true) ==
        Attempt(db.(listings := Touch(db.listings, l.Key(), c.now)), None, Outcome(false, false, false, false))
  {
    hide PriceDropped;
  }

  /** A listing that is neither new nor cheaper only has its last-seen instant moved; every other one
      leaves a row with its own price, hash and instant. */
  lemma CollectedRow(db: Db, l: Listing, w: World, d: Deps, c: Cycle)
    ensures var after := Attempted(db, l, w, d, c, true).db;
      && after.listings.Keys == db.listings.Keys + {l.Key()}
      && (forall k :: k in db.listings && k != l.Key() ==> after.listings[k] == db.listings[k])
      && after.listings[l.Key()].lastSeen == c.now
      && (if Unchanged(db, l, d) then
            && after == db.(listings := after.listings)
            && after.listings[l.Key()].(lastSeen := db.listings[l.Key()].lastSeen) == db.listings[l.Key()]
          else after.listings[l.Key()].price == l.price && after.listings[l.Key()].hash == l.Hash())
  {
    CollectListings(db, l, w, d, c);
    UnchangedTouches(db, l, w, d, c);
    hide Attempted, PriceDropped;
  }

  /** A listing counts as qualified when it was looked at and its reading, as first read, is not
      rejected. */
  lemma QualifiedExactly(db: Db, l: Listing, w: World, d: Deps, c: Cycle)
    ensures Attempted(db, l, w, d, c, true).outcome.qualified <==>
      !Unchanged(db, l, d) && SpecFor(db.specs, l, d, true).Qualified()
  {
    hide Thresholds.Evaluate, RunCascade, VerifiedBasis, Enqueued, Sends, RowOf, PriceDropped;
  }

  lemma SameOnceStored(db: Db, l: Listing, d: Deps)
    requires l.Hash() in db.specs && db.specs[l.Hash()].version < d.parserVersion
    ensures var without := db.specs - {l.Hash()};
      SpecFor(db.specs, l, d, true) == SpecFor(without, l, d, true)
      && SpecsAfter(db.specs, l, d, true) == SpecsAfter(without, l, d, true)
  {
    hide RunCascade;
  }

  lemma VerifiedChangesBasisOnly(s: Spec, hint: Option<Hint>, d: Deps)
    ensures VerifiedBasis(s, hint, d).(basis := s.basis) == s
  {
  }

  /** What a call leaves cached for its text: the reading as settled by the quantity if the listing was
      judged, else as first read, unless nothing was looked at. */
  lemma CachedExactly(db: Db, l: Listing, w: World, d: Deps, c: Cycle)
    requires !Unchanged(db, l, d)
    ensures var after, read := Attempted(db, l, w, d, c, true).db.specs, SpecFor(db.specs, l, d, true);
      && l.Hash() in after && after[l.Hash()].version >= d.parserVersion
      && after[l.Hash()].spec ==
           if l.eligible && !(d.llmEnabled && read.reject == Some(LowConfidence)) then JudgedSpec(db, l, w, d) else read
  {
    VerifiedChangesBasisOnly(SpecFor(db.specs, l, d, true), w.hint, d);
    hide Thresholds.Evaluate, RunCascade, VerifiedBasis, Enqueued, Sends, RowOf, PriceDropped;
  }

  /** A cached reading of the running parser or a later one is used as it is; an older one is as good
      as none, for whatever a call does. */
  lemma ParserVersionDecides(db: Db, l: Listing, w: World, d: Deps, c: Cycle)
    requires l.Hash() in db.specs
    ensures db.specs[l.Hash()].version >= d.parserVersion ==>
      SpecFor(db.specs, l, d, true) == db.specs[l.Hash()].spec
    ensures db.specs[l.Hash()].version < d.parserVersion && !Unchanged(db, l, d) ==>
      Attempted(db, l, w, d, c, true) == Attempted(db.(specs := db.specs - {l.Hash()}), l, w, d, c, true)
  {
    var without := db.specs - {l.Hash()};
    if db.specs[l.Hash()].version < d.parserVersion {
      SameOnceStored(db, l, d);
      hide RunCascade, PriceDropped, Judge, Enqueued, Upsert;
    }
  }

  /** The columns of an alert row that are written once. */
  predicate SameAlert(a: AlertRow, b: AlertRow) {
    a.(outcome := b.outcome, mutedUntil := b.mutedUntil) == b
  }

  /** The log only grows: by the alert in flight, when the collector records it. Feedback never
      rewrites what was sent. */
  lemma LogGrows(st: State, s: Step, d: Deps)
    ensures var before, after := st.db.alerts, Apply(st, s, d).db.alerts;
      && |before| <= |after| <= |before| + 1
      && (forall i :: 0 <= i < |before| ==> SameAlert(before[i], after[i]))
      && (s.Collect? || s.Record? ==> after == Settled(st).alerts)
      && (|after| > |before| ==> s.Collect? || s.Record?)
  {
    if s.Collect? {
      CollectAlerts(Settled(st), s.listing, s.world, d, s.cycle);
      hide Attempted;
    }
  }

  /** The log with its alert in flight gains a row exactly when a collection alerts a deal. */
  lemma FlightTakesOff(st: State, s: Step, d: Deps)
    ensures var before, after := Settled(st).alerts, Settled(Apply(st, s, d)).alerts;
      if s.Collect? then
        var deal := AlertedDeal(Settled(st), s.listing, s.world, d, s.cycle);
        after == if deal.Some? then before + [RowOf(deal.value, s.cycle.now)] else before
      else
        && |after| <= |before|
        && (!s.Crash? ==> |after| == |before|)
        && (forall i :: 0 <= i < |after| ==> SameAlert(before[i], after[i]))
  {
    if s.Collect? {
      CollectAlerts(Settled(st), s.listing, s.world, d, s.cycle);
      hide Attempted, AlertedDeal;
    }
  }
}
