/** References between the tables and the counters of a cycle. */
module References {
  import opened Models
  import opened Tables
  import opened RateLimit
  import opened Pipeline
  import opened Runs
  import AlertLog
  import LlmQueue
  import Thresholds

  /** Every listing and every queued hash has its specification row; every alert its listing. */
  predicate Intact(db: Db) {
    && (forall k :: k in db.listings ==> db.listings[k].hash in db.specs)
    && (forall h :: h in db.queue ==> h in db.specs)
    && (forall i :: 0 <= i < |db.alerts| ==> db.alerts[i].key in db.listings)
  }

  /** Also the alert in flight has its listing. */
  predicate IntactState(st: State) { Intact(Settled(st)) }

  lemma CollectKeepsIntact(db: Db, l: Listing, w: World, d: Deps, c: Cycle)
    requires Intact(db)
    ensures var a := Attempted(db, l, w, d, c, true); Intact(Recorded(a.db, a.row))
  {
    CollectListings(db, l, w, d, c);
    CollectSpecs(db, l, w, d, c);
    CollectQueue(db, l, w, d, c);
    CollectAlerts(db, l, w, d, c);
    hide Attempted, AlertedDeal, SpecFor, JudgedSpec;
  }

  lemma DrainKeepsIntact(db: Db, lane: Lane, w: LlmQueue.LlmWorld, cfg: LlmQueue.Config)
    requires Intact(db)
    ensures Intact(LlmQueue.Drain(db, lane, w, cfg).db)
  {
    var hashes := LlmQueue.WithListing(db.listings, w.picked);
    var n := LlmQueue.MinNat(|hashes|, |w.answers|);
    forall h | h in db.specs ensures h in LlmQueue.StoreAnswers(db.specs, hashes[..n], w.answers[..n], cfg) {
      LlmQueue.AnswerIsStored(db.specs, hashes[..n], w.answers[..n], cfg, h);
    }
  }

  lemma DrainStepKeepsIntact(st: State, s: Step, d: Deps)
    requires IntactState(st) && s.Drain?
    ensures IntactState(Apply(st, s, d))
  {
    AlertLog.RecordedRowsSettle(st);
    DrainKeepsIntact(st.db, s.lane, s.llm, LlmQueue.Config(d.matrix, d.parserVersion, s.remoteFallback));
    hide LlmQueue.StoreAnswers;
  }

  lemma FeedbackKeepsIntact(st: State, rows: seq<AlertRow>)
    requires IntactState(st) && |rows| == |st.db.alerts|
    requires forall i :: 0 <= i < |rows| ==> SameAlert(st.db.alerts[i], rows[i])
    ensures IntactState(st.(db := st.db.(alerts := rows)))
  {
    var before, after := Settled(st).alerts, Settled(st.(db := st.db.(alerts := rows))).alerts;
    forall i | 0 <= i < |after| ensures after[i].key == before[i].key {
      if i < |rows| { assert SameAlert(st.db.alerts[i], rows[i]); }
    }
  }

  lemma StepKeepsIntact(st: State, s: Step, d: Deps)
    requires IntactState(st)
    ensures IntactState(Apply(st, s, d))
  {
    match s
    case Collect(l, w, c) => CollectKeepsIntact(Settled(st), l, w, d, c); hide Attempted;
    case Drain(lane, w, remote) => DrainStepKeepsIntact(st, s, d); hide Intact;
    case MuteFor(fp, at) => FeedbackKeepsIntact(st, MuteRows(st.db.alerts, fp, at));
    case Buy(fp) => FeedbackKeepsIntact(st, BoughtRows(st.db.alerts, fp));
    case Crash => AlertLog.RecordedRowsSettle(st);
    case Record =>
    case Delete(id, username) =>
  }

  lemma {:induction false} RunKeepsIntact(st: State, steps: seq<Step>, d: Deps)
    requires IntactState(st)
    ensures IntactState(Run(st, steps, d)) && Intact(Run(st, steps, d).db)
  {
    hide Apply;
    if steps != [] {
      RunKeepsIntact(st, steps[..|steps| - 1], d);
      StepKeepsIntact(Run(st, steps[..|steps| - 1], d), steps[|steps| - 1], d);
    }
    AlertLog.RecordedRowsSettle(Run(st, steps, d));
  }

  lemma RaisedIsNotAlerted(db: Db, l: Listing, w: World, d: Deps, c: Cycle)
    ensures var o := Handle(db, l, w, d, c, true).1; o.raised ==> !o.alerted
  {
    hide Thresholds.Evaluate, RunCascade, VerifiedBasis, Enqueued, Sends, RowOf, PriceDropped;
  }

  lemma OneListingCounts(db: Db, l: Listing, w: World, d: Deps, c: Cycle)
    ensures var (after, o) := Handle(db, l, w, d, c, true);
      && |after.listings| == |db.listings| + (if l.Key() in db.listings then 0 else 1)
      && (!o.raised ==> (o.isNew <==> l.Key() !in db.listings))
      && |after.alerts| == |db.alerts| + (if o.alerted then 1 else 0)
      && (o.raised ==> !o.alerted)
  {
    CollectListings(db, l, w, d, c);
    CollectAlerts(db, l, w, d, c);
    RaisedIsNotAlerted(db, l, w, d, c);
    var after := Handle(db, l, w, d, c, true).0;
    hide Attempted, AlertedDeal;
    assert after.listings.Keys == db.listings.Keys + {l.Key()};
    assert |db.listings| == |db.listings.Keys| && |after.listings| == |after.listings.Keys|;
  }

  /** A completed cycle's `new_count` and `alerted` are the growth of the two tables, duplicates
      inside the batch included; a cycle cut short by a missing rate has lost at most the listing
      it stopped on, and never an alert. */
  lemma {:induction false} CountsAreGrowth(db: Db, batch: Batch, d: Deps, c: Cycle)
    ensures var (after, r) := ProcessAll(db, batch, d, c);
      && |after.alerts| == |db.alerts| + r.alerted
      && |db.listings| + r.newCount <= |after.listings| <= |db.listings| + r.newCount + (if r.aborted then 1 else 0)
  {
    hide Handle;
    if batch != [] {
      var n := |batch| - 1;
      CountsAreGrowth(db, batch[..n], d, c);
      var (before, r) := ProcessAll(db, batch[..n], d, c);
      if !r.aborted {
        OneListingCounts(before, batch[n].0, batch[n].1, d, c);
      }
    }
  }

  /** The steps of a batch nobody interrupts. */
  function StepsOf(batch: Batch, c: Cycle): seq<Step> {
    if batch == [] then []
    else
      var (l, w) := batch[|batch| - 1];
      StepsOf(batch[..|batch| - 1], c) + [Collect(l, w, c), Record]
  }

  lemma TwoMoreSteps(st: State, steps: seq<Step>, s: Step, t: Step, d: Deps)
    ensures Run(st, steps + [s, t], d) == Apply(Apply(Run(st, steps, d), s, d), t, d)
  {
    hide Apply;
    assert (steps + [s, t])[..|steps| + 1] == steps + [s];
    assert (steps + [s])[..|steps|] == steps;
  }

  /** A batch, aborted or not, is a run of collection steps, each recorded at once, over a prefix
      of it. */
  lemma {:induction false} BatchIsRun(db: Db, batch: Batch, d: Deps, c: Cycle) returns (n: nat)
    ensures n <= |batch| && (!ProcessAll(db, batch, d, c).1.aborted ==> n == |batch|)
    ensures Run(State(db, None), StepsOf(batch[..n], c), d) == State(ProcessAll(db, batch, d, c).0, None)
  {
    hide Handle, Apply;
    if batch == [] {
      n := 0;
    } else {
      var m := |batch| - 1;
      n := BatchIsRun(db, batch[..m], d, c);
      assert batch[..m][..n] == batch[..n];
      if !ProcessAll(db, batch[..m], d, c).1.aborted {
        n := m + 1;
        assert batch[..n] == batch;
        TwoMoreSteps(State(db, None), StepsOf(batch[..m], c), Collect(batch[m].0, batch[m].1, c), Record, d);
        CollectThenRecord(ProcessAll(db, batch[..m], d, c).0, batch[m].0, batch[m].1, d, c);
      }
    }
  }

  /** Whole cycles keep the references intact, aborted ones too. */
  lemma CycleKeepsIntact(db: Db, batch: Batch, d: Deps, c: Cycle)
    requires Intact(db)
    ensures Intact(ProcessAll(db, batch, d, c).0)
  {
    hide ProcessAll, Run, Intact;
    var n := BatchIsRun(db, batch, d, c);
    RunKeepsIntact(State(db, None), StepsOf(batch[..n], c), d);
  }

  lemma NothingToRaise(db: Db, l: Listing, w: World, d: Deps, c: Cycle)
    requires l.currency == "EUR" || l.currency in d.policy.rates
    ensures !Handle(db, l, w, d, c, true).1.raised
  {
    Thresholds.RaisesExactlyOnMissingRate(l, JudgedSpec(db, l, w, d), c.index, d.policy, c.now, c.observation);
    hide Thresholds.Evaluate, RunCascade, VerifiedBasis, Enqueued, Sends, RowOf, PriceDropped;
  }

  /** A cycle over listings whose currencies have rates is never cut short, so its counters are
      exactly the growth of the tables. */
  lemma {:induction false} ConvertibleCycleCompletes(db: Db, batch: Batch, d: Deps, c: Cycle)
    requires forall i :: 0 <= i < |batch| ==> batch[i].0.currency == "EUR" || batch[i].0.currency in d.policy.rates
    ensures var (after, r) := ProcessAll(db, batch, d, c);
      && !r.aborted
      && |after.alerts| == |db.alerts| + r.alerted && |after.listings| == |db.listings| + r.newCount
  {
    hide Handle;
    if batch != [] {
      var n := |batch| - 1;
      ConvertibleCycleCompletes(db, batch[..n], d, c);
      NothingToRaise(ProcessAll(db, batch[..n], d, c).0, batch[n].0, batch[n].1, d, c);
    }
    CountsAreGrowth(db, batch, d, c);
  }

  // The upsert rewrites the hash of a row but not its text.

  predicate HashesMatchTexts(listings: map<Key, ListingRow>) {
    forall k :: k in listings ==> listings[k].hash == listings[k].text.normalized
  }

  /** Rows keep naming their own text exactly when the collected listing is unchanged, new, or
      still carries the text first stored. */
  lemma HashStaysWithText(db: Db, l: Listing, w: World, d: Deps, c: Cycle)
    requires HashesMatchTexts(db.listings)
    ensures HashesMatchTexts(Handle(db, l, w, d, c, true).0.listings) <==>
      Unchanged(db, l, d) || IsNew(l, db.listings) || db.listings[l.Key()].text.normalized == l.Hash()
  {
    CollectListings(db, l, w, d, c);
    var after := Handle(db, l, w, d, c, true).0.listings;
    hide Attempted, PriceDropped;
    assert l.Key() in after;
  }

  /** So a queued text loses its last listing row exactly when that row is re-evaluated under
      another text, and then no drain can resolve it. */
  lemma QueuedTextKeepsListing(db: Db, l: Listing, w: World, d: Deps, c: Cycle, h: SpecHash)
    requires LlmQueue.HasListing(db.listings, h)
    ensures LlmQueue.HasListing(Handle(db, l, w, d, c, true).0.listings, h) <==>
      || Unchanged(db, l, d) || l.Hash() == h
      || exists k :: k in db.listings && k != l.Key() && db.listings[k].hash == h
  {
    CollectListings(db, l, w, d, c);
    var after := Handle(db, l, w, d, c, true).0.listings;
    hide Attempted, PriceDropped;
    if k :| k in db.listings && k != l.Key() && db.listings[k].hash == h {
      assert after[k] == db.listings[k];
    }
    assert l.Key() in after;
    if Unchanged(db, l, d) {
      var k :| k in db.listings && db.listings[k].hash == h;
      assert after[k].hash == h;
    }
  }

  /** How many listings of a batch were looked at, did not raise, and read as not rejected. */
  function QualifiedIn(db: Db, batch: Batch, d: Deps, c: Cycle): nat {
    if batch == [] then 0
    else
      var n := |batch| - 1;
      var (before, r) := ProcessAll(db, batch[..n], d, c);
      QualifiedIn(db, batch[..n], d, c)
      + if !r.aborted && !Handle(before, batch[n].0, batch[n].1, d, c, true).1.raised
           && !Unchanged(before, batch[n].0, d) && SpecFor(before.specs, batch[n].0, d, true).Qualified() then 1 else 0
  }

  lemma OutcomeQualifies(db: Db, l: Listing, w: World, d: Deps, c: Cycle)
    ensures var o := Handle(db, l, w, d, c, true).1;
      && (o.qualified <==> !Unchanged(db, l, d) && SpecFor(db.specs, l, d, true).Qualified())
      && (o.alerted ==> o.qualified)
  {
    QualifiedExactly(db, l, w, d, c);
    CollectAlerts(db, l, w, d, c);
    AlertedExactly(db, l, w, d, c);
    VerifiedChangesBasisOnly(SpecFor(db.specs, l, d, true), w.hint, d);
    hide Attempted, AlertedDeal, SpecFor, VerifiedBasis, PriceDropped;
    LookExactly(db, l, d);
    hide Unchanged, IsWorthALook;
  }

  /** The third counter of a cycle: the qualified listings, among which are all the alerted ones. */
  lemma {:induction false} QualifiedIsCounted(db: Db, batch: Batch, d: Deps, c: Cycle)
    ensures ProcessAll(db, batch, d, c).1.qualified == QualifiedIn(db, batch, d, c)
    ensures ProcessAll(db, batch, d, c).1.alerted <= QualifiedIn(db, batch, d, c) <= |batch|
  {
    hide Handle, SpecFor, Unchanged;
    if batch != [] {
      var n := |batch| - 1;
      QualifiedIsCounted(db, batch[..n], d, c);
      OutcomeQualifies(ProcessAll(db, batch[..n], d, c).0, batch[n].0, batch[n].1, d, c);
    }
  }
}
