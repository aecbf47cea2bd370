/** Where every alert comes from. */
module Provenance {
  import opened Models
  import opened Tables
  import opened RateLimit
  import opened Pipeline
  import opened Runs
  import opened AlertLog
  import Cascade
  import LlmQueue
  import Money
  import Prefilter
  import Thresholds

  /** An unrejected reading is admitted by the matrix, and multiplies out unless it is the language
      model's. */
  predicate Trustworthy(s: Spec, m: Matrix) {
    s.Qualified() ==> Cascade.MatrixAccepts(s, m) && (s.via != Llm ==> s.Coherent())
  }

  predicate AllTrustworthy(specs: map<SpecHash, Cached>, m: Matrix) {
    forall h :: h in specs ==> Trustworthy(specs[h].spec, m)
  }

  lemma UsedSpecIsTrustworthy(specs: map<SpecHash, Cached>, l: Listing, w: World, d: Deps)
    requires AllTrustworthy(specs, d.matrix) && d.policy.minConfidence > Cascade.INCOHERENT
    ensures Trustworthy(SpecFor(specs, l, d, true), d.matrix)
    ensures Trustworthy(VerifiedBasis(SpecFor(specs, l, d, true), w.hint, d), d.matrix)
  {
    Cascade.UnrejectedIsAccepted(l.price, l.text.scan, d.matrix, d.policy.minConfidence,
                                 if d.llmEnabled then Some(d.policy.ceiling) else None);
    Cascade.UnrejectedIsCoherent(l.price, l.text.scan, d.matrix, d.policy.minConfidence,
                                 if d.llmEnabled then Some(d.policy.ceiling) else None);
    hide Cascade.Run;
  }

  lemma DrainedSpecsAreTrustworthy(db: Db, lane: Lane, w: LlmQueue.LlmWorld, cfg: LlmQueue.Config)
    requires AllTrustworthy(db.specs, cfg.matrix)
    ensures AllTrustworthy(LlmQueue.Drain(db, lane, w, cfg).db.specs, cfg.matrix)
  {
    var hashes := LlmQueue.WithListing(db.listings, w.picked);
    var n := LlmQueue.MinNat(|hashes|, |w.answers|);
    var stored := LlmQueue.StoreAnswers(db.specs, hashes[..n], w.answers[..n], cfg);
    forall h | h in stored ensures Trustworthy(stored[h].spec, cfg.matrix) {
      LlmQueue.AnswerIsStored(db.specs, hashes[..n], w.answers[..n], cfg, h);
    }
  }

  lemma StepKeepsTrust(st: State, s: Step, d: Deps)
    requires AllTrustworthy(st.db.specs, d.matrix) && d.policy.minConfidence > Cascade.INCOHERENT
    ensures AllTrustworthy(Apply(st, s, d).db.specs, d.matrix)
  {
    match s
    case Collect(l, w, c) =>
      CollectSpecs(Settled(st), l, w, d, c);
      UsedSpecIsTrustworthy(st.db.specs, l, w, d);
      hide Attempted, SpecFor, VerifiedBasis, Trustworthy;
    case Drain(lane, w, remote) =>
      DrainedSpecsAreTrustworthy(st.db, lane, w, LlmQueue.Config(d.matrix, d.parserVersion, remote));
    case _ =>
  }

  lemma {:induction false} RunKeepsTrust(steps: seq<Step>, d: Deps)
    requires d.policy.minConfidence > Cascade.INCOHERENT
    ensures AllTrustworthy(Run(EMPTY, steps, d).db.specs, d.matrix)
  {
    hide Apply, Trustworthy;
    if steps != [] {
      RunKeepsTrust(steps[..|steps| - 1], d);
      StepKeepsTrust(Run(EMPTY, steps[..|steps| - 1], d), steps[|steps| - 1], d);
    }
  }

  /** Why step `s` on `db` was entitled to send `row`. */
  ghost predicate Justified(db: Db, s: Step, d: Deps, row: AlertRow) {
    && s.Collect?
    && var l, spec := s.listing, JudgedSpec(db, s.listing, s.world, d);
    && l.eligible && row.key == l.Key() && row.price == l.price && row.sentAt == s.cycle.now
    && Thresholds.IsBargain(l, spec, s.cycle.index, d.policy, s.cycle.now, s.cycle.observation)
    && Cascade.MatrixAccepts(spec, d.matrix) && (spec.via != Llm ==> spec.Coherent())
    && d.policy.floor <= row.eurPerGb < d.policy.ceiling
    && (!s.cycle.observation ==> s.cycle.index != [] && row.discount > d.policy.minDiscount)
    && (row.urgency == Quiet <==> l.saleType == Auction)
    && (row.urgency == Quiet || row.urgency == Immediate)
    && row.eurPerGb == Thresholds.RulePerGb(l, spec, d.policy)
    && row.discount == Thresholds.Discount(row.eurPerGb, Thresholds.Reference(spec, s.cycle.index))
  }

  lemma SentRowsAreJustified(db: Db, s: Step, d: Deps, row: AlertRow)
    requires SentBy(db, s, d, row) && AllTrustworthy(db.specs, d.matrix) && d.policy.minConfidence > Cascade.INCOHERENT
    ensures Justified(db, s, d, row)
  {
    var l, spec := s.listing, JudgedSpec(db, s.listing, s.world, d);
    SentByFacts(db, s, d, row);
    CollectAlerts(db, l, s.world, d, s.cycle);
    UsedSpecIsTrustworthy(db.specs, l, s.world, d);
    var v := Thresholds.Evaluate(l, spec, s.cycle.index, d.policy, s.cycle.now, s.cycle.observation);
    assert v.IsDeal? && v.deal == AlertedDeal(db, l, s.world, d, s.cycle).value;
    Thresholds.DealsPass(l, spec, s.cycle.index, d.policy, s.cycle.now, s.cycle.observation);
    Thresholds.DealExactly(l, spec, s.cycle.index, d.policy, s.cycle.now, s.cycle.observation);
    Thresholds.DealCost(l, spec, s.cycle.index, d.policy, s.cycle.now, s.cycle.observation);
    Thresholds.DealReference(l, spec, s.cycle.index, d.policy, s.cycle.now, s.cycle.observation);
    hide Thresholds.Evaluate, Thresholds.IsBargain, Thresholds.LotPrice, Money.EurPerGb, JudgedSpec, AlertedDeal, Attempted;
  }

  /** Every alerts row in every reachable state comes from an eligible listing and an unrejected
      specification with a known basis (or the language model's), with the price per gigabyte
      between floor and ceiling, the total at least the minimum, the discount above the barrier
      outside observation mode, auctions only inside the end window; and on the other path
      capacity times count is the total. */
  lemma EveryAlertIsJustified(steps: seq<Step>, d: Deps, i: nat) returns (k: nat)
    requires d.policy.minConfidence > Cascade.INCOHERENT
    requires i < |LogOf(steps, d)|
    ensures k < |steps| && Justified(TablesAt(EMPTY, steps, d, k), steps[k], d, LogOf(steps, d)[i])
  {
    hide Apply, AlertedDeal, Justified, SentBy, Trustworthy;
    RecordedRowsSettle(Run(EMPTY, steps, d));
    k := SentByCollection(EMPTY, steps, d, i);
    RunKeepsTrust(steps[..k], d);
    SentRowsAreJustified(TablesAt(EMPTY, steps, d, k), steps[k], d, LogOf(steps, d)[i]);
  }

  // What a hint about the quantity means for the rows.

  /** The row's price per gigabyte is that of `units` displayed prices over the reading's total. */
  ghost predicate IsPricedBy(db: Db, s: Step, d: Deps, row: AlertRow, units: int)
    requires s.Collect?
  {
    var eur := Money.ToEur(s.listing.price, s.listing.currency, d.policy.rates);
    var total := JudgedSpec(db, s.listing, s.world, d).total;
    eur.Some? && total.Some? && total.value > 0
    && row.eurPerGb == Prefilter.CostAt(s.listing, eur.value, units, total.value, d.policy)
  }

  /** With verification on and a qualified reading of several modules: several copies on offer price
      the row by all its modules, a real lot by the displayed price, unless the reading already
      went by the unit. */
  ghost predicate IsPricedByHint(db: Db, s: Step, d: Deps, row: AlertRow) {
    && s.Collect?
    && var read := SpecFor(db.specs, s.listing, d, true);
    d.verifyQuantity && read.count > 1 && s.world.hint.Some? ==>
      && (s.world.hint.value.lotSize <= 1 && s.world.hint.value.available >= 2 ==> IsPricedBy(db, s, d, row, read.count))
      && (s.world.hint.value.lotSize >= 2 && read.basis != Unit ==> IsPricedBy(db, s, d, row, 1))
  }

  lemma HintSettlesUnits(db: Db, s: Step, d: Deps)
    requires s.Collect?
    ensures var read, spec := SpecFor(db.specs, s.listing, d, true), JudgedSpec(db, s.listing, s.world, d);
      d.verifyQuantity && read.count > 1 && s.world.hint.Some? && spec.Qualified() ==>
        && (s.world.hint.value.lotSize <= 1 && s.world.hint.value.available >= 2 ==> Thresholds.UnitsPaid(spec) == read.count)
        && (s.world.hint.value.lotSize >= 2 && read.basis != Unit ==> Thresholds.UnitsPaid(spec) == 1)
  {
    hide SpecFor;
  }

  lemma SentRowsArePricedByHint(db: Db, s: Step, d: Deps, row: AlertRow)
    requires SentBy(db, s, d, row)
    ensures IsPricedByHint(db, s, d, row)
  {
    var l, spec := s.listing, JudgedSpec(db, s.listing, s.world, d);
    CollectAlerts(db, l, s.world, d, s.cycle);
    Thresholds.DealExactly(l, spec, s.cycle.index, d.policy, s.cycle.now, s.cycle.observation);
    Thresholds.DealCost(l, spec, s.cycle.index, d.policy, s.cycle.now, s.cycle.observation);
    var eur := Money.ToEur(l.price, l.currency, d.policy.rates).value;
    Prefilter.RulesAreCosts(l, eur, spec, d.policy);
    HintSettlesUnits(db, s, d);
    hide Thresholds.Evaluate, Thresholds.IsBargain, Thresholds.LotPrice, Thresholds.RulePerGb, Prefilter.CostAt,
         Money.EurPerGb, JudgedSpec, SpecFor, Attempted;
  }

  /** So every row of every run. */
  lemma EveryAlertIsPricedByHint(steps: seq<Step>, d: Deps, i: nat) returns (k: nat)
    requires i < |LogOf(steps, d)|
    ensures k < |steps| && IsPricedByHint(TablesAt(EMPTY, steps, d, k), steps[k], d, LogOf(steps, d)[i])
  {
    hide Apply, AlertedDeal, IsPricedByHint, SentBy;
    RecordedRowsSettle(Run(EMPTY, steps, d));
    k := SentByCollection(EMPTY, steps, d, i);
    SentRowsArePricedByHint(TablesAt(EMPTY, steps, d, k), steps[k], d, LogOf(steps, d)[i]);
  }

  // Texts with a rejecting keyword.

  /** Texts of one hash agree on whether they contain one. */
  ghost predicate KeywordsAgree(world: iset<Text>) {
    forall t, u :: t in world && u in world && t.normalized == u.normalized ==>
      (t.scan.keyword.None? <==> u.scan.keyword.None?)
  }

  ghost predicate TextsFrom(steps: seq<Step>, world: iset<Text>) {
    forall i :: 0 <= i < |steps| && steps[i].Collect? ==> steps[i].listing.text in world
  }

  predicate IsOwnVerdict(s: Spec) { s.via != Llm && s.Qualified() }

  /** An unrejected cached reading, not the language model's, is of texts without a keyword. */
  ghost predicate KeywordsAreRejected(specs: map<SpecHash, Cached>, world: iset<Text>) {
    forall t :: t in world && t.normalized in specs && IsOwnVerdict(specs[t.normalized].spec) ==> t.scan.keyword.None?
  }

  lemma UsedSpecHasNoKeyword(specs: map<SpecHash, Cached>, l: Listing, w: World, d: Deps, world: iset<Text>)
    requires KeywordsAreRejected(specs, world) && l.text in world
    ensures var read := SpecFor(specs, l, d, true);
      read.via != Llm && read.Qualified() ==> l.text.scan.keyword.None?
    ensures var read, judged := SpecFor(specs, l, d, true), VerifiedBasis(SpecFor(specs, l, d, true), w.hint, d);
      judged.via == read.via && judged.reject == read.reject
  {
    Cascade.UnrejectedIsAccepted(l.price, l.text.scan, d.matrix, d.policy.minConfidence,
                                 if d.llmEnabled then Some(d.policy.ceiling) else None);
    hide Cascade.Run;
  }

  lemma StepRejectsKeywords(st: State, s: Step, d: Deps, world: iset<Text>)
    requires KeywordsAgree(world) && KeywordsAreRejected(st.db.specs, world)
    requires s.Collect? ==> s.listing.text in world
    ensures KeywordsAreRejected(Apply(st, s, d).db.specs, world)
  {
    match s
    case Collect(l, w, c) =>
      CollectSpecs(Settled(st), l, w, d, c);
      UsedSpecHasNoKeyword(st.db.specs, l, w, d, world);
      hide Attempted, SpecFor, VerifiedBasis;
    case Drain(lane, w, remote) =>
      var cfg := LlmQueue.Config(d.matrix, d.parserVersion, remote);
      var hashes := LlmQueue.WithListing(st.db.listings, w.picked);
      var n := LlmQueue.MinNat(|hashes|, |w.answers|);
      forall h ensures
        var after := LlmQueue.StoreAnswers(st.db.specs, hashes[..n], w.answers[..n], cfg);
        h in after ==> after[h].spec.via == Llm || (h in st.db.specs && after[h] == st.db.specs[h])
      {
        LlmQueue.AnswerIsStored(st.db.specs, hashes[..n], w.answers[..n], cfg, h);
      }
    case _ =>
  }

  lemma EmptyRejectsKeywords(world: iset<Text>)
    ensures KeywordsAreRejected(EMPTY.db.specs, world)
  {
  }

  lemma {:induction false} RunRejectsKeywords(steps: seq<Step>, d: Deps, world: iset<Text>)
    requires KeywordsAgree(world) && TextsFrom(steps, world)
    ensures KeywordsAreRejected(Run(EMPTY, steps, d).db.specs, world)
  {
    hide Apply, KeywordsAreRejected, KeywordsAgree;
    if steps == [] {
      EmptyRejectsKeywords(world);
    } else {
      RunRejectsKeywords(steps[..|steps| - 1], d, world);
      StepRejectsKeywords(Run(EMPTY, steps[..|steps| - 1], d), steps[|steps| - 1], d, world);
    }
  }

  lemma SentIsQualified(db: Db, s: Step, d: Deps, row: AlertRow)
    requires SentBy(db, s, d, row)
    ensures JudgedSpec(db, s.listing, s.world, d).Qualified()
  {
    var spec := JudgedSpec(db, s.listing, s.world, d);
    AlertedExactly(db, s.listing, s.world, d, s.cycle);
    hide AlertedDeal, JudgedSpec;
  }

  /** Over any run whose texts of one hash agree on their keyword, no alert comes from a text with one,
      unless the language model has vouched for it. */
  lemma KeywordTextsAreNotAlerted(steps: seq<Step>, d: Deps, world: iset<Text>, i: nat) returns (k: nat)
    requires KeywordsAgree(world) && TextsFrom(steps, world)
    requires i < |LogOf(steps, d)|
    ensures k < |steps| && SentBy(TablesAt(EMPTY, steps, d, k), steps[k], d, LogOf(steps, d)[i])
    ensures JudgedSpec(TablesAt(EMPTY, steps, d, k), steps[k].listing, steps[k].world, d).via == Llm
      || steps[k].listing.text.scan.keyword.None?
  {
    RecordedRowsSettle(Run(EMPTY, steps, d));
    hide Apply, AlertedDeal, Run, KeywordsAreRejected, KeywordsAgree;
    k := SentByCollection(EMPTY, steps, d, i);
    RunRejectsKeywords(steps[..k], d, world);
    UsedSpecHasNoKeyword(Run(EMPTY, steps[..k], d).db.specs, steps[k].listing, steps[k].world, d, world);
    SentIsQualified(TablesAt(EMPTY, steps, d, k), steps[k], d, LogOf(steps, d)[i]);
    hide VerifiedBasis, SpecFor;
  }
}
