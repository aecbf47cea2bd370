/** The specification cache: when it can be trusted to change nothing, how a cached price basis
    moves, and what it hides once prices enter the cascade. */
module SpecCache {
  import opened Models
  import opened Tables
  import opened RateLimit
  import opened Pipeline
  import opened Runs
  import Cascade
  import Deletion
  import LlmQueue
  import Prefilter
  import Thresholds

  /** A run with or without the cache, and the outcome of every collected listing. */
  datatype Trace = Trace(state: State, outcomes: seq<Outcome>)

  function TraceStep(t: Trace, s: Step, d: Deps, useCache: bool): Trace {
    match s
    case Collect(l, w, c) =>
      var a := Attempted(Settled(t.state), l, w, d, c, useCache);
      Trace(State(a.db, a.row), t.outcomes + [a.outcome])
    case _ => Trace(Apply(t.state, s, d), t.outcomes)
  }

  function TraceOf(steps: seq<Step>, d: Deps, useCache: bool): Trace {
    if steps == [] then Trace(EMPTY, [])
    else TraceStep(TraceOf(steps[..|steps| - 1], d, useCache), steps[|steps| - 1], d, useCache)
  }

  /** What of a listing the cascade reads. */
  datatype Offer = Offer(text: Text, price: real)

  function OfferOf(l: Listing): Offer { Offer(l.text, l.price) }

  function ReadingOf(o: Offer, d: Deps): Spec {
    Cascade.Run(o.price, o.text.scan, d.matrix, d.policy.minConfidence,
                if d.llmEnabled then Some(d.policy.ceiling) else None)
  }

  /** Offers whose texts normalise alike are read alike. */
  ghost predicate IsFaithful(world: iset<Offer>, d: Deps) {
    forall o, p :: o in world && p in world && o.text.normalized == p.text.normalized ==> ReadingOf(o, d) == ReadingOf(p, d)
  }

  /** Steps whose listings make offers of this world, and no drains, which overwrite readings. */
  ghost predicate Within(steps: seq<Step>, world: iset<Offer>) {
    forall i :: 0 <= i < |steps| ==> !steps[i].Drain? && (steps[i].Collect? ==> OfferOf(steps[i].listing) in world)
  }

  /** Every cached row is what the cascade says about each offer of the world with that hash. */
  ghost predicate CacheSpeaksFor(specs: map<SpecHash, Cached>, world: iset<Offer>, d: Deps) {
    forall o :: o in world && o.text.normalized in specs ==>
      specs[o.text.normalized] == Cached(ReadingOf(o, d), d.parserVersion)
  }

  lemma SameSpecEitherWay(specs: map<SpecHash, Cached>, l: Listing, world: iset<Offer>, d: Deps)
    requires OfferOf(l) in world && CacheSpeaksFor(specs, world, d)
    ensures SpecFor(specs, l, d, true) == SpecFor(specs, l, d, false) == ReadingOf(OfferOf(l), d)
    ensures SpecsAfter(specs, l, d, true) == SpecsAfter(specs, l, d, false)
         == specs[l.Hash() := Cached(ReadingOf(OfferOf(l), d), d.parserVersion)]
  {
    hide Cascade.Run;
    if l.Hash() in specs {
      assert OfferOf(l).text.normalized in specs;
      assert specs == specs[l.Hash() := specs[l.Hash()]];
    }
  }

  /** With verification off, judging a listing leaves the cache alone. */
  lemma JudgingKeepsSpecs(db: Db, l: Listing, w: World, d: Deps, c: Cycle, useCache: bool)
    requires !d.verifyQuantity
    ensures Attempted(db, l, w, d, c, useCache).db.specs ==
      if Unchanged(db, l, d) then db.specs else SpecsAfter(db.specs, l, d, useCache)
  {
    hide Thresholds.Evaluate, RunCascade, Enqueued, Sends, RowOf, PriceDropped;
  }

  lemma AttemptDependsOnSpecOnly(db: Db, l: Listing, w: World, d: Deps, c: Cycle)
    requires SpecFor(db.specs, l, d, true) == SpecFor(db.specs, l, d, false)
    requires SpecsAfter(db.specs, l, d, true) == SpecsAfter(db.specs, l, d, false)
    ensures Attempted(db, l, w, d, c, true) == Attempted(db, l, w, d, c, false)
  {
    hide Judge, SpecFor, SpecsAfter, Upsert, PriceDropped, Enqueued;
  }

  lemma StepIsTransparent(t: Trace, s: Step, world: iset<Offer>, d: Deps)
    requires !d.verifyQuantity
    requires IsFaithful(world, d) && CacheSpeaksFor(t.state.db.specs, world, d)
    requires !s.Drain? && (s.Collect? ==> OfferOf(s.listing) in world)
    ensures TraceStep(t, s, d, true) == TraceStep(t, s, d, false)
    ensures CacheSpeaksFor(TraceStep(t, s, d, true).state.db.specs, world, d)
  {
    if s.Collect? {
      var db := Settled(t.state);
      SameSpecEitherWay(db.specs, s.listing, world, d);
      AttemptDependsOnSpecOnly(db, s.listing, s.world, d, s.cycle);
      JudgingKeepsSpecs(db, s.listing, s.world, d, s.cycle, true);
      hide Attempted, ReadingOf, SpecFor, SpecsAfter, PriceDropped;
    }
  }

  /** With quantity verification off, the language model on or off, and offers whose texts
      normalise alike read alike, every run gives the same tables and outcomes as a pipeline that
      calls the cascade for every listing. */
  lemma {:induction false} CacheIsTransparent(steps: seq<Step>, world: iset<Offer>, d: Deps)
    requires !d.verifyQuantity && IsFaithful(world, d) && Within(steps, world)
    ensures TraceOf(steps, d, true) == TraceOf(steps, d, false)
    ensures CacheSpeaksFor(TraceOf(steps, d, true).state.db.specs, world, d)
  {
    hide TraceStep, ReadingOf, IsFaithful;
    if steps == [] {
    } else {
      var n := |steps| - 1;
      CacheIsTransparent(steps[..n], world, d);
      StepIsTransparent(TraceOf(steps[..n], d, true), steps[n], world, d);
    }
  }

  /** A listing that is only stored: enough to tell two readings apart. */
  function Probe(id: string, o: Offer): Listing {
    Listing("probe", id, o.text, o.price, "EUR", None, BuyNow, None, None, None, Marker, false)
  }

  lemma IneligibleIsStored(db: Db, l: Listing, w: World, d: Deps, c: Cycle, useCache: bool)
    requires !l.eligible && l.Key() !in db.listings
    ensures Attempted(db, l, w, d, c, useCache).db == Stored(db, l, d, c, useCache)
    ensures Attempted(db, l, w, d, c, useCache).row == None
  {
    hide Judge, RunCascade, PriceDropped;
  }

  /** The specification left behind by the second of two probes. */
  lemma AfterTwoProbes(o: Offer, p: Offer, d: Deps, c: Cycle, w: World, useCache: bool)
    requires o.text.normalized == p.text.normalized
    ensures var specs := TraceOf([Collect(Probe("a", o), w, c), Collect(Probe("b", p), w, c)], d, useCache).state.db.specs;
      o.text.normalized in specs
      && specs[o.text.normalized].spec == if useCache then ReadingOf(o, d) else ReadingOf(p, d)
  {
    var a, b := Probe("a", o), Probe("b", p);
    var first, second := Collect(a, w, c), Collect(b, w, c);
    assert [first, second][..1] == [first] && [first][..0] == [];
    hide Cascade.Run, Attempted;
    IneligibleIsStored(EMPTY.db, a, w, d, c, useCache);
    var stored := Stored(EMPTY.db, a, d, c, useCache);
    assert TraceOf([first], d, useCache).state == State(stored, None);
    IneligibleIsStored(stored, b, w, d, c, useCache);
  }

  lemma UnfaithfulPairIsVisible(o: Offer, p: Offer, world: iset<Offer>, d: Deps) returns (steps: seq<Step>)
    requires o in world && p in world
    requires o.text.normalized == p.text.normalized && ReadingOf(o, d) != ReadingOf(p, d)
    ensures Within(steps, world) && TraceOf(steps, d, true) != TraceOf(steps, d, false)
  {
    hide TraceOf, ReadingOf;
    var c, w := Cycle(0, [], true), World(None, false, false, 0);
    AfterTwoProbes(o, p, d, c, w, true);
    AfterTwoProbes(o, p, d, c, w, false);
    steps := [Collect(Probe("a", o), w, c), Collect(Probe("b", p), w, c)];
  }

  /** Exactly: the cache is transparent for every run over a world of offers if and only if offers
      whose texts normalise alike are read alike, with the language model on or off. */
  lemma TransparentExactlyWhenFaithful(world: iset<Offer>, d: Deps)
    requires !d.verifyQuantity
    ensures (forall steps :: Within(steps, world) ==> TraceOf(steps, d, true) == TraceOf(steps, d, false))
       <==> IsFaithful(world, d)
  {
    hide TraceOf, ReadingOf, Within;
    if IsFaithful(world, d) {
      forall steps | Within(steps, world) ensures TraceOf(steps, d, true) == TraceOf(steps, d, false) {
        CacheIsTransparent(steps, world, d);
      }
    } else {
      var o, p :| o in world && p in world && o.text.normalized == p.text.normalized && ReadingOf(o, d) != ReadingOf(p, d);
      var steps := UnfaithfulPairIsVisible(o, p, world, d);
    }
  }

  /** Two prices of one text are read alike exactly when the language model is off, or the text
      settles before the confidence gate, or the prefilter treats both prices alike. */
  lemma PricesAreReadAlike(text: Text, price: real, other: real, d: Deps)
    requires text.scan.keyword != Some(LowConfidence)
    ensures ReadingOf(Offer(text, price), d) == ReadingOf(Offer(text, other), d) <==>
      || !d.llmEnabled
      || Cascade.Extract(text.scan, d.matrix, d.policy.minConfidence).reject != Some(LowConfidence)
      || (Cascade.PrefilterRejects(price, text.scan, Some(d.policy.ceiling))
          <==> Cascade.PrefilterRejects(other, text.scan, Some(d.policy.ceiling)))
  {
    Cascade.CeilingTurnsLowConfidence(price, text.scan, d.matrix, d.policy.minConfidence, d.policy.ceiling);
    Cascade.CeilingTurnsLowConfidence(other, text.scan, d.matrix, d.policy.minConfidence, d.policy.ceiling);
    Cascade.WithoutCeilingPriceIsIrrelevant(price, text.scan, d.matrix, d.policy.minConfidence);
    Cascade.WithoutCeilingPriceIsIrrelevant(other, text.scan, d.matrix, d.policy.minConfidence);
    hide Cascade.Run, Cascade.Extract, Cascade.PrefilterRejects;
  }

  /** Such a pair: "RDIMM 16GB" at 33 and at 20 EUR under a ceiling of 2 and a gate at 0.80. */
  lemma TwoPricesReadApart(text: Text, d: Deps)
    requires text.scan == Prefilter.ONE_MODULE && d.llmEnabled && Cascade.Accepts(d.matrix, 16)
    requires d.policy.ceiling == 2.0
    ensures ReadingOf(Offer(text, 33.0), d).reject == Some(BestCaseAboveCeiling)
    ensures ReadingOf(Offer(text, 20.0), d).reject == Some(LowConfidence)
  {
    Cascade.OneModuleIsUncertain(33.0, d.matrix, d.policy.minConfidence, d.policy.ceiling);
    Cascade.OneModuleIsUncertain(20.0, d.matrix, d.policy.minConfidence, d.policy.ceiling);
    hide Cascade.Run;
  }

  // Quantity verification: the cached basis of a text only climbs.

  function Rank(b: PriceBasis): nat {
    match b case UnknownBasis => 0 case Lot => 1 case Unit => 2
  }

  /** The same reading, with the basis the same or further along. */
  predicate Climbs(s: Spec, t: Spec) {
    t.(basis := s.basis) == s && Rank(s.basis) <= Rank(t.basis)
  }

  /** Rows of the running parser only. */
  predicate Current(specs: map<SpecHash, Cached>, d: Deps) {
    forall h :: h in specs ==> specs[h].version >= d.parserVersion
  }

  lemma VerificationClimbs(s: Spec, hint: Option<Hint>, d: Deps)
    ensures Climbs(s, VerifiedBasis(s, hint, d))
  {
  }

  lemma StepClimbs(st: State, s: Step, d: Deps, h: SpecHash)
    requires !s.Drain? && Current(st.db.specs, d)
    ensures var before, after := st.db.specs, Apply(st, s, d).db.specs;
      && Current(after, d)
      && (h in before ==> h in after && Climbs(before[h].spec, after[h].spec))
  {
    match s
    case Collect(l, w, c) =>
      CollectSpecs(Settled(st), l, w, d, c);
      VerificationClimbs(SpecFor(st.db.specs, l, d, true), w.hint, d);
      hide Attempted, VerifiedBasis, RunCascade;
    case _ =>
  }

  lemma {:induction false} CacheStaysCurrent(steps: seq<Step>, d: Deps)
    requires forall i :: 0 <= i < |steps| ==> !steps[i].Drain?
    ensures Current(Run(EMPTY, steps, d).db.specs, d)
  {
    hide Apply;
    if steps != [] {
      var n := |steps| - 1;
      CacheStaysCurrent(steps[..n], d);
      StepClimbs(Run(EMPTY, steps[..n], d), steps[n], d, "");
    }
  }

  /** Without drains, the cached basis of a text moves only along UNKNOWN, LOT, UNIT between any
      two moments of a run, and nothing else of its specification ever changes. */
  lemma {:induction false} CachedBasisOnlyClimbs(steps: seq<Step>, d: Deps, m: nat, h: SpecHash)
    requires m <= |steps| && forall i :: 0 <= i < |steps| ==> !steps[i].Drain?
    requires h in Run(EMPTY, steps[..m], d).db.specs
    ensures var early, late := Run(EMPTY, steps[..m], d).db.specs[h].spec, Run(EMPTY, steps, d).db.specs;
      h in late && Climbs(early, late[h].spec)
    ensures Current(Run(EMPTY, steps, d).db.specs, d)
  {
    hide Apply;
    CacheStaysCurrent(steps, d);
    if m == |steps| {
      assert steps[..m] == steps;
    } else {
      var n := |steps| - 1;
      PrefixOfPrefix(steps, m, n);
      CachedBasisOnlyClimbs(steps[..n], d, m, h);
      StepClimbs(Run(EMPTY, steps[..n], d), steps[n], d, h);
    }
  }

  // The language model on: a rejection that depends on a price is cached by text alone.

  lemma SettledByReject(db: Db, l: Listing, w: World, d: Deps, c: Cycle)
    requires l.Key() !in db.listings && l.eligible && d.llmEnabled && SpecFor(db.specs, l, d, true).reject.Some?
    ensures var a := Attempted(db, l, w, d, c, true);
      && a.row == None
      && a.db.queue == if SpecFor(db.specs, l, d, true).reject == Some(LowConfidence) then Enqueued(db.queue, l, d) else db.queue
  {
    hide RunCascade, Enqueued, Sends, RowOf, PriceDropped, SpecsAfter;
  }

  lemma FirstIsStored(l: Listing, w: World, d: Deps, c: Cycle)
    requires d.llmEnabled && RunCascade(l, d).reject.Some?
    ensures var a := Attempted(EMPTY.db, l, w, d, c, true);
      && a.row == None
      && a.db.specs == map[l.Hash() := Cached(RunCascade(l, d), d.parserVersion)]
      && a.db.listings.Keys == {l.Key()}
      && (a.db.queue != map[] ==> RunCascade(l, d).reject == Some(LowConfidence))
  {
    hide RunCascade, Enqueued, Sends, RowOf, PriceDropped;
  }

  lemma FirstIsCached(l: Listing, w: World, d: Deps, c: Cycle)
    requires d.llmEnabled && RunCascade(l, d).reject.Some?
    ensures var st := Run(EMPTY, [Collect(l, w, c)], d);
      && st.flight == None
      && st.db.specs == map[l.Hash() := Cached(RunCascade(l, d), d.parserVersion)]
      && st.db.listings.Keys == {l.Key()}
      && (st.db.queue != map[] ==> RunCascade(l, d).reject == Some(LowConfidence))
  {
    var s := Collect(l, w, c);
    FirstIsStored(l, w, d, c);
    hide RunCascade, Attempted;
    assert [s][..0] == [] && Run(EMPTY, [], d) == EMPTY;
  }

  /** Two listings of one text, the second one ambiguous: whatever its own price, it is queued for
      the language model if and only if the prefilter did not reject the first one for its price;
      otherwise it is dropped without an alert however cheap it is. */
  lemma TwinIsQueuedExactly(first: Listing, twin: Listing, w: World, d: Deps, c: Cycle)
    requires d.llmEnabled && twin.eligible && first.text == twin.text && first.Key() != twin.Key()
    requires RunCascade(twin, d).reject == Some(LowConfidence)
    requires first.text.scan.keyword != Some(LowConfidence)
    ensures var db := Settled(Run(EMPTY, [Collect(first, w, c)], d)); var a := Attempted(db, twin, w, d, c, true);
      && (twin.Hash() in a.db.queue <==>
            !Cascade.PrefilterRejects(first.price, first.text.scan, Some(d.policy.ceiling)))
      && a.row == None
  {
    Cascade.CeilingTurnsLowConfidence(first.price, first.text.scan, d.matrix, d.policy.minConfidence, d.policy.ceiling);
    Cascade.CeilingTurnsLowConfidence(twin.price, first.text.scan, d.matrix, d.policy.minConfidence, d.policy.ceiling);
    hide Cascade.Run, Cascade.Extract, Cascade.PrefilterRejects, Attempted, Prefilter.BestCase;
    FirstIsCached(first, w, d, c);
    SettledByReject(Run(EMPTY, [Collect(first, w, c)], d).db, twin, w, d, c);
  }
}
