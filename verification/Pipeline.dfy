/** The pipeline: one listing from arrival to alert, over the tables. `Handle` says what one call
    does to the tables; `HandleListing` is the call, updating them in place. */
module Pipeline {
  import opened Models
  import opened Tables
  import opened RateLimit
  import Cascade
  import LlmQueue
  import Money
  import Prefilter
  import Thresholds

  datatype Deps = Deps(
    policy: Policy,
    spam: SpamPolicy,
    matrix: Matrix,
    llmEnabled: bool,
    verifyQuantity: bool,
    parserVersion: int,
    urgentMargin: real)

  /** What a source says about the quantity behind one listing. */
  datatype Hint = Hint(lotSize: int, available: int)

  /** The world's answers while one listing is handled: the quantity hint if any, whether the
      notifier accepts the first and the second attempt, and the database's choice among alert
      rows of one instant. */
  datatype World = World(hint: Option<Hint>, firstSend: bool, secondSend: bool, pick: nat)

  /** Fixed for a whole cycle: the clock, the index, the observation mode. */
  datatype Cycle = Cycle(now: int, index: Index, observation: bool)

  /** `raised`: the `MoneyError` of a currency without a rate left the call. */
  datatype Outcome = Outcome(isNew: bool, qualified: bool, alerted: bool, raised: bool)

  function CachedSpec(specs: map<SpecHash, Cached>, hash: SpecHash, version: int): Option<Spec> {
    if hash in specs && specs[hash].version >= version then Some(specs[hash].spec) else None
  }

  /** The cascade as this configuration runs it. */
  function RunCascade(l: Listing, d: Deps): Spec {
    Cascade.Run(l.price, l.text.scan, d.matrix, d.policy.minConfidence,
                if d.llmEnabled then Some(d.policy.ceiling) else None)
  }

  /** The specification to use; a pipeline without the cache asks the cascade every time. */
  function SpecFor(specs: map<SpecHash, Cached>, l: Listing, d: Deps, useCache: bool): Spec {
    var cached := CachedSpec(specs, l.Hash(), d.parserVersion);
    if useCache && cached.Some? then cached.value else RunCascade(l, d)
  }

  function SpecsAfter(specs: map<SpecHash, Cached>, l: Listing, d: Deps, useCache: bool): map<SpecHash, Cached> {
    if useCache && CachedSpec(specs, l.Hash(), d.parserVersion).Some? then specs
    else specs[l.Hash() := Cached(RunCascade(l, d), d.parserVersion)]
  }

  /** Insert, or on conflict update price, shipping, bid, hash and last-seen only. */
  function Upsert(listings: map<Key, ListingRow>, l: Listing, now: int): map<Key, ListingRow> {
    listings[l.Key() :=
      if l.Key() in listings then
        listings[l.Key()].(price := l.price, shipping := l.shipping, currentBid := l.currentBid,
                           lastSeen := now, hash := l.Hash())
      else
        ListingRow(l.Hash(), l.text, l.price, l.currency, l.shipping, l.saleType, l.currentBid,
                   l.endsAt, l.seller, l.payload, now)]
  }

  function Touch(listings: map<Key, ListingRow>, key: Key, now: int): map<Key, ListingRow>
    requires key in listings
  {
    listings[key := listings[key].(lastSeen := now)]
  }

  /** A rules-qualified reading of several modules is settled by the source's own quantity. */
  function VerifiedBasis(s: Spec, hint: Option<Hint>, d: Deps): Spec {
    if !d.verifyQuantity || !s.Qualified() || s.count <= 1 || s.basis == Unit || hint.None? then s
    else if hint.value.lotSize <= 1 && hint.value.available >= 2 then s.(basis := Unit)
    else if hint.value.lotSize >= 2 then s.(basis := Lot)
    else s
  }

  /** What the source says about the quantity, for a qualified reading of several modules: several
      copies on offer make the displayed price one module's; a real lot leaves it the lot's, unless
      the text itself prices by the unit; anything else settles nothing. */
  lemma HintSettlesPrice(l: Listing, s: Spec, hint: Hint, eur: real, d: Deps)
    requires d.verifyQuantity && s.Qualified() && s.count > 1
    requires Money.ToEur(l.price, l.currency, d.policy.rates) == Some(eur)
    ensures var price := Thresholds.LotPrice(l, VerifiedBasis(s, Some(hint), d), d.policy.rates);
      && (hint.lotSize <= 1 && hint.available >= 2 ==> price == Some(Money.Times(eur, s.count)))
      && (hint.lotSize >= 2 && s.basis != Unit ==> price == Some(eur))
      && (s.basis == Unit ==> price == Some(Money.Times(eur, s.count)))
      && (hint.lotSize <= 1 && hint.available < 2 ==> price == Thresholds.LotPrice(l, s, d.policy.rates))
    ensures hint.lotSize >= 2 || (hint.lotSize <= 1 && hint.available >= 2) ==>
      VerifiedBasis(s, Some(hint), d).basis != UnknownBasis
  {
  }

  /** Without verification, a hint, or several modules, the reading stands. */
  lemma UnverifiedStands(s: Spec, hint: Option<Hint>, d: Deps)
    requires !d.verifyQuantity || hint.None? || s.count <= 1 || !s.Qualified()
    ensures VerifiedBasis(s, hint, d) == s
  {
  }

  function Enqueued(queue: map<SpecHash, QueueRow>, l: Listing, d: Deps): map<SpecHash, QueueRow> {
    var best := Prefilter.BestCase(l.price, l.text.scan);
    LlmQueue.Enqueue(queue, l.Hash(), LlmQueue.LaneFor(best, d.policy.ceiling, d.urgentMargin), best)
  }

  /** The right to send, then at most two attempts. */
  predicate Sends(alerts: seq<AlertRow>, deal: Deal, d: Deps, now: int, w: World) {
    Decide(deal, alerts, d.spam, now, w.pick).Allowed? && (w.firstSend || w.secondSend)
  }

  /** A call up to the point where an accepted alert is still to be logged: the tables so far, the
      row on its way, the outcome. */
  datatype Attempt = Attempt(db: Db, row: Option<AlertRow>, outcome: Outcome)

  /** The last statement of a call: the insert into the alert log. */
  function Recorded(db: Db, row: Option<AlertRow>): Db {
    if row.Some? then db.(alerts := db.alerts + [row.value]) else db
  }

  /** The part of a call after the listing's row is stored. */
  function Judge(db: Db, l: Listing, spec: Spec, w: World, d: Deps, c: Cycle, isFresh: bool): Attempt {
    var settled := VerifiedBasis(spec, w.hint, d);
    var db' := if settled.basis == spec.basis then db
               else db.(specs := db.specs[l.Hash() := Cached(settled, d.parserVersion)]);
    match Thresholds.Evaluate(l, settled, c.index, d.policy, c.now, c.observation)
    case MoneyError => Attempt(db', None, Outcome(isFresh, spec.Qualified(), false, true))
    case NoDeal(why) =>
      Attempt(if why == Thresholds.BelowFloor && d.llmEnabled then db'.(queue := Enqueued(db'.queue, l, d)) else db',
              None, Outcome(isFresh, spec.Qualified(), false, false))
    case IsDeal(deal) =>
      var sends := Sends(db'.alerts, deal, d, c.now, w);
      Attempt(db', if sends then Some(RowOf(deal, c.now)) else None,
              Outcome(isFresh, spec.Qualified(), sends, false))
  }

  predicate Unchanged(db: Db, l: Listing, d: Deps) {
    !IsNew(l, db.listings) && !PriceDropped(l, db.listings, d.spam.dropPct)
  }

  /** The tables once the specification and the row are stored. */
  function Stored(db: Db, l: Listing, d: Deps, c: Cycle, useCache: bool): Db {
    db.(specs := SpecsAfter(db.specs, l, d, useCache), listings := Upsert(db.listings, l, c.now))
  }

  function Attempted(db: Db, l: Listing, w: World, d: Deps, c: Cycle, useCache: bool): Attempt {
    if Unchanged(db, l, d) then
      Attempt(db.(listings := Touch(db.listings, l.Key(), c.now)), None, Outcome(false, false, false, false))
    else
      var isFresh := IsNew(l, db.listings);
      var spec := SpecFor(db.specs, l, d, useCache);
      var db' := Stored(db, l, d, c, useCache);
      if !l.eligible then Attempt(db', None, Outcome(isFresh, spec.Qualified(), false, false))
      else if spec.reject == Some(LowConfidence) && d.llmEnabled then
        Attempt(db'.(queue := Enqueued(db'.queue, l, d)), None, Outcome(isFresh, spec.Qualified(), false, false))
      else Judge(db', l, spec, w, d, c, isFresh)
  }

  /** A whole call, when no other process writes in between. */
  function Handle(db: Db, l: Listing, w: World, d: Deps, c: Cycle, useCache: bool): (Db, Outcome) {
    var a := Attempted(db, l, w, d, c, useCache);
    (Recorded(a.db, a.row), a.outcome)
  }

  method UpsertListing(conn: Conn, l: Listing, now: int)
    modifies conn`listings
    ensures conn.listings == Upsert(old(conn.listings), l, now)
    ensures conn.listings.Keys == old(conn.listings).Keys + {l.Key()}
    ensures forall k :: k in old(conn.listings) && k != l.Key() ==> conn.listings[k] == old(conn.listings)[k]
    ensures var row := conn.listings[l.Key()];
      && row.price == l.price && row.shipping == l.shipping && row.currentBid == l.currentBid
      && row.hash == l.Hash() && row.lastSeen == now
      && (l.Key() in old(conn.listings) ==>
            var was := old(conn.listings)[l.Key()];
            && row.seller == was.seller && row.payload == was.payload && row.text == was.text
            && row.currency == was.currency && row.saleType == was.saleType && row.endsAt == was.endsAt)
      && (l.Key() !in old(conn.listings) ==>
            && row.seller == l.seller && row.payload == l.payload && row.text == l.text
            && row.currency == l.currency && row.saleType == l.saleType && row.endsAt == l.endsAt)
  {
    if l.Key() in conn.listings {
      var row := conn.listings[l.Key()];
      conn.listings := conn.listings[l.Key() :=
        row.(price := l.price, shipping := l.shipping, currentBid := l.currentBid, lastSeen := now, hash := l.Hash())];
    } else {
      conn.listings := conn.listings[l.Key() :=
        ListingRow(l.Hash(), l.text, l.price, l.currency, l.shipping, l.saleType, l.currentBid,
                   l.endsAt, l.seller, l.payload, now)];
    }
  }

  method EnqueueForLlm(conn: Conn, l: Listing, d: Deps)
    modifies conn`queue
    ensures conn.queue == Enqueued(old(conn.queue), l, d)
  {
    var best := Prefilter.BestCase(l.price, l.text.scan);
    var lane := LlmQueue.LaneFor(best, d.policy.ceiling, d.urgentMargin);
    if l.Hash() !in conn.queue {
      conn.queue := conn.queue[l.Hash() := QueueRow(lane, best, 0)];
    }
  }

  method VerifyPriceBasis(conn: Conn, l: Listing, spec: Spec, w: World, d: Deps) returns (settled: Spec)
    modifies conn`specs
    ensures settled == VerifiedBasis(spec, w.hint, d)
    ensures conn.specs == if settled.basis == spec.basis then old(conn.specs)
                          else old(conn.specs)[l.Hash() := Cached(settled, d.parserVersion)]
  {
    settled := spec;
    if !d.verifyQuantity || !spec.Qualified() {
      return;
    }
    if spec.count <= 1 || spec.basis == Unit || w.hint.None? {
      return;
    }
    var resolved := spec.basis;
    if w.hint.value.lotSize <= 1 && w.hint.value.available >= 2 {
      resolved := Unit;
    } else if w.hint.value.lotSize >= 2 {
      resolved := Lot;
    } else {
      return;
    }
    if resolved == spec.basis {
      return;
    }
    settled := spec.(basis := resolved);
    conn.specs := conn.specs[l.Hash() := Cached(settled, d.parserVersion)];
  }

  method Send(conn: Conn, deal: Deal, d: Deps, now: int, w: World) returns (sent: bool)
    modifies conn`alerts
    ensures sent == Sends(old(conn.alerts), deal, d, now, w)
    ensures conn.alerts == if sent then old(conn.alerts) + [RowOf(deal, now)] else old(conn.alerts)
  {
    var decision := Decide(deal, conn.alerts, d.spam, now, w.pick);
    if !decision.Allowed? {
      return false;
    }
    sent := w.firstSend;
    if !sent {
      sent := w.secondSend;
    }
    if sent {
      conn.alerts := conn.alerts + [RowOf(deal, now)];
    }
  }

  method LookUpSpec(conn: Conn, l: Listing, d: Deps) returns (spec: Spec)
    modifies conn`specs
    ensures spec == SpecFor(old(conn.specs), l, d, true)
    ensures conn.specs == SpecsAfter(old(conn.specs), l, d, true)
  {
    var cached := CachedSpec(conn.specs, l.Hash(), d.parserVersion);
    if cached.None? {
      spec := RunCascade(l, d);
      conn.specs := conn.specs[l.Hash() := Cached(spec, d.parserVersion)];
    } else {
      spec := cached.value;
    }
  }

  method JudgeListing(conn: Conn, l: Listing, spec: Spec, w: World, d: Deps, c: Cycle, isFresh: bool) returns (out: Outcome)
    modifies conn
    ensures var a := Judge(old(conn.View()), l, spec, w, d, c, isFresh);
      conn.View() == Recorded(a.db, a.row) && out == a.outcome
  {
    out := Outcome(isFresh, spec.Qualified(), false, false);
    var settled := VerifyPriceBasis(conn, l, spec, w, d);
    var verdict := Thresholds.Evaluate(l, settled, c.index, d.policy, c.now, c.observation);
    match verdict
    case MoneyError =>
      out := out.(raised := true);
    case NoDeal(why) =>
      if why == Thresholds.BelowFloor && d.llmEnabled {
        EnqueueForLlm(conn, l, d);
      }
    case IsDeal(deal) =>
      var sent := Send(conn, deal, d, c.now, w);
      out := out.(alerted := sent);
  }

  method HandleListing(conn: Conn, l: Listing, w: World, d: Deps, c: Cycle) returns (out: Outcome)
    modifies conn
    ensures (conn.View(), out) == Handle(old(conn.View()), l, w, d, c, true)
  {
    var isFresh := IsNew(l, conn.listings);
    var dropped := !isFresh && PriceDropped(l, conn.listings, d.spam.dropPct);
    if !isFresh && !dropped {
      conn.listings := conn.listings[l.Key() := conn.listings[l.Key()].(lastSeen := c.now)];
      return Outcome(false, false, false, false);
    }
    var spec := LookUpSpec(conn, l, d);
    UpsertListing(conn, l, c.now);
    out := Outcome(isFresh, spec.Qualified(), false, false);
    if !l.eligible {
      return;
    }
    if spec.reject == Some(LowConfidence) && d.llmEnabled {
      EnqueueForLlm(conn, l, d);
      return;
    }
    out := JudgeListing(conn, l, spec, w, d, c, isFresh);
  }

  // A whole batch.

  /** Counters of one cycle; `aborted` when an exception ended it early. */
  datatype Report = Report(newCount: nat, qualified: nat, alerted: nat, aborted: bool)

  function Tally(r: Report, o: Outcome): Report {
    if o.raised then r.(aborted := true)
    else Report(r.newCount + (if o.isNew then 1 else 0),
                r.qualified + (if o.qualified then 1 else 0),
                r.alerted + (if o.alerted then 1 else 0), false)
  }

  type Batch = seq<(Listing, World)>

  function ProcessAll(db: Db, batch: Batch, d: Deps, c: Cycle): (Db, Report) {
    if batch == [] then (db, Report(0, 0, 0, false))
    else
      var (db', r) := ProcessAll(db, batch[..|batch| - 1], d, c);
      if r.aborted then (db', r)
      else
        var (l, w) := batch[|batch| - 1];
        var (db'', o) := Handle(db', l, w, d, c, true);
        (db'', Tally(r, o))
  }

  lemma {:induction false} AbortIsFinal(db: Db, batch: Batch, n: nat, d: Deps, c: Cycle)
    requires n <= |batch| && ProcessAll(db, batch[..n], d, c).1.aborted
    ensures ProcessAll(db, batch, d, c) == ProcessAll(db, batch[..n], d, c)
  {
    if n == |batch| {
      assert batch[..n] == batch;
    } else {
      assert batch[..|batch| - 1][..n] == batch[..n];
      AbortIsFinal(db, batch[..|batch| - 1], n, d, c);
    }
  }

  /** The batch loop; an exception leaves it with the tables as they stand. */
  method Process(conn: Conn, batch: Batch, d: Deps, c: Cycle) returns (r: Report)
    modifies conn
    ensures (conn.View(), r) == ProcessAll(old(conn.View()), batch, d, c)
  {
    r := Report(0, 0, 0, false);
    var i := 0;
    while i < |batch|
      invariant 0 <= i <= |batch|
      invariant !r.aborted
      invariant (conn.View(), r) == ProcessAll(old(conn.View()), batch[..i], d, c)
    {
      assert batch[..i + 1][..i] == batch[..i];
      var out := HandleListing(conn, batch[i].0, batch[i].1, d, c);
      r := Tally(r, out);
      i := i + 1;
      if out.raised {
        AbortIsFinal(old(conn.View()), batch, i, d, c);
        return;
      }
    }
    assert batch[..|batch|] == batch;
  }
}
