/** The queue for the language model: two lanes, drained in batches. The model itself is foreign;
    its answers are an argument. */
module LlmQueue {
  import opened Models
  import opened Tables
  import Cascade

  function LaneFor(best: Option<real>, ceiling: real, margin: real): Lane {
    if best.Some? && best.value < ceiling * margin then Urgent else Deferred
  }

  /** `INSERT OR IGNORE`. */
  function Enqueue(queue: map<SpecHash, QueueRow>, hash: SpecHash, lane: Lane, best: Option<real>): map<SpecHash, QueueRow> {
    if hash in queue then queue else queue[hash := QueueRow(lane, best, 0)]
  }

  function LaneOf(queue: map<SpecHash, QueueRow>, lane: Lane): set<SpecHash> {
    set h | h in queue && queue[h].lane == lane
  }

  function MinNat(a: nat, b: nat): nat { if a < b then a else b }

  predicate Distinct(s: seq<SpecHash>) {
    forall i, j :: 0 <= i < j < |s| ==> s[i] != s[j]
  }

  /** A possible answer of `SELECT ... WHERE lane = ? LIMIT ?`; its order is left open. */
  ghost predicate IsPick(queue: map<SpecHash, QueueRow>, lane: Lane, budget: nat, picked: seq<SpecHash>) {
    && |picked| == MinNat(budget, |LaneOf(queue, lane)|)
    && (forall i :: 0 <= i < |picked| ==> picked[i] in LaneOf(queue, lane))
    && Distinct(picked)
  }

  /** Some listing row still carries the queued hash. */
  predicate HasListing(listings: map<Key, ListingRow>, hash: SpecHash) {
    exists k :: k in listings && listings[k].hash == hash
  }

  function WithListing(listings: map<Key, ListingRow>, picked: seq<SpecHash>): seq<SpecHash> {
    if picked == [] then []
    else
      var last := picked[|picked| - 1];
      WithListing(listings, picked[..|picked| - 1]) + if HasListing(listings, last) then [last] else []
  }

  function Bump(queue: map<SpecHash, QueueRow>, bumped: set<SpecHash>): map<SpecHash, QueueRow> {
    map h | h in queue :: if h in bumped then queue[h].(attempts := queue[h].attempts + 1) else queue[h]
  }

  /** Where a batch is answered. The remote service is reached only through the fallback flag. */
  datatype Backend = Local | Remote | NoBackend

  function BackendFor(allowRemote: bool, busy: bool, localWorks: bool, hasRemoteKey: bool): Backend {
    if busy then (if allowRemote && hasRemoteKey then Remote else NoBackend)
    else if localWorks then Local
    else if allowRemote && hasRemoteKey then Remote
    else NoBackend
  }

  /** What the world answers during one drain: is the server busy when probed, and again when the
      batch is sent; which backend works; the batch's specifications, one per listing. */
  datatype LlmWorld = LlmWorld(
    picked: seq<SpecHash>, bumped: set<SpecHash>,
    busy: bool, busyLater: bool, localWorks: bool, hasRemoteKey: bool, answers: seq<Spec>)

  function BackendOf(lane: Lane, remoteFallback: bool, w: LlmWorld): Backend {
    BackendFor(lane == Urgent && remoteFallback, w.busyLater, w.localWorks, w.hasRemoteKey)
  }

  datatype Config = Config(matrix: Matrix, version: int, remoteFallback: bool)

  /** The row stored for an answer. */
  function Final(answer: Spec, cfg: Config): Cached {
    Cached(Cascade.Qualify(answer.(via := Llm), cfg.matrix), cfg.version)
  }

  function StoreAnswers(specs: map<SpecHash, Cached>, hashes: seq<SpecHash>, answers: seq<Spec>, cfg: Config): map<SpecHash, Cached>
    requires |answers| == |hashes|
  {
    if hashes == [] then specs
    else
      var n := |hashes| - 1;
      StoreAnswers(specs, hashes[..n], answers[..n], cfg)[hashes[n] := Final(answers[n], cfg)]
  }

  function Without(queue: map<SpecHash, QueueRow>, hashes: seq<SpecHash>): map<SpecHash, QueueRow> {
    map h | h in queue && h !in hashes :: queue[h]
  }

  datatype Drained = Drained(db: Db, resolved: nat)

  /** `zip` stops at the shorter of the two lists. */
  function Store(db: Db, hashes: seq<SpecHash>, answers: seq<Spec>, cfg: Config): Drained {
    var n := MinNat(|hashes|, |answers|);
    Drained(db.(specs := StoreAnswers(db.specs, hashes[..n], answers[..n], cfg), queue := Without(db.queue, hashes[..n])), n)
  }

  function Drain(db: Db, lane: Lane, w: LlmWorld, cfg: Config): Drained {
    if lane == Deferred && w.busy then Drained(db.(queue := Bump(db.queue, w.bumped)), 0)
    else
      var hashes := WithListing(db.listings, w.picked);
      if hashes == [] then Drained(db, 0)
      else if BackendOf(lane, cfg.remoteFallback, w) == NoBackend then
        Drained(db.(queue := Bump(db.queue, w.bumped)), 0)
      else Store(db, hashes, w.answers, cfg)
  }

  method CollectListed(conn: Conn, picked: seq<SpecHash>) returns (hashes: seq<SpecHash>)
    ensures hashes == WithListing(conn.listings, picked)
  {
    hashes := [];
    for i := 0 to |picked|
      invariant hashes == WithListing(conn.listings, picked[..i])
    {
      assert picked[..i + 1][..i] == picked[..i];
      if HasListing(conn.listings, picked[i]) {
        hashes := hashes + [picked[i]];
      }
    }
    assert picked[..|picked|] == picked;
  }

  lemma StoreOneMore(specs: map<SpecHash, Cached>, queue: map<SpecHash, QueueRow>, hashes: seq<SpecHash>,
                     answers: seq<Spec>, n: nat, cfg: Config)
    requires n < |hashes| && n < |answers|
    ensures StoreAnswers(specs, hashes[..n + 1], answers[..n + 1], cfg)
         == StoreAnswers(specs, hashes[..n], answers[..n], cfg)[hashes[n] := Final(answers[n], cfg)]
    ensures var before := Without(queue, hashes[..n]);
      Without(queue, hashes[..n + 1]) == map h | h in before && h != hashes[n] :: before[h]
  {
    assert hashes[..n + 1] == hashes[..n] + [hashes[n]];
    assert hashes[..n + 1][..n] == hashes[..n];
    assert answers[..n + 1][..n] == answers[..n];
  }

  method StoreLoop(conn: Conn, hashes: seq<SpecHash>, answers: seq<Spec>, cfg: Config) returns (resolved: nat)
    modifies conn`specs, conn`queue
    ensures Drained(conn.View(), resolved) == Store(old(conn.View()), hashes, answers, cfg)
  {
    resolved := 0;
    assert Without(conn.queue, hashes[..0]) == conn.queue;
    while resolved < |hashes| && resolved < |answers|
      invariant 0 <= resolved <= |hashes| && resolved <= |answers|
      invariant conn.specs == StoreAnswers(old(conn.specs), hashes[..resolved], answers[..resolved], cfg)
      invariant conn.queue == Without(old(conn.queue), hashes[..resolved])
    {
      var h := hashes[resolved];
      StoreOneMore(old(conn.specs), old(conn.queue), hashes, answers, resolved, cfg);
      conn.specs := conn.specs[h := Final(answers[resolved], cfg)];
      conn.queue := map q | q in conn.queue && q != h :: conn.queue[q];
      resolved := resolved + 1;
    }
  }

  /** The drain as the program runs it: collect the listings, ask, store row by row. */
  method DrainLane(conn: Conn, lane: Lane, w: LlmWorld, cfg: Config) returns (resolved: nat)
    modifies conn`specs, conn`queue
    ensures Drained(conn.View(), resolved) == Drain(old(conn.View()), lane, w, cfg)
  {
    resolved := 0;
    if lane == Deferred && w.busy {
      conn.queue := Bump(conn.queue, w.bumped);
      return;
    }
    var hashes := CollectListed(conn, w.picked);
    if hashes == [] {
      return;
    }
    if BackendOf(lane, cfg.remoteFallback, w) == NoBackend {
      conn.queue := Bump(conn.queue, w.bumped);
      return;
    }
    resolved := StoreLoop(conn, hashes, w.answers, cfg);
  }

  // What a successful drain achieves.

  lemma {:induction false} WithListingMember(listings: map<Key, ListingRow>, picked: seq<SpecHash>, h: SpecHash)
    ensures h in WithListing(listings, picked) <==> h in picked && HasListing(listings, h)
  {
    if picked != [] {
      WithListingMember(listings, picked[..|picked| - 1], h);
      assert picked == picked[..|picked| - 1] + [picked[|picked| - 1]];
    }
  }

  lemma {:induction false} WithListingLength(listings: map<Key, ListingRow>, picked: seq<SpecHash>)
    ensures |WithListing(listings, picked)| <= |picked|
    ensures |WithListing(listings, picked)| == |picked| <==>
      forall i :: 0 <= i < |picked| ==> HasListing(listings, picked[i])
    ensures |WithListing(listings, picked)| == |picked| ==> WithListing(listings, picked) == picked
  {
    if picked != [] {
      var n := |picked| - 1;
      WithListingLength(listings, picked[..n]);
      assert picked == picked[..n] + [picked[n]];
    }
  }

  lemma {:induction false} WithListingDistinct(listings: map<Key, ListingRow>, picked: seq<SpecHash>)
    requires Distinct(picked)
    ensures Distinct(WithListing(listings, picked))
  {
    if picked != [] {
      var n := |picked| - 1;
      WithListingDistinct(listings, picked[..n]);
      WithListingMember(listings, picked[..n], picked[n]);
    }
  }

  lemma {:induction false} AnswerIsStored(
    specs: map<SpecHash, Cached>, hashes: seq<SpecHash>, answers: seq<Spec>, cfg: Config, h: SpecHash)
    requires |answers| == |hashes|
    ensures var s := StoreAnswers(specs, hashes, answers, cfg);
      if h in hashes then
        h in s && s[h].spec.via == Llm && (s[h].spec.Qualified() ==> Cascade.MatrixAccepts(s[h].spec, cfg.matrix))
      else (h in s <==> h in specs) && (h in s ==> s[h] == specs[h])
  {
    if hashes != [] {
      var n := |hashes| - 1;
      AnswerIsStored(specs, hashes[..n], answers[..n], cfg, h);
      assert hashes == hashes[..n] + [hashes[n]];
      assert Final(answers[n], cfg).spec.via == Llm;
    }
  }

  /** What becomes of one answer: kept whole but for its origin, rejected if the matrix does not admit
      it or it came rejected, under the running parser's version. */
  predicate IsStoredAs(row: Cached, answer: Spec, cfg: Config) {
    && row.version == cfg.version && row.spec.via == Llm
    && row.spec.(via := answer.via, reject := answer.reject) == answer
    && (answer.reject.Some? ==> row.spec.reject == answer.reject)
    && (row.spec.Qualified() <==> answer.Qualified() && Cascade.MatrixAccepts(answer, cfg.matrix))
  }

  lemma {:induction false} AnswerByPosition(
    specs: map<SpecHash, Cached>, hashes: seq<SpecHash>, answers: seq<Spec>, cfg: Config, i: nat)
    requires |answers| == |hashes| && i < |hashes| && Distinct(hashes)
    ensures hashes[i] in StoreAnswers(specs, hashes, answers, cfg)
    ensures IsStoredAs(StoreAnswers(specs, hashes, answers, cfg)[hashes[i]], answers[i], cfg)
  {
    var n := |hashes| - 1;
    if i < n {
      AnswerByPosition(specs, hashes[..n], answers[..n], cfg, i);
      assert hashes[i] != hashes[n];
    }
  }

  /** Taking distinct members out of a map shrinks it by their number. */
  lemma {:induction false} WithoutSize(queue: map<SpecHash, QueueRow>, hashes: seq<SpecHash>)
    requires Distinct(hashes) && forall i :: 0 <= i < |hashes| ==> hashes[i] in queue
    ensures |Without(queue, hashes)| == |queue| - |hashes|
  {
    if hashes == [] {
      assert Without(queue, hashes) == queue;
    } else {
      var n := |hashes| - 1;
      WithoutSize(queue, hashes[..n]);
      var before := Without(queue, hashes[..n]);
      assert hashes == hashes[..n] + [hashes[n]];
      assert hashes[n] in before;
      assert Without(queue, hashes).Keys == before.Keys - {hashes[n]};
    }
  }

  /** The drain got its answers: not skipped, a backend replied, one answer per listing. */
  predicate Succeeds(db: Db, lane: Lane, w: LlmWorld, cfg: Config) {
    && !(lane == Deferred && w.busy)
    && BackendOf(lane, cfg.remoteFallback, w) != NoBackend
    && |w.answers| == |WithListing(db.listings, w.picked)|
  }

  /** A successful drain is the store of all its listed picks. */
  lemma SuccessStores(db: Db, lane: Lane, w: LlmWorld, cfg: Config)
    requires Succeeds(db, lane, w, cfg)
    ensures var hashes := WithListing(db.listings, w.picked);
      Drain(db, lane, w, cfg) ==
      Drained(db.(specs := StoreAnswers(db.specs, hashes, w.answers, cfg), queue := Without(db.queue, hashes)), |hashes|)
  {
    var hashes := WithListing(db.listings, w.picked);
    assert hashes[..|hashes|] == hashes && w.answers[..|hashes|] == w.answers;
    if hashes == [] {
      assert Without(db.queue, hashes) == db.queue;
    }
  }

  lemma ListedPicksLeave(queue: map<SpecHash, QueueRow>, lane: Lane, listings: map<Key, ListingRow>, picked: seq<SpecHash>)
    requires Distinct(picked) && forall i :: 0 <= i < |picked| ==> picked[i] in LaneOf(queue, lane)
    ensures |Without(queue, WithListing(listings, picked))| == |queue| - |WithListing(listings, picked)|
  {
    var hashes := WithListing(listings, picked);
    WithListingDistinct(listings, picked);
    forall i | 0 <= i < |hashes| ensures hashes[i] in queue {
      WithListingMember(listings, picked, hashes[i]);
    }
    WithoutSize(queue, hashes);
  }

  /** A successful drain removes as many entries as it resolves, and min(budget, lane size) of
      them if and only if every picked text still has a listing row; the others stay queued. */
  lemma DrainRemovesExactly(db: Db, lane: Lane, budget: nat, w: LlmWorld, cfg: Config)
    requires IsPick(db.queue, lane, budget, w.picked) && Succeeds(db, lane, w, cfg)
    ensures var r := Drain(db, lane, w, cfg);
      && r.resolved == |db.queue| - |r.db.queue|
      && (r.resolved == MinNat(budget, |LaneOf(db.queue, lane)|)
          <==> forall i :: 0 <= i < |w.picked| ==> HasListing(db.listings, w.picked[i]))
  {
    SuccessStores(db, lane, w, cfg);
    WithListingLength(db.listings, w.picked);
    ListedPicksLeave(db.queue, lane, db.listings, w.picked);
  }

  /** Each resolved text gets a specification by the language model and leaves the queue; no other
      queue entry, specification or table changes. */
  lemma DrainTouchesOnlyItsPicks(db: Db, lane: Lane, w: LlmWorld, cfg: Config, h: SpecHash)
    requires Succeeds(db, lane, w, cfg)
    ensures var after := Drain(db, lane, w, cfg).db;
      && after == db.(specs := after.specs, queue := after.queue)
      && (if h in w.picked && HasListing(db.listings, h)
          then h !in after.queue && h in after.specs && after.specs[h].spec.via == Llm
          else && (h in after.queue <==> h in db.queue)
               && (h in after.queue ==> after.queue[h] == db.queue[h])
               && (h in after.specs <==> h in db.specs)
               && (h in after.specs ==> after.specs[h] == db.specs[h]))
  {
    SuccessStores(db, lane, w, cfg);
    WithListingMember(db.listings, w.picked, h);
    AnswerIsStored(db.specs, WithListing(db.listings, w.picked), w.answers, cfg, h);
  }

  /** Each listed pick is stored as its own answer, position by position, qualified by the matrix. */
  lemma AnswersGoToTheirTexts(db: Db, lane: Lane, w: LlmWorld, cfg: Config, i: nat)
    requires Succeeds(db, lane, w, cfg) && Distinct(w.picked) && i < |WithListing(db.listings, w.picked)|
    ensures var h, after := WithListing(db.listings, w.picked)[i], Drain(db, lane, w, cfg).db;
      h in after.specs && IsStoredAs(after.specs[h], w.answers[i], cfg)
  {
    SuccessStores(db, lane, w, cfg);
    WithListingDistinct(db.listings, w.picked);
    AnswerByPosition(db.specs, WithListing(db.listings, w.picked), w.answers, cfg, i);
  }

  /** When a batch finds a backend: a free local server that works, or, for the urgent lane, with the
      flag and a key, the remote service. */
  lemma BackendExactly(lane: Lane, remoteFallback: bool, w: LlmWorld)
    ensures BackendOf(lane, remoteFallback, w) == Local <==> !w.busyLater && w.localWorks
    ensures BackendOf(lane, remoteFallback, w) == Remote <==>
      (w.busyLater || !w.localWorks) && lane == Urgent && remoteFallback && w.hasRemoteKey
  {
  }

  /** A drain that is skipped, or finds no backend, resolves nothing: it only counts an attempt for
      the rows it bumps. */
  lemma FailedDrainOnlyCounts(db: Db, lane: Lane, w: LlmWorld, cfg: Config)
    requires (lane == Deferred && w.busy) || BackendOf(lane, cfg.remoteFallback, w) == NoBackend
    ensures var r := Drain(db, lane, w, cfg);
      && r.resolved == 0 && r.db == db.(queue := r.db.queue) && r.db.queue.Keys == db.queue.Keys
      && forall h :: h in db.queue ==>
           && r.db.queue[h].(attempts := db.queue[h].attempts) == db.queue[h]
           && db.queue[h].attempts <= r.db.queue[h].attempts <= db.queue[h].attempts + 1
           && (r.db.queue[h].attempts > db.queue[h].attempts ==> h in w.bumped)
  {
  }

  /** Queueing a text again leaves its row as it is, lane and attempts included. */
  lemma EnqueueKeepsRows(queue: map<SpecHash, QueueRow>, hash: SpecHash, lane: Lane, best: Option<real>)
    ensures var after := Enqueue(queue, hash, lane, best);
      && after.Keys == queue.Keys + {hash}
      && (forall h :: h in queue ==> after[h] == queue[h])
      && (hash !in queue ==> after[hash] == QueueRow(lane, best, 0))
  {
  }

  /** Urgent exactly when even the best case, raised by the margin's inverse, is under the ceiling;
      what cannot be bounded waits. */
  lemma LaneExactly(best: Option<real>, ceiling: real, margin: real)
    requires margin > 0.0
    ensures LaneFor(best, ceiling, margin) == Urgent <==> best.Some? && best.value / margin < ceiling
  {
    if best.Some? {
      var q := best.value / margin;
      assert q * margin == best.value;
      if q < ceiling { assert q * margin < ceiling * margin; } else { assert q * margin >= ceiling * margin; }
    }
  }

  lemma {:induction false} SameVersionStores(
    specs: map<SpecHash, Cached>, hashes: seq<SpecHash>, answers: seq<Spec>, cfg: Config, other: Config)
    requires |answers| == |hashes| && cfg.matrix == other.matrix && cfg.version == other.version
    ensures StoreAnswers(specs, hashes, answers, cfg) == StoreAnswers(specs, hashes, answers, other)
  {
    if hashes != [] {
      SameVersionStores(specs, hashes[..|hashes| - 1], answers[..|hashes| - 1], cfg, other);
    }
  }

  /** The deferred lane is blind to the remote service: neither its key nor the fallback flag can
      change anything a deferred drain does. */
  lemma DeferredIgnoresRemote(db: Db, w: LlmWorld, cfg: Config, key: bool, fallback: bool)
    ensures Drain(db, Deferred, w, cfg) == Drain(db, Deferred, w.(hasRemoteKey := key), cfg.(remoteFallback := fallback))
  {
    var n := MinNat(|WithListing(db.listings, w.picked)|, |w.answers|);
    SameVersionStores(db.specs, WithListing(db.listings, w.picked)[..n], w.answers[..n], cfg, cfg.(remoteFallback := fallback));
  }

  function DrainTimes(db: Db, lane: Lane, ws: seq<LlmWorld>, cfg: Config): Db {
    if ws == [] then db
    else Drain(DrainTimes(db, lane, ws[..|ws| - 1], cfg), lane, ws[|ws| - 1], cfg).db
  }

  ghost predicate EachSucceeds(db: Db, lane: Lane, budget: nat, ws: seq<LlmWorld>, cfg: Config) {
    ws == [] ||
    (var before := DrainTimes(db, lane, ws[..|ws| - 1], cfg);
     && EachSucceeds(db, lane, budget, ws[..|ws| - 1], cfg)
     && IsPick(before.queue, lane, budget, ws[|ws| - 1].picked)
     && Succeeds(before, lane, ws[|ws| - 1], cfg))
  }

  predicate AllListed(db: Db, lane: Lane) {
    forall h :: h in LaneOf(db.queue, lane) ==> HasListing(db.listings, h)
  }

  lemma OneMoreBudget(n: nat, budget: nat)
    ensures (n + 1) * budget == n * budget + budget && n * budget >= 0
  {
  }

  lemma {:induction false} LaneWithout(queue: map<SpecHash, QueueRow>, lane: Lane, hashes: seq<SpecHash>)
    requires Distinct(hashes) && forall i :: 0 <= i < |hashes| ==> hashes[i] in LaneOf(queue, lane)
    ensures |LaneOf(Without(queue, hashes), lane)| == |LaneOf(queue, lane)| - |hashes|
  {
    if hashes == [] {
      assert Without(queue, hashes) == queue;
    } else {
      var n := |hashes| - 1;
      LaneWithout(queue, lane, hashes[..n]);
      assert hashes == hashes[..n] + [hashes[n]];
      var before := LaneOf(Without(queue, hashes[..n]), lane);
      assert hashes[n] in before;
      assert LaneOf(Without(queue, hashes), lane) == before - {hashes[n]};
    }
  }

  lemma DrainShrinksLane(db: Db, lane: Lane, budget: nat, w: LlmWorld, cfg: Config)
    requires IsPick(db.queue, lane, budget, w.picked) && Succeeds(db, lane, w, cfg) && AllListed(db, lane)
    ensures var after := Drain(db, lane, w, cfg).db;
      && AllListed(after, lane)
      && |LaneOf(after.queue, lane)| == |LaneOf(db.queue, lane)| - MinNat(budget, |LaneOf(db.queue, lane)|)
  {
    SuccessStores(db, lane, w, cfg);
    WithListingLength(db.listings, w.picked);
    LaneWithout(db.queue, lane, w.picked);
  }

  lemma {:induction false} DrainsShrinkTheLane(db: Db, lane: Lane, budget: nat, ws: seq<LlmWorld>, cfg: Config)
    requires EachSucceeds(db, lane, budget, ws, cfg) && AllListed(db, lane)
    ensures var after := DrainTimes(db, lane, ws, cfg);
      && AllListed(after, lane)
      && |LaneOf(after.queue, lane)| == |LaneOf(db.queue, lane)| - MinNat(|ws| * budget, |LaneOf(db.queue, lane)|)
  {
    if ws != [] {
      var n := |ws| - 1;
      DrainsShrinkTheLane(db, lane, budget, ws[..n], cfg);
      DrainShrinksLane(DrainTimes(db, lane, ws[..n], cfg), lane, budget, ws[n], cfg);
      hide Drain, Succeeds, IsPick, LaneOf, AllListed;
      OneMoreBudget(n, budget);
    }
  }

  /** n entries, all still listed: k successful drains leave max(0, n - k * budget) of the lane, so
      ceil(n / budget) of them empty it. */
  lemma DrainsEmptyTheLane(db: Db, lane: Lane, budget: nat, ws: seq<LlmWorld>, cfg: Config)
    requires EachSucceeds(db, lane, budget, ws, cfg) && AllListed(db, lane)
    ensures var after := DrainTimes(db, lane, ws, cfg).queue; var n := |LaneOf(db.queue, lane)|;
      && |LaneOf(after, lane)| == n - MinNat(|ws| * budget, n)
      && (|ws| * budget >= n <==> LaneOf(after, lane) == {})
  {
    DrainsShrinkTheLane(db, lane, budget, ws, cfg);
    var left := LaneOf(DrainTimes(db, lane, ws, cfg).queue, lane);
    assert |left| == 0 <==> left == {};
  }
}
