/** The Worker and RamTracker as a whole: RamTracker publishes the sellers of its tables, eBay's
    notices pass the filter of some isolate before they are queued, and drains pull, process and
    acknowledge what is queued. */
module EndToEnd {
  import opened Models
  import opened Tables
  import Allowlist
  import Deletion
  import Pipeline
  import Protocol
  import RateLimit
  import Runs

  datatype System = System(filter: Allowlist.State, queue: Protocol.State)

  /** `ReadSellers` is the query before a publication. `putFails`: the store refuses the entry, and
      the Worker answers with an error. */
  datatype Event =
    | Closure(id: string, username: string, isolate: nat, now: int, read: Allowlist.Read, putFails: bool)
    | ReadSellers
    | Publication(isolate: nat, now: int, fate: Allowlist.Fate)
    | QueueWork(work: Protocol.Action)

  const START := System(Allowlist.START, Protocol.START)

  /** `SELECT DISTINCT seller_id` over the eBay rows, without the empty ones. */
  function SellersOf(listings: map<Key, ListingRow>): set<string> {
    set k | k in listings && k.0 == Deletion.EBAY && listings[k].seller.Some? && listings[k].seller.value != ""
      :: listings[k].seller.value
  }

  function SellersNow(s: System, d: Pipeline.Deps): set<string> {
    SellersOf(Protocol.TablesOf(s.queue, d).listings)
  }

  /** What an event of the filter's side is to the filter. */
  function FilterAction(s: System, e: Event, d: Pipeline.Deps): Allowlist.Action
    requires !e.QueueWork?
  {
    match e
    case Closure(_, username, isolate, now, read, _) => Allowlist.Filter(isolate, now, username, read)
    case ReadSellers => Allowlist.SellersBecome(SellersNow(s, d))
    case Publication(isolate, now, fate) => Allowlist.Publish(isolate, now, fate)
  }

  predicate Enabled(s: System, e: Event, d: Pipeline.Deps, lag: nat) {
    match e
    case Closure(id, username, _, _, _, _) =>
      id != "" && username != "" && Allowlist.Enabled(s.filter, FilterAction(s, e, d), lag)
    case QueueWork(work) => !work.Notify? && Protocol.Enabled(s.queue, work)
    case _ => Allowlist.Enabled(s.filter, FilterAction(s, e, d), lag)
  }

  /** The isolate, its list refreshed if stale, tracks the name. */
  predicate IsTracked(s: System, e: Event, d: Pipeline.Deps)
    requires e.Closure?
  {
    Allowlist.Tracked(Allowlist.CacheOf(Allowlist.After(s.filter, FilterAction(s, e, d)), e.isolate), e.username)
  }

  /** eBay gets an error, and will deliver again, exactly when a put was needed and failed. */
  predicate IsAcknowledged(s: System, e: Event, d: Pipeline.Deps)
    requires e.Closure?
  {
    !(IsTracked(s, e, d) && e.putFails)
  }

  function After(s: System, e: Event, d: Pipeline.Deps, lag: nat): System
    requires Enabled(s, e, d, lag)
  {
    match e
    case Closure(id, username, _, _, _, putFails) =>
      System(Allowlist.After(s.filter, FilterAction(s, e, d)),
             if IsTracked(s, e, d) && !putFails
             then Protocol.After(s.queue, Protocol.Notify(id, username), d) else s.queue)
    case QueueWork(work) => s.(queue := Protocol.After(s.queue, work, d))
    case _ => s.(filter := Allowlist.After(s.filter, FilterAction(s, e, d)))
  }

  function RunOf(events: seq<Event>, d: Pipeline.Deps, lag: nat): System {
    if events == [] then START
    else
      var s := RunOf(events[..|events| - 1], d, lag);
      var e := events[|events| - 1];
      if Enabled(s, e, d, lag) then After(s, e, d, lag) else s
  }

  ghost predicate Sound(s: System, d: Pipeline.Deps, lag: nat) {
    Allowlist.CachesWereHeld(s.filter, lag) && Protocol.Safe(s.queue, d)
  }

  lemma NoticeIsSafe(q: Protocol.State, id: string, username: string, d: Pipeline.Deps)
    requires Protocol.Safe(q, d) && id != "" && username != ""
    ensures Protocol.Enabled(q, Protocol.Notify(id, username))
    ensures Protocol.Safe(Protocol.After(q, Protocol.Notify(id, username), d), d)
  {
    hide Protocol.Safe;
    Protocol.StepIsSafe(q, Protocol.Notify(id, username), d);
  }

  lemma StepIsSound(s: System, e: Event, d: Pipeline.Deps, lag: nat)
    requires Sound(s, d, lag) && Enabled(s, e, d, lag)
    ensures Sound(After(s, e, d, lag), d, lag)
  {
    hide Protocol.Safe, Protocol.After, Protocol.Enabled, Protocol.TablesOf, Allowlist.CachesWereHeld, Allowlist.After;
    if !e.QueueWork? {
      Allowlist.StepKeepsCachesHeld(s.filter, FilterAction(s, e, d), lag);
    }
    match e
    case Closure(id, username, _, _, _, _) => NoticeIsSafe(s.queue, id, username, d);
    case QueueWork(work) => Protocol.StepIsSafe(s.queue, work, d);
    case _ =>
  }

  lemma {:induction false} RunsAreSound(events: seq<Event>, d: Pipeline.Deps, lag: nat)
    ensures Sound(RunOf(events, d, lag), d, lag)
  {
    if events == [] {
      Protocol.StartIsSafe(d);
    } else {
      hide Sound, After, Enabled;
      var n := |events| - 1;
      RunsAreSound(events[..n], d, lag);
      if Enabled(RunOf(events[..n], d, lag), events[n], d, lag) {
        StepIsSound(RunOf(events[..n], d, lag), events[n], d, lag);
      }
    }
  }

  // Getting into the queue.

  /** The lists the store held since `since` all have the name. */
  ghost predicate NamedSince(s: System, username: string, since: int) {
    forall list :: Allowlist.HeldSince(s.filter, list, since) ==> username in list
  }

  /** How far back the list may reach that decides a notice: five minutes if the isolate's list is
      fresh or refreshed by this read, to the last refresh if the read fails; plus the lag of reads. */
  function Horizon(s: System, e: Event, d: Pipeline.Deps, lag: nat): int
    requires e.Closure?
  {
    (if Allowlist.IsCurrent(s.filter, FilterAction(s, e, d)) then e.now - 300_000
     else Allowlist.CacheOf(s.filter, e.isolate).at) - lag
  }

  lemma NamedIsTracked(s: System, e: Event, d: Pipeline.Deps, lag: nat)
    requires Sound(s, d, lag) && e.Closure? && Enabled(s, e, d, lag)
    requires NamedSince(s, e.username, Horizon(s, e, d, lag))
    ensures IsTracked(s, e, d)
  {
    hide Protocol.Safe;
    var a := FilterAction(s, e, d);
    if !IsTracked(s, e, d) {
      Allowlist.DropIsExplained(s.filter, a, lag);
    }
  }

  /** A notice eBay need not deliver again is queued, unless a list lacks the name that the store held
      within the horizon. */
  lemma DroppedWasUnlisted(events: seq<Event>, d: Pipeline.Deps, lag: nat, e: Event)
    requires e.Closure? && Enabled(RunOf(events, d, lag), e, d, lag) && IsAcknowledged(RunOf(events, d, lag), e, d)
    ensures var s := RunOf(events, d, lag);
      e.id in After(s, e, d, lag).queue.queue || !NamedSince(s, e.username, Horizon(s, e, d, lag))
  {
    RunsAreSound(events, d, lag);
    var s := RunOf(events, d, lag);
    hide Sound, NamedSince, RunOf, Horizon;
    if NamedSince(s, e.username, Horizon(s, e, d, lag)) {
      NamedIsTracked(s, e, d, lag);
    }
  }

  // Staying there.

  /** The id is waiting, or its event is committed. */
  predicate Kept(s: System, id: string, d: Pipeline.Deps) {
    id in s.queue.queue || Deletion.Seen(Protocol.TablesOf(s.queue, d).events, id)
  }

  lemma StepKeeps(s: System, e: Event, d: Pipeline.Deps, lag: nat, id: string)
    requires Sound(s, d, lag) && Enabled(s, e, d, lag) && Kept(s, id, d)
    ensures Kept(After(s, e, d, lag), id, d) || e == QueueWork(Protocol.Expire(id))
  {
    hide Protocol.Safe, Protocol.TablesOf, Allowlist.After, Allowlist.CachesWereHeld;
    match e
    case Closure(newId, username, _, _, _, _) =>
      if id !in s.queue.queue {
        Protocol.SeenStays(s.queue, Protocol.Notify(newId, username), id, d);
      }
    case QueueWork(work) =>
      if id in s.queue.queue && id !in After(s, e, d, lag).queue.queue {
        Protocol.UnprocessedLeavesOnlyByExpiry(s.queue, work, id, d);
      }
      if Deletion.Seen(Protocol.TablesOf(s.queue, d).events, id) {
        Protocol.SeenStays(s.queue, work, id, d);
      }
    case _ =>
  }

  /** Once kept, at every later moment still queued or committed, unless that very entry expires. */
  lemma {:induction false} KeptStaysKept(events: seq<Event>, d: Pipeline.Deps, lag: nat, m: nat, id: string)
    requires m <= |events| && Kept(RunOf(events[..m], d, lag), id, d)
    requires forall i :: m <= i < |events| ==> events[i] != QueueWork(Protocol.Expire(id))
    ensures Kept(RunOf(events, d, lag), id, d)
  {
    hide Sound, After, Enabled, Kept;
    if m == |events| {
      assert events[..m] == events;
    } else {
      var n := |events| - 1;
      var s := RunOf(events[..n], d, lag);
      assert events[..n][..m] == events[..m];
      KeptStaysKept(events[..n], d, lag, m, id);
      RunsAreSound(events[..n], d, lag);
      if Enabled(s, events[n], d, lag) {
        StepKeeps(s, events[n], d, lag, id);
      }
    }
  }

  lemma TrackedIsKept(events: seq<Event>, d: Pipeline.Deps, lag: nat, n: nat)
    requires n < |events| && events[n].Closure? && !events[n].putFails
    requires Enabled(RunOf(events[..n], d, lag), events[n], d, lag) && IsTracked(RunOf(events[..n], d, lag), events[n], d)
    requires forall i :: n < i < |events| ==> events[i] != QueueWork(Protocol.Expire(events[n].id))
    ensures Kept(RunOf(events, d, lag), events[n].id, d)
  {
    var s := RunOf(events[..n], d, lag);
    assert events[..n + 1][..n] == events[..n];
    assert RunOf(events[..n + 1], d, lag) == After(s, events[n], d, lag);
    assert events[n].id in After(s, events[n], d, lag).queue.queue;
    KeptStaysKept(events, d, lag, n + 1, events[n].id);
  }

  /** End to end: a closure whose seller every list names that the store held within the horizon is
      queued, whichever isolate it reaches and whatever its cache and its read; and at every later
      moment it is still queued, or its event is committed, unless that very entry expired. */
  lemma ListedClosureIsKept(events: seq<Event>, d: Pipeline.Deps, lag: nat, n: nat)
    requires n < |events| && events[n].Closure? && !events[n].putFails
    requires Enabled(RunOf(events[..n], d, lag), events[n], d, lag)
    requires var s := RunOf(events[..n], d, lag); NamedSince(s, events[n].username, Horizon(s, events[n], d, lag))
    requires forall i :: n < i < |events| ==> events[i] != QueueWork(Protocol.Expire(events[n].id))
    ensures Kept(RunOf(events, d, lag), events[n].id, d)
  {
    hide Sound, NamedSince, Horizon, IsTracked, RunOf, Enabled, Kept;
    RunsAreSound(events[..n], d, lag);
    NamedIsTracked(RunOf(events[..n], d, lag), events[n], d, lag);
    TrackedIsKept(events, d, lag, n);
  }

  // From the tables: a seller first tracked after any number of publications.

  /** No step but the deletion of its own account takes a seller out of the tables. */
  lemma SellersStay(st: Runs.State, s: Runs.Step, d: Pipeline.Deps, username: string)
    requires username in SellersOf(st.db.listings) && !(s.Delete? && s.username == username)
    ensures username in SellersOf(Runs.Apply(st, s, d).db.listings)
  {
    var before, after := st.db.listings, Runs.Apply(st, s, d).db.listings;
    var k :| k in before && k.0 == Deletion.EBAY && before[k].seller == Some(username) && username != "";
    match s
    case Collect(l, w, c) =>
      Runs.CollectListings(Runs.Settled(st), l, w, d, c);
      hide Pipeline.Attempted, RateLimit.PriceDropped;
      assert k in after && after[k].seller == before[k].seller;
    case _ => assert k in after && after[k].seller == before[k].seller;
  }

  /** Table steps beyond the first `from` delete no account of this name. */
  predicate SparedSince(taken: seq<Runs.Step>, from: nat, username: string) {
    forall i :: from <= i < |taken| && taken[i].Delete? ==> taken[i].username != username
  }

  lemma TakenGrows(s: System, e: Event, d: Pipeline.Deps, lag: nat)
    requires Enabled(s, e, d, lag)
    ensures var before, after := s.queue.taken, After(s, e, d, lag).queue.taken;
      after == before || (|after| == |before| + 1 && after[..|before|] == before)
  {
    hide Allowlist.After, Protocol.TablesOf;
  }

  lemma SellerStaysInTables(s: System, e: Event, d: Pipeline.Deps, lag: nat, from: nat, username: string)
    requires Enabled(s, e, d, lag) && username in SellersNow(s, d) && from <= |s.queue.taken|
    requires SparedSince(After(s, e, d, lag).queue.taken, from, username)
    ensures username in SellersNow(After(s, e, d, lag), d)
  {
    var before, after := s.queue.taken, After(s, e, d, lag).queue.taken;
    TakenGrows(s, e, d, lag);
    hide After, Enabled, SellersOf, Runs.Apply;
    if after != before {
      assert after[|before|] == after[|after| - 1];
      SellersStay(Runs.Run(Runs.EMPTY, before, d), after[|before|], d, username);
    }
  }

  /** The seller has rows, is in the names last read, and on every list since. */
  ghost predicate Followed(s: System, d: Pipeline.Deps, username: string, since: int) {
    && username in SellersNow(s, d) && username in s.filter.sellers
    && Allowlist.ListedSince(s.filter, username, since)
  }

  lemma StepFollows(s: System, e: Event, d: Pipeline.Deps, lag: nat, from: nat, username: string, since: int)
    requires Enabled(s, e, d, lag) && Followed(s, d, username, since) && from <= |s.queue.taken|
    requires SparedSince(After(s, e, d, lag).queue.taken, from, username)
    ensures Followed(After(s, e, d, lag), d, username, since)
  {
    SellerStaysInTables(s, e, d, lag, from, username);
    hide Protocol.After, Protocol.Enabled, Protocol.TablesOf, SellersOf;
    if !e.QueueWork? {
      Allowlist.ListedStaysListed(s.filter, FilterAction(s, e, d), username, since);
    }
  }

  /** Publication `m` was accepted and named a seller who has rows. */
  predicate NamesSeller(s: System, e: Event, d: Pipeline.Deps, username: string) {
    e.Publication? && e.fate != Allowlist.NotAccepted && username in s.filter.sellers && username in SellersNow(s, d)
  }

  lemma PublicationFollows(s: System, e: Event, d: Pipeline.Deps, lag: nat, username: string)
    requires Sound(s, d, lag) && Enabled(s, e, d, lag) && NamesSeller(s, e, d, username)
    ensures Followed(After(s, e, d, lag), d, username, e.now)
  {
    hide Protocol.Safe, Protocol.TablesOf, SellersOf;
    Allowlist.PublishedIsListed(s.filter, FilterAction(s, e, d), lag, username);
  }

  lemma {:induction false} PublishedIsFollowed(events: seq<Event>, d: Pipeline.Deps, lag: nat, m: nat, username: string)
    requires m < |events| && events[m].Publication? && Enabled(RunOf(events[..m], d, lag), events[m], d, lag)
    requires NamesSeller(RunOf(events[..m], d, lag), events[m], d, username)
    requires SparedSince(RunOf(events, d, lag).queue.taken, |RunOf(events[..m], d, lag).queue.taken|, username)
    ensures Followed(RunOf(events, d, lag), d, username, events[m].now)
    ensures |RunOf(events[..m], d, lag).queue.taken| <= |RunOf(events, d, lag).queue.taken|
  {
    hide Sound, After, Enabled, Followed, NamesSeller;
    var n := |events| - 1;
    var s := RunOf(events[..n], d, lag);
    if m == n {
      RunsAreSound(events[..n], d, lag);
      PublicationFollows(s, events[n], d, lag, username);
      TakenGrows(s, events[n], d, lag);
    } else {
      assert events[..n][..m] == events[..m] && events[..n][m] == events[m];
      if Enabled(s, events[n], d, lag) { TakenGrows(s, events[n], d, lag); }
      PublishedIsFollowed(events[..n], d, lag, m, username);
      if Enabled(s, events[n], d, lag) {
        StepFollows(s, events[n], d, lag, |RunOf(events[..m], d, lag).queue.taken|, username, events[m].now);
      }
    }
  }

  lemma FollowedIsTracked(s: System, e: Event, d: Pipeline.Deps, lag: nat, since: int)
    requires Sound(s, d, lag) && e.Closure? && Enabled(s, e, d, lag) && Followed(s, d, e.username, since)
    requires Allowlist.IsCurrent(s.filter, FilterAction(s, e, d)) && e.now > since + 300_000 + lag
    ensures IsTracked(s, e, d)
  {
    hide Protocol.Safe, Protocol.TablesOf;
    Allowlist.ListedIsTracked(s.filter, FilterAction(s, e, d), lag, since);
  }

  /** A seller with rows whose name an accepted publication carried, after whatever lists without it,
      and whose account no drain has erased since: from five minutes and the lag of reads on, every
      closure that meets a current isolate is queued, and kept until committed or expired. */
  lemma TrackedSellerIsKept(events: seq<Event>, d: Pipeline.Deps, lag: nat, m: nat, n: nat)
    requires m < n < |events| && events[n].Closure? && !events[n].putFails
    requires Enabled(RunOf(events[..m], d, lag), events[m], d, lag)
    requires NamesSeller(RunOf(events[..m], d, lag), events[m], d, events[n].username)
    requires var s := RunOf(events[..n], d, lag);
      && SparedSince(s.queue.taken, |RunOf(events[..m], d, lag).queue.taken|, events[n].username)
      && Enabled(s, events[n], d, lag) && Allowlist.IsCurrent(s.filter, FilterAction(s, events[n], d))
    requires events[n].now > events[m].now + 300_000 + lag
    requires forall i :: n < i < |events| ==> events[i] != QueueWork(Protocol.Expire(events[n].id))
    ensures Kept(RunOf(events, d, lag), events[n].id, d)
  {
    var s := RunOf(events[..n], d, lag);
    assert events[..n][..m] == events[..m] && events[..n][m] == events[m];
    PublishedIsFollowed(events[..n], d, lag, m, events[n].username);
    RunsAreSound(events[..n], d, lag);
    FollowedIsTracked(s, events[n], d, lag, events[m].now);
    hide RunOf, Enabled, IsTracked, NamesSeller, Sound, Followed, Kept, SparedSince;
    TrackedIsKept(events, d, lag, n);
  }

  /** The published names are exactly the non-empty sellers of eBay rows, whatever else the row says. */
  lemma SellersExactly(listings: map<Key, ListingRow>, username: string)
    ensures username in SellersOf(listings) <==>
      username != "" && exists k :: k in listings && k.0 == "ebay" && listings[k].seller == Some(username)
  {
    if username in SellersOf(listings) {
      var k :| k in listings && k.0 == "ebay" && listings[k].seller.Some? && listings[k].seller.value == username;
      assert listings[k].seller == Some(username);
    }
  }
}
