/** Erasure over whole runs: permanent, and accounted for. */
module Erasure {
  import opened Models
  import opened Tables
  import opened Pipeline
  import opened Runs
  import opened Deletion
  import LlmQueue

  /** The rows a step erases. */
  function ErasedBy(db: Db, s: Step): set<Key> {
    if s.Delete? && !Seen(db.events, s.id) && Scrubbable(db.listings, s.username) then RowsOf(db.listings, s.username) else {}
  }

  /** The rows erased at any point of a run. */
  function ErasedIn(st: State, steps: seq<Step>, d: Deps): set<Key> {
    if steps == [] then {}
    else ErasedIn(st, steps[..|steps| - 1], d) + ErasedBy(Run(st, steps[..|steps| - 1], d).db, steps[|steps| - 1])
  }

  /** The eBay rows of the closed account, if the id is new and none of their payloads is corrupt. */
  lemma ErasedByExactly(db: Db, s: Step, k: Key)
    requires s.Delete?
    ensures k in ErasedBy(db, s) <==>
      && k in db.listings && k.0 == "ebay" && db.listings[k].seller == Some(s.username)
      && (forall i :: 0 <= i < |db.events| ==> db.events[i].id != s.id)
      && forall j :: j in db.listings && IsEbayRowOf(j, db.listings[j], s.username) ==> !db.listings[j].payload.Corrupt?
  {
    RaisesExactly(db, s.id, s.username);
  }

  predicate IsErased(listings: map<Key, ListingRow>, k: Key) {
    k in listings && k.0 == EBAY && listings[k].seller.None? && listings[k].payload.SellerFree()
  }

  /** No step gives an existing row a seller or a payload back: the upsert's update list omits both. */
  lemma StepKeepsErased(st: State, s: Step, d: Deps, k: Key)
    requires IsErased(st.db.listings, k)
    ensures IsErased(Apply(st, s, d).db.listings, k)
  {
    match s
    case Collect(l, w, c) =>
      CollectListings(Settled(st), l, w, d, c);
      hide Attempted;
    case _ =>
  }

  lemma StepErases(st: State, s: Step, d: Deps, k: Key)
    requires k in ErasedBy(st.db, s)
    ensures IsErased(Apply(st, s, d).db.listings, k)
    ensures !IsErased(st.db.listings, k)
  {
  }

  /** Once a deletion commits, every eBay row it covered keeps a NULL seller and a seller-free
      payload through all later steps. */
  lemma {:induction false} ErasureIsPermanent(st: State, steps: seq<Step>, d: Deps)
    ensures forall k :: k in ErasedIn(st, steps, d) ==> IsErased(Run(st, steps, d).db.listings, k)
  {
    hide Apply, ErasedBy, IsErased;
    if steps != [] {
      var n := |steps| - 1;
      ErasureIsPermanent(st, steps[..n], d);
      forall k | k in ErasedIn(st, steps, d) ensures IsErased(Run(st, steps, d).db.listings, k) {
        if k in ErasedIn(st, steps[..n], d) {
          StepKeepsErased(Run(st, steps[..n], d), steps[n], d, k);
        } else {
          StepErases(Run(st, steps[..n], d), steps[n], d, k);
        }
      }
    }
  }

  function TotalScrubbed(events: seq<DeletionEvent>): nat {
    if events == [] then 0
    else TotalScrubbed(events[..|events| - 1]) + events[|events| - 1].scrubbed
  }

  lemma EventsStep(st: State, s: Step, d: Deps)
    ensures TotalScrubbed(Apply(st, s, d).db.events) == TotalScrubbed(st.db.events) + |ErasedBy(st.db, s)|
  {
    match s
    case Collect(l, w, c) =>
      CollectListings(Settled(st), l, w, d, c);
      hide Attempted;
    case Delete(id, username) =>
      var after := Apply(st, s, d).db.events;
      if !Seen(st.db.events, id) && !Raises(st.db, id, username) {
        assert after[..|after| - 1] == st.db.events;
      }
    case _ =>
  }

  /** Conservation: over any run, the rows counted by the deletion events are exactly the distinct
      rows ever erased; none is counted twice. */
  lemma {:induction false} ScrubbedRowsAreConserved(st: State, steps: seq<Step>, d: Deps)
    ensures TotalScrubbed(Run(st, steps, d).db.events) == TotalScrubbed(st.db.events) + |ErasedIn(st, steps, d)|
  {
    hide Apply, ErasedBy, IsErased, TotalScrubbed;
    if steps != [] {
      var n := |steps| - 1;
      var before := Run(st, steps[..n], d);
      ScrubbedRowsAreConserved(st, steps[..n], d);
      ErasureIsPermanent(st, steps[..n], d);
      EventsStep(before, steps[n], d);
      assert ErasedIn(st, steps[..n], d) !! ErasedBy(before.db, steps[n]) by {
        forall k | k in ErasedBy(before.db, steps[n]) ensures k !in ErasedIn(st, steps[..n], d) {
          StepErases(before, steps[n], d, k);
        }
      }
    }
  }
}
