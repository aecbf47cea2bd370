/** The account-deletion protocol: eBay redelivers at least once, the Worker keeps a queue that
    expires, any number of drain processes pull, process and acknowledge, and anything between
    two atomic actions may crash or be lost. Every change of the tables is a step of `Runs`. */
module Protocol {
  import opened Models
  import opened Tables
  import opened Deletion
  import Pipeline
  import RateLimit
  import Runs
  import Erasure

  /** A drain process: idle, or part-way through the entries it pulled. */
  datatype Process = Idle | Draining(pending: seq<Pending>, next: nat, done: seq<string>)

  /** `put` is every entry the Worker ever queued. `acks` is every acknowledgement ever sent; each
      may be delivered late, repeatedly, in part or never. `taken` is the table steps so far. */
  datatype State = State(
    queue: map<string, string>,
    put: set<Pending>,
    acks: set<seq<string>>,
    processes: map<nat, Process>,
    taken: seq<Runs.Step>)

  datatype Action =
    | Notify(id: string, username: string)
    | Expire(id: string)
    | Pull(p: nat, answer: seq<Pending>)
    | ProcessNext(p: nat)
    | Acknowledge(p: nat)
    | DeliverAck(ids: seq<string>, removed: set<string>)
    | Crash(p: nat)
    | Work(step: Runs.Step)

  const START := State(map[], {}, {}, map[], [])

  function TablesOf(s: State, d: Pipeline.Deps): Db { Runs.Run(Runs.EMPTY, s.taken, d).db }

  function ProcessOf(s: State, p: nat): Process {
    if p in s.processes then s.processes[p] else Idle
  }

  /** What `/pending` may answer: eventual consistency allows any entry ever queued, in any order,
      beside entries without usable fields. */
  predicate PossibleAnswer(s: State, answer: seq<Pending>) {
    forall i :: 0 <= i < |answer| ==> !answer[i].WellFormed() || answer[i] in s.put
  }

  predicate Enabled(s: State, a: Action) {
    match a
    case Notify(id, username) => id != "" && username != ""
    case Pull(p, answer) => ProcessOf(s, p) == Idle && PossibleAnswer(s, answer)
    case ProcessNext(p) => ProcessOf(s, p).Draining? && ProcessOf(s, p).next < |ProcessOf(s, p).pending|
    case Acknowledge(p) => ProcessOf(s, p).Draining? && ProcessOf(s, p).next == |ProcessOf(s, p).pending|
    case DeliverAck(ids, removed) => ids in s.acks && forall id :: id in removed ==> id in ids
    case Work(step) => !step.Delete?
    case _ => true
  }

  /** The effect of an enabled action. `put` overwrites; a processed entry commits its transaction
      before its id counts as done, an exception ends the drain; only a completed drain
      acknowledges. */
  function After(s: State, a: Action, d: Pipeline.Deps): State
    requires Enabled(s, a)
  {
    match a
    case Notify(id, username) => s.(queue := s.queue[id := username], put := s.put + {Pending(id, username)})
    case Expire(id) => s.(queue := s.queue - {id})
    case Pull(p, answer) => s.(processes := s.processes[p := Draining(answer, 0, [])])
    case ProcessNext(p) =>
      var x := ProcessOf(s, p);
      var item := x.pending[x.next];
      if item.WellFormed() && Raises(TablesOf(s, d), item.id, item.username) then
        s.(processes := s.processes[p := Idle])
      else if item.WellFormed() then
        s.(taken := s.taken + [Runs.Delete(item.id, item.username)],
           processes := s.processes[p := x.(next := x.next + 1, done := x.done + [item.id])])
      else s.(processes := s.processes[p := x.(next := x.next + 1)])
    case Acknowledge(p) =>
      var x := ProcessOf(s, p);
      s.(processes := s.processes[p := Idle], acks := if x.done == [] then s.acks else s.acks + {x.done})
    case DeliverAck(_, removed) => s.(queue := s.queue - removed)
    case Crash(p) => s.(processes := s.processes[p := Idle])
    case Work(step) => s.(taken := s.taken + [step])
  }

  /** The state after any sequence of actions; one that is not enabled leaves it as it was, so the
      values of `RunOf` are exactly the reachable states. */
  function RunOf(actions: seq<Action>, d: Pipeline.Deps): State {
    if actions == [] then START
    else
      var s := RunOf(actions[..|actions| - 1], d);
      var a := actions[|actions| - 1];
      if Enabled(s, a) then After(s, a, d) else s
  }

  // What every reachable state keeps.

  predicate NoDuplicates(events: seq<DeletionEvent>) {
    forall i, j :: 0 <= i < j < |events| ==> events[i].id != events[j].id
  }

  predicate AllSeen(events: seq<DeletionEvent>, ids: seq<string>) {
    forall i :: 0 <= i < |ids| ==> Seen(events, ids[i])
  }

  predicate DoneIsCommitted(x: Process, events: seq<DeletionEvent>) {
    x.Draining? ==> AllSeen(events, x.done)
  }

  /** Acknowledgements, sent or still being gathered, name only committed ids. */
  predicate AcksAreCommitted(s: State, events: seq<DeletionEvent>) {
    && (forall ids :: ids in s.acks ==> AllSeen(events, ids))
    && (forall p :: p in s.processes ==> DoneIsCommitted(s.processes[p], events))
  }

  /** What is queued or pulled was once put. */
  predicate EntriesWerePut(s: State) {
    && (forall p :: p in s.processes && s.processes[p].Draining? ==> PossibleAnswer(s, s.processes[p].pending))
    && (forall id :: id in s.queue ==> Pending(id, s.queue[id]) in s.put)
  }

  predicate WasPut(s: State, id: string) { exists entry :: entry in s.put && entry.id == id }

  predicate EventsWerePut(s: State, events: seq<DeletionEvent>) {
    forall i :: 0 <= i < |events| ==> WasPut(s, events[i].id)
  }

  ghost predicate Safe(s: State, d: Pipeline.Deps) {
    var events := TablesOf(s, d).events;
    NoDuplicates(events) && AcksAreCommitted(s, events) && EntriesWerePut(s) && EventsWerePut(s, events)
  }

  /** Table steps other than deletions never touch the events. */
  lemma OtherWorkKeepsEvents(st: Runs.State, step: Runs.Step, d: Pipeline.Deps)
    requires !step.Delete?
    ensures Runs.Apply(st, step, d).db.events == st.db.events
  {
    if step.Collect? {
      Runs.CollectListings(Runs.Settled(st), step.listing, step.world, d, step.cycle);
      hide Pipeline.Attempted;
    }
  }

  lemma TakenStep(s: State, step: Runs.Step, d: Pipeline.Deps)
    ensures TablesOf(s.(taken := s.taken + [step]), d)
         == Runs.Apply(Runs.Run(Runs.EMPTY, s.taken, d), step, d).db
  {
    hide Runs.Apply;
    assert (s.taken + [step])[..|s.taken|] == s.taken;
  }

  /** The next state's events extend this one's, at most by one row with an id not seen before. */
  lemma EventsGrow(s: State, a: Action, d: Pipeline.Deps)
    requires Enabled(s, a)
    ensures var before, after := TablesOf(s, d).events, TablesOf(After(s, a, d), d).events;
      || after == before
      || (a.ProcessNext? && var x := ProcessOf(s, a.p); var item := x.pending[x.next];
          item.WellFormed() && !Seen(before, item.id)
          && |after| == |before| + 1 && after[..|before|] == before && after[|before|].id == item.id)
    ensures a.ProcessNext? && ProcessOf(s, a.p).pending[ProcessOf(s, a.p).next].WellFormed()
            && ProcessOf(After(s, a, d), a.p).Draining? ==>
      Seen(TablesOf(After(s, a, d), d).events, ProcessOf(s, a.p).pending[ProcessOf(s, a.p).next].id)
  {
    hide Runs.Run;
    match a
    case Work(step) =>
      TakenStep(s, step, d);
      OtherWorkKeepsEvents(Runs.Run(Runs.EMPTY, s.taken, d), step, d);
      hide Runs.Apply;
    case ProcessNext(p) =>
      var x := ProcessOf(s, p);
      var item := x.pending[x.next];
      if item.WellFormed() && !Raises(TablesOf(s, d), item.id, item.username) {
        TakenStep(s, Runs.Delete(item.id, item.username), d);
        SeenAfterProcessing(TablesOf(s, d), item.id, item.username);
      }
    case _ =>
  }

  lemma SeenInExtension(before: seq<DeletionEvent>, after: seq<DeletionEvent>, id: string)
    requires |before| <= |after| && after[..|before|] == before && Seen(before, id)
    ensures Seen(after, id)
  {
    var i :| 0 <= i < |before| && before[i].id == id;
    assert after[i] == before[i];
  }

  lemma AllSeenInExtension(before: seq<DeletionEvent>, after: seq<DeletionEvent>)
    requires |before| <= |after| && after[..|before|] == before
    ensures forall ids :: AllSeen(before, ids) ==> AllSeen(after, ids)
  {
    forall ids | AllSeen(before, ids) ensures AllSeen(after, ids) {
      forall i | 0 <= i < |ids| ensures Seen(after, ids[i]) { SeenInExtension(before, after, ids[i]); }
    }
  }

  lemma EntriesStayPut(s: State, a: Action, d: Pipeline.Deps)
    requires EntriesWerePut(s) && Enabled(s, a)
    ensures EntriesWerePut(After(s, a, d)) && s.put <= After(s, a, d).put
  {
  }

  lemma EventsStaySound(s: State, a: Action, d: Pipeline.Deps)
    requires Safe(s, d) && Enabled(s, a)
    ensures NoDuplicates(TablesOf(After(s, a, d), d).events)
    ensures EventsWerePut(After(s, a, d), TablesOf(After(s, a, d), d).events)
  {
    hide Runs.Run, TablesOf;
    var s' := After(s, a, d);
    var before, after := TablesOf(s, d).events, TablesOf(s', d).events;
    EventsGrow(s, a, d);
    EntriesStayPut(s, a, d);
    forall i | 0 <= i < |after| ensures WasPut(s', after[i].id) {
      if i < |before| {
        assert after[i] == before[i];
        var entry :| entry in s.put && entry.id == before[i].id;
        assert entry in s'.put;
      } else {
        var x := ProcessOf(s, a.p);
        assert x.pending[x.next] in s'.put;
      }
    }
    forall i, j | 0 <= i < j < |after| ensures after[i].id != after[j].id {
      assert after[i] == before[i];
      assert j < |before| ==> after[j] == before[j];
    }
  }

  lemma AcksStayCommitted(s: State, a: Action, d: Pipeline.Deps)
    requires Safe(s, d) && Enabled(s, a)
    ensures AcksAreCommitted(After(s, a, d), TablesOf(After(s, a, d), d).events)
  {
    hide Runs.Run, TablesOf;
    var before, after := TablesOf(s, d).events, TablesOf(After(s, a, d), d).events;
    EventsGrow(s, a, d);
    AllSeenInExtension(before, after);
  }

  lemma StepIsSafe(s: State, a: Action, d: Pipeline.Deps)
    requires Safe(s, d) && Enabled(s, a)
    ensures Safe(After(s, a, d), d)
  {
    hide TablesOf, After, Enabled, NoDuplicates, AcksAreCommitted, EventsWerePut, EntriesWerePut;
    EventsStaySound(s, a, d);
    AcksStayCommitted(s, a, d);
    EntriesStayPut(s, a, d);
  }

  lemma StartIsSafe(d: Pipeline.Deps)
    ensures Safe(START, d)
  {
    assert TablesOf(START, d) == Runs.EMPTY.db;
  }

  /** In every interleaving of redeliveries, expiry, drains, crashes, other table work and lost,
      late or repeated acknowledgements: each notification id has at most one events row, only
      queued accounts are ever processed, and an acknowledgement names only committed ids. */
  lemma {:induction false} ReachableIsSafe(actions: seq<Action>, d: Pipeline.Deps)
    ensures Safe(RunOf(actions, d), d)
  {
    hide Safe, After, Enabled;
    if actions == [] {
      StartIsSafe(d);
    } else {
      var s := RunOf(actions[..|actions| - 1], d);
      ReachableIsSafe(actions[..|actions| - 1], d);
      if Enabled(s, actions[|actions| - 1]) {
        StepIsSafe(s, actions[|actions| - 1], d);
      }
    }
  }

  /** An id leaves the Worker's queue only by its own expiry, or after its event was committed. */
  lemma UnprocessedLeavesOnlyByExpiry(s: State, a: Action, id: string, d: Pipeline.Deps)
    requires Safe(s, d) && Enabled(s, a)
    requires id in s.queue && id !in After(s, a, d).queue
    ensures a == Expire(id) || (a.DeliverAck? && id in a.removed && Seen(TablesOf(s, d).events, id))
  {
    hide Runs.Run, TablesOf;
    if a.DeliverAck? {
      var i :| 0 <= i < |a.ids| && a.ids[i] == id;
      assert AllSeen(TablesOf(s, d).events, a.ids);
    }
  }

  /** A committed id stays committed. */
  lemma SeenStays(s: State, a: Action, id: string, d: Pipeline.Deps)
    requires Enabled(s, a) && Seen(TablesOf(s, d).events, id)
    ensures Seen(TablesOf(After(s, a, d), d).events, id)
  {
    EventsGrow(s, a, d);
    hide Runs.Run, TablesOf, After;
    SeenInExtension(TablesOf(s, d).events, TablesOf(After(s, a, d), d).events, id);
  }

  /** Exactly-once effect: whatever the deliveries, the rows counted by the events of a reachable
      state are the distinct rows erased, and each is still erased. */
  lemma ReachableErasure(actions: seq<Action>, d: Pipeline.Deps)
    ensures var s := RunOf(actions, d);
      var erased := Erasure.ErasedIn(Runs.EMPTY, s.taken, d);
      && NoDuplicates(TablesOf(s, d).events)
      && Erasure.TotalScrubbed(TablesOf(s, d).events) == |erased|
      && forall k :: k in erased ==> Erasure.IsErased(TablesOf(s, d).listings, k)
  {
    var s := RunOf(actions, d);
    ReachableIsSafe(actions, d);
    hide Runs.Run;
    Erasure.ScrubbedRowsAreConserved(Runs.EMPTY, s.taken, d);
    Erasure.ErasureIsPermanent(Runs.EMPTY, s.taken, d);
  }

  predicate OnlyNotified(s: State) {
    forall i :: 0 <= i < |s.taken| && s.taken[i].Delete? ==>
      Pending(s.taken[i].id, s.taken[i].username) in s.put
  }

  /** No seller is erased without a queued notification for that very id and name. */
  lemma {:induction false} OnlyNotifiedAreErased(actions: seq<Action>, d: Pipeline.Deps)
    ensures EntriesWerePut(RunOf(actions, d)) && OnlyNotified(RunOf(actions, d))
  {
    if actions != [] {
      var n := |actions| - 1;
      var s := RunOf(actions[..n], d);
      OnlyNotifiedAreErased(actions[..n], d);
      if Enabled(s, actions[n]) {
        EntriesStayPut(s, actions[n], d);
      }
    }
  }

  predicate FollowsTheLoop(x: Process) {
    x.Draining? ==> x.next <= |x.pending| && x.done == DoneIds(x.pending[..x.next])
  }

  lemma IdleFollows(p: nat)
    ensures FollowsTheLoop(ProcessOf(START, p))
  {
  }

  lemma StepFollowsTheLoop(s: State, a: Action, d: Pipeline.Deps, p: nat)
    requires Enabled(s, a) && FollowsTheLoop(ProcessOf(s, p))
    ensures FollowsTheLoop(ProcessOf(After(s, a, d), p))
  {
    hide PossibleAnswer;
    var x := ProcessOf(s, p);
    if a == ProcessNext(p) {
      assert x.pending[..x.next + 1][..x.next] == x.pending[..x.next];
    }
  }

  /** A process that is part-way has gathered the ids the loop of `drain` would have. */
  lemma {:induction false} ProcessesFollowTheLoop(actions: seq<Action>, d: Pipeline.Deps, p: nat)
    ensures FollowsTheLoop(ProcessOf(RunOf(actions, d), p))
  {
    hide FollowsTheLoop, After, Enabled, ProcessOf;
    if actions == [] {
      IdleFollows(p);
    } else {
      var n := |actions| - 1;
      ProcessesFollowTheLoop(actions[..n], d, p);
      if Enabled(RunOf(actions[..n], d), actions[n]) {
        StepFollowsTheLoop(RunOf(actions[..n], d), actions[n], d, p);
      }
    }
  }

  // A drain that is not interrupted.

  /** Pulling the same entries again, after a drain that did not raise, changes nothing and
      acknowledges them again: a lost acknowledgement costs no second effect. */
  lemma {:induction false} DrainIsIdempotent(db: Db, pending: seq<Pending>, again: seq<Pending>)
    requires !DrainAll(db, pending).raised && forall i :: 0 <= i < |again| ==> again[i] in pending
    ensures DrainAll(DrainAll(db, pending).db, again) == Pulled(DrainAll(db, pending).db, DoneIds(again), false)
  {
    if again != [] {
      var n := |again| - 1;
      DrainIsIdempotent(db, pending, again[..n]);
      DrainRaisesExactly(db, pending);
      var i :| 0 <= i < |pending| && pending[i] == again[n];
      if again[n].WellFormed() {
        assert Names(pending, again[n].id);
      }
    }
  }

  predicate NoRowsOf(listings: map<Key, ListingRow>, username: string) {
    forall k :: k in listings && k.0 == "ebay" ==> listings[k].seller != Some(username)
  }

  /** A completed drain leaves no row of a seller it was told to erase, whatever else it pulled,
      unless that id was committed before. */
  lemma {:induction false} DrainErasesSellers(db: Db, pending: seq<Pending>, i: nat)
    requires i < |pending| && pending[i].WellFormed() && !DrainAll(db, pending).raised
    requires !Seen(db.events, pending[i].id)
    requires forall j :: 0 <= j < i ==> pending[j].id != pending[i].id
    ensures NoRowsOf(DrainAll(db, pending).db.listings, pending[i].username)
  {
    var n := |pending| - 1;
    hide Scrubbable;
    if i == n {
      DrainRaisesExactly(db, pending[..n]);
      assert !Names(pending[..n], pending[i].id);
    } else {
      DrainErasesSellers(db, pending[..n], i);
    }
  }

  lemma StepStaysBlocked(st: Runs.State, s: Runs.Step, d: Pipeline.Deps, id: string, username: string)
    requires Raises(st.db, id, username) && (s.Delete? && s.id == id ==> s.username == username)
    ensures Raises(Runs.Apply(st, s, d).db, id, username)
  {
    match s
    case Collect(l, w, c) =>
      var k :| k in st.db.listings && SoldBy(k, st.db.listings[k], username) && st.db.listings[k].payload.Corrupt?;
      Runs.CollectListings(Runs.Settled(st), l, w, d, c);
      hide Pipeline.Attempted, RateLimit.PriceDropped;
      var after := Runs.Apply(st, s, d).db.listings;
      assert k in after && after[k].seller == st.db.listings[k].seller && after[k].payload == st.db.listings[k].payload;
    case Delete(other, name) =>
      if !Raises(st.db, other, name) {
        ScrubbingSparesOthers(st.db, other, name, username);
        SeenExactly(st.db, other, name, id);
      }
    case _ =>
  }

  /** Once a seller's payload is corrupt, its deletion keeps raising: over any further run, unless
      the id is spent on another name. So no drain that pulls it ever acknowledges anything. */
  lemma {:induction false} CorruptPayloadBlocks(st: Runs.State, steps: seq<Runs.Step>, d: Pipeline.Deps, id: string, username: string)
    requires Raises(st.db, id, username)
    requires forall i :: 0 <= i < |steps| && steps[i].Delete? && steps[i].id == id ==> steps[i].username == username
    ensures Raises(Runs.Run(st, steps, d).db, id, username)
  {
    hide Runs.Apply, Raises;
    if steps != [] {
      CorruptPayloadBlocks(st, steps[..|steps| - 1], d, id, username);
      StepStaysBlocked(Runs.Run(st, steps[..|steps| - 1], d), steps[|steps| - 1], d, id, username);
    }
  }

  // A drain process nobody disturbs.

  function Turns(p: nat, n: nat): seq<Action> {
    if n == 0 then [] else Turns(p, n - 1) + [ProcessNext(p)]
  }

  /** The state after a sequence of actions from `s`, disabled ones changing nothing. */
  function RunFrom(s: State, actions: seq<Action>, d: Pipeline.Deps): State {
    if actions == [] then s
    else
      var t := RunFrom(s, actions[..|actions| - 1], d);
      var a := actions[|actions| - 1];
      if Enabled(t, a) then After(t, a, d) else t
  }

  lemma LoopStep(db: Db, answer: seq<Pending>, n: nat)
    requires 0 < n <= |answer| && !DrainAll(db, answer[..n]).raised
    ensures var before, item := DrainAll(db, answer[..n - 1]), answer[n - 1];
      && !before.raised
      && (item.WellFormed() ==> !Raises(before.db, item.id, item.username))
      && DrainAll(db, answer[..n]).db ==
           (if item.WellFormed() then ProcessDeletion(before.db, item.id, item.username) else before.db)
      && DoneIds(answer[..n]) == DoneIds(answer[..n - 1]) + (if item.WellFormed() then [item.id] else [])
  {
    assert answer[..n][..n - 1] == answer[..n - 1];
    hide Raises, ProcessDeletion;
  }

  lemma TablesFollowTaken(s: State, t: State, d: Pipeline.Deps)
    ensures s.taken == t.taken ==> TablesOf(s, d) == TablesOf(t, d)
  {
  }

  lemma TurnIsOneEntry(t: State, p: nat, d: Pipeline.Deps)
    requires Enabled(t, ProcessNext(p))
    ensures var x := ProcessOf(t, p); var item := x.pending[x.next]; var after := After(t, ProcessNext(p), d);
      !(item.WellFormed() && Raises(TablesOf(t, d), item.id, item.username)) ==>
        && ProcessOf(after, p) == x.(next := x.next + 1, done := if item.WellFormed() then x.done + [item.id] else x.done)
        && TablesOf(after, d) == (if item.WellFormed() then ProcessDeletion(TablesOf(t, d), item.id, item.username) else TablesOf(t, d))
        && after.queue == t.queue && after.acks == t.acks
  {
    var x := ProcessOf(t, p);
    var item := x.pending[x.next];
    TakenStep(t, Runs.Delete(item.id, item.username), d);
    TablesFollowTaken(t, After(t, ProcessNext(p), d), d);
    hide Runs.Run;
  }

  /** After `n` turns: what the loop of `drain` has done after `n` entries. */
  predicate HasTurned(s: State, t: State, p: nat, answer: seq<Pending>, n: nat, d: Pipeline.Deps)
    requires n <= |answer|
  {
    && ProcessOf(t, p) == Draining(answer, n, DoneIds(answer[..n]))
    && TablesOf(t, d) == DrainAll(TablesOf(s, d), answer[..n]).db
    && t.queue == s.queue && t.acks == s.acks
  }

  lemma OneMoreTurn(s: State, t: State, p: nat, answer: seq<Pending>, n: nat, d: Pipeline.Deps)
    requires 0 < n <= |answer| && !DrainAll(TablesOf(s, d), answer[..n]).raised
    requires HasTurned(s, t, p, answer, n - 1, d)
    ensures Enabled(t, ProcessNext(p)) && HasTurned(s, After(t, ProcessNext(p), d), p, answer, n, d)
  {
    LoopStep(TablesOf(s, d), answer, n);
    TurnIsOneEntry(t, p, d);
    hide TablesOf, After, DrainAll, DoneIds, Raises, ProcessDeletion;
  }

  /** Turn by turn it does what the loop of `drain` does, while nothing raises. */
  lemma {:induction false} TurnsAreTheLoop(s: State, p: nat, answer: seq<Pending>, n: nat, d: Pipeline.Deps)
    requires n <= |answer| && !DrainAll(TablesOf(s, d), answer[..n]).raised
    requires ProcessOf(s, p) == Draining(answer, 0, [])
    ensures HasTurned(s, RunFrom(s, Turns(p, n), d), p, answer, n, d)
  {
    if n == 0 {
      assert answer[..0] == [];
    } else {
      LoopStep(TablesOf(s, d), answer, n);
      hide TablesOf, After, DrainAll, DoneIds, HasTurned, Enabled;
      TurnsAreTheLoop(s, p, answer, n - 1, d);
      OneMoreTurn(s, RunFrom(s, Turns(p, n - 1), d), p, answer, n, d);
      assert Turns(p, n)[..|Turns(p, n)| - 1] == Turns(p, n - 1);
    }
  }

  /** The ids whose entries a completed drain acknowledges, as the Worker deletes them. */
  function Acknowledged(answer: seq<Pending>): set<string> { set id | id in DoneIds(answer) }

  lemma AcknowledgedExactly(answer: seq<Pending>)
    ensures forall id :: id in Acknowledged(answer) ==> id in DoneIds(answer)
    ensures forall id :: Names(answer, id) ==> id in Acknowledged(answer)
  {
    forall id | Names(answer, id) ensures id in Acknowledged(answer) { DoneExactly(answer, id); }
  }

  lemma AcknowledgedNext(t: State, p: nat, d: Pipeline.Deps)
    requires Enabled(t, Acknowledge(p)) && ProcessOf(t, p).done != []
    ensures var acked := After(t, Acknowledge(p), d);
      ProcessOf(acked, p) == Idle && ProcessOf(t, p).done in acked.acks
  {
  }

  lemma DeliveredNext(s: State, ids: seq<string>, removed: set<string>, d: Pipeline.Deps)
    requires ids in s.acks && forall id :: id in removed ==> id in ids
    ensures Enabled(s, DeliverAck(ids, removed))
    ensures forall id :: id in removed ==> id !in After(s, DeliverAck(ids, removed), d).queue
  {
  }

  lemma AcknowledgingClears(t: State, p: nat, answer: seq<Pending>, d: Pipeline.Deps)
    requires ProcessOf(t, p) == Draining(answer, |answer|, DoneIds(answer)) && DoneIds(answer) != []
    ensures Enabled(t, Acknowledge(p))
    ensures var acked := After(t, Acknowledge(p), d);
      && ProcessOf(acked, p) == Idle && DoneIds(answer) in acked.acks
      && Enabled(acked, DeliverAck(DoneIds(answer), Acknowledged(answer)))
      && forall id :: Names(answer, id) ==> id !in After(acked, DeliverAck(DoneIds(answer), Acknowledged(answer)), d).queue
  {
    AcknowledgedExactly(answer);
    hide DoneIds, Names, Acknowledged, TablesOf;
    AcknowledgedNext(t, p, d);
    var acked := After(t, Acknowledge(p), d);
    DeliveredNext(acked, DoneIds(answer), Acknowledged(answer), d);
    hide After;
  }

  /** Progress: a drain that is not disturbed and does not raise acknowledges every well-formed entry
      it pulled, and once the acknowledgement is delivered none of those ids is queued. */
  lemma UndisturbedDrainClears(s: State, p: nat, answer: seq<Pending>, d: Pipeline.Deps)
    requires ProcessOf(s, p) == Idle && PossibleAnswer(s, answer)
    requires !DrainAll(TablesOf(s, d), answer).raised && DoneIds(answer) != []
    ensures var t := RunFrom(After(s, Pull(p, answer), d), Turns(p, |answer|), d);
      && Enabled(t, Acknowledge(p))
      && var acked := After(t, Acknowledge(p), d);
      && TablesOf(acked, d) == DrainAll(TablesOf(s, d), answer).db
      && ProcessOf(acked, p) == Idle && DoneIds(answer) in acked.acks
      && Enabled(acked, DeliverAck(DoneIds(answer), Acknowledged(answer)))
      && forall id :: Names(answer, id) ==> id !in After(acked, DeliverAck(DoneIds(answer), Acknowledged(answer)), d).queue
  {
    var pulled := After(s, Pull(p, answer), d);
    var t := RunFrom(pulled, Turns(p, |answer|), d);
    assert answer[..|answer|] == answer;
    TablesFollowTaken(s, pulled, d);
    TurnsAreTheLoop(pulled, p, answer, |answer|, d);
    AcknowledgingClears(t, p, answer, d);
    TablesFollowTaken(t, After(t, Acknowledge(p), d), d);
    hide TablesOf, RunFrom, Turns, DrainAll, DoneIds, Names, PossibleAnswer;
  }
}
