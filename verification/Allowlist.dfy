/** The seller filter: RamTracker publishes the sellers it tracks, Worker isolates cache the list. */
module Allowlist {
  import opened Models

  const TTL_MS := 300_000

  type Names = set<string>

  /** The isolate's module-level variable. */
  datatype IsolateCache = IsolateCache(names: Option<Names>, at: int)

  /** A read of the stored list: it may fail, or answer a list or nothing. */
  datatype Read = Fails | Answers(list: Option<Names>)

  predicate Stale(c: IsolateCache, now: int) { c.names.None? || now - c.at > TTL_MS }

  function Refreshed(c: IsolateCache, now: int, r: Read): IsolateCache {
    if Stale(c, now) && r.Answers? && r.list.Some? then IsolateCache(r.list, now) else c
  }

  /** Without any list at hand the filter lets everything through. */
  predicate Tracked(c: IsolateCache, username: string) {
    c.names.None? || username in c.names.value
  }

  /** A list up to five minutes old is used without a read; an older one is reread, and kept if the
      read fails. */
  lemma ReadExactlyWhenOld(c: IsolateCache, now: int, r: Read)
    ensures c.names.Some? && now - c.at <= 300_000 ==> Refreshed(c, now, r) == c
    ensures c.names.None? || now - c.at > 300_000 ==>
      Refreshed(c, now, r) == if r.Answers? && r.list.Some? then IsolateCache(r.list, now) else c
  {
  }

  class Isolate {
    var cache: IsolateCache

    constructor ()
      ensures cache == IsolateCache(None, 0)
    {
      cache := IsolateCache(None, 0);
    }

    method IsTracked(username: string, now: int, read: Read) returns (tracked: bool)
      modifies this
      ensures cache == Refreshed(old(cache), now, read)
      ensures tracked == Tracked(cache, username)
    {
      if cache.names.None? || now - cache.at > TTL_MS {
        match read
        case Answers(list) =>
          if list.Some? {
            cache := IsolateCache(list, now);
          } else if cache.names.None? {
            return true;
          }
        case Fails =>
          if cache.names.None? {
            return true;
          }
      }
      tracked := username in cache.names.value;
    }

    /** `POST /allowlist`, after the list was written. */
    method Accept(names: Names, now: int)
      modifies this
      ensures cache == IsolateCache(Some(names), now)
    {
      cache := IsolateCache(Some(names), now);
    }
  }

  /** What becomes of one publication. */
  datatype Fate = NotAccepted | Confirmed | ResponseLost

  /** RamTracker's side: the marker file remembers the digest of the last confirmed list; the
      digest is injective on sets of names. */
  class Publisher {
    var marker: Option<Names>

    constructor ()
      ensures marker == None
    {
      marker := None;
    }

    method Push(sellers: Names, fate: Fate) returns (requested: bool, count: nat)
      modifies this
      ensures requested <==> old(marker) != Some(sellers)
      ensures marker == if requested && fate == Confirmed then Some(sellers) else old(marker)
      ensures count == if requested && fate == Confirmed then |sellers| else 0
    {
      if marker == Some(sellers) {
        return false, 0;
      }
      requested := true;
      if fate != Confirmed {
        return true, 0;
      }
      marker := Some(sellers);
      count := |sellers|;
    }
  }

  /** A list the store held until another replaced it. */
  datatype Retired = Retired(list: Names, until: int)

  /** The whole: `stored` is what the Worker's store holds, `past` what it held before, `sellers` the
      names RamTracker last read from its tables. */
  datatype State = State(
    stored: Option<Names>,
    past: set<Retired>,
    isolates: map<nat, IsolateCache>,
    sellers: Names,
    marker: Option<Names>,
    clock: int)

  datatype Action =
    | SellersBecome(sellers: Names)
    | Publish(isolate: nat, now: int, fate: Fate)
    | Filter(isolate: nat, now: int, username: string, read: Read)

  const START := State(None, {}, map[], {}, None, 0)

  function CacheOf(s: State, i: nat): IsolateCache {
    if i in s.isolates then s.isolates[i] else IsolateCache(None, 0)
  }

  /** At `since` or later there was a moment when the store held the list. */
  predicate HeldSince(s: State, list: Names, since: int) {
    s.stored == Some(list) || exists r :: r in s.past && r.list == list && r.until >= since
  }

  /** The clock is monotone. A request is only sent when the marker differs from the current sellers.
      A read that answers a list answers one the store held at most `lag` ago. */
  predicate Enabled(s: State, a: Action, lag: nat) {
    match a
    case SellersBecome(_) => true
    case Publish(_, now, _) => s.clock <= now && s.marker != Some(s.sellers)
    case Filter(_, now, _, read) =>
      s.clock <= now && (read.Answers? && read.list.Some? ==> HeldSince(s, read.list.value, now - lag))
  }

  function After(s: State, a: Action): State {
    match a
    case SellersBecome(sellers) => s.(sellers := sellers)
    case Publish(i, now, fate) =>
      if fate == NotAccepted then s.(clock := now)
      else s.(stored := Some(s.sellers),
              past := s.past + if s.stored.Some? then {Retired(s.stored.value, now)} else {},
              isolates := s.isolates[i := IsolateCache(Some(s.sellers), now)],
              marker := if fate == Confirmed then Some(s.sellers) else s.marker,
              clock := now)
    case Filter(i, now, _, read) =>
      s.(isolates := s.isolates[i := Refreshed(CacheOf(s, i), now, read)], clock := now)
  }

  function RunOf(actions: seq<Action>): State {
    if actions == [] then START else After(RunOf(actions[..|actions| - 1]), actions[|actions| - 1])
  }

  predicate Possible(actions: seq<Action>, lag: nat) {
    actions == [] ||
    (Possible(actions[..|actions| - 1], lag) && Enabled(RunOf(actions[..|actions| - 1]), actions[|actions| - 1], lag))
  }

  // How old a list can be that an isolate goes by.

  /** Every cached list was in the store at the cache's own instant, give or take the lag of reads. */
  predicate CachesWereHeld(s: State, lag: nat) {
    && (forall r :: r in s.past ==> r.until <= s.clock)
    && forall i :: i in s.isolates && s.isolates[i].names.Some? ==>
      s.isolates[i].at <= s.clock && HeldSince(s, s.isolates[i].names.value, s.isolates[i].at - lag)
  }

  /** What was held since an instant that has passed stays held since then. */
  lemma HeldStaysHeld(s: State, a: Action, lag: nat, list: Names, since: int)
    requires Enabled(s, a, lag) && HeldSince(s, list, since) && since <= s.clock
    ensures HeldSince(After(s, a), list, since)
  {
    if a.Publish? && a.fate != NotAccepted {
      if s.stored == Some(list) {
        assert Retired(list, a.now) in After(s, a).past;
      } else {
        var r :| r in s.past && r.list == list && r.until >= since;
        assert r in After(s, a).past;
      }
    }
  }

  lemma StepKeepsCachesHeld(s: State, a: Action, lag: nat)
    requires CachesWereHeld(s, lag) && Enabled(s, a, lag)
    ensures CachesWereHeld(After(s, a), lag)
  {
    var s' := After(s, a);
    forall i | i in s'.isolates && s'.isolates[i].names.Some?
      ensures s'.isolates[i].at <= s'.clock && HeldSince(s', s'.isolates[i].names.value, s'.isolates[i].at - lag)
    {
      if i in s.isolates && s'.isolates[i] == s.isolates[i] {
        HeldStaysHeld(s, a, lag, s.isolates[i].names.value, s.isolates[i].at - lag);
      }
    }
  }

  lemma {:induction false} CachesWereHeldAlways(actions: seq<Action>, lag: nat)
    requires Possible(actions, lag)
    ensures CachesWereHeld(RunOf(actions), lag)
  {
    if actions != [] {
      var n := |actions| - 1;
      CachesWereHeldAlways(actions[..n], lag);
      StepKeepsCachesHeld(RunOf(actions[..n]), actions[n], lag);
    }
  }

  /** The isolate goes by a list that is fresh, or that this very read has refreshed. */
  predicate IsCurrent(s: State, a: Action)
    requires a.Filter?
  {
    !Stale(CacheOf(s, a.isolate), a.now) || (a.read.Answers? && a.read.list.Some?)
  }

  /** The filter drops a notification only if a list lacks the name that the store held since the
      isolate's last refresh; and since at most the five minutes of its cache, plus the lag of
      reads, unless the list had grown stale and this read failed or found nothing. */
  lemma DropIsExplained(s: State, a: Action, lag: nat)
    requires CachesWereHeld(s, lag) && Enabled(s, a, lag) && a.Filter?
    requires !Tracked(CacheOf(After(s, a), a.isolate), a.username)
    ensures var at := CacheOf(After(s, a), a.isolate).at;
      && (IsCurrent(s, a) ==> at >= a.now - 300_000)
      && exists list :: a.username !in list && HeldSince(s, list, at - lag)
  {
    var c := CacheOf(After(s, a), a.isolate);
    assert a.username !in c.names.value && HeldSince(s, c.names.value, c.at - lag);
  }

  /** So with any number of isolates, a notification filtered by a current list is dropped only if a
      list lacks the name that the store held within the last five minutes plus the lag of reads;
      and never before a first publication. */
  lemma DropsOnlyWhatARecentListLacks(actions: seq<Action>, a: Action, lag: nat)
    requires Possible(actions, lag) && Enabled(RunOf(actions), a, lag) && a.Filter? && IsCurrent(RunOf(actions), a)
    requires !Tracked(CacheOf(After(RunOf(actions), a), a.isolate), a.username)
    ensures exists list :: a.username !in list && HeldSince(RunOf(actions), list, a.now - 300_000 - lag)
    ensures RunOf(actions).stored.Some? || RunOf(actions).past != {}
  {
    CachesWereHeldAlways(actions, lag);
    DropIsExplained(RunOf(actions), a, lag);
    var at := CacheOf(After(RunOf(actions), a), a.isolate).at;
    var list :| a.username !in list && HeldSince(RunOf(actions), list, at - lag);
    assert HeldSince(RunOf(actions), list, a.now - 300_000 - lag);
  }

  // A name that is on every list from some publication on.

  /** Since after `since` the store has held lists with the name only. */
  predicate ListedSince(s: State, username: string, since: int) {
    && s.stored.Some? && username in s.stored.value
    && forall r :: r in s.past && r.until > since ==> username in r.list
  }

  lemma PublishedIsListed(s: State, a: Action, lag: nat, username: string)
    requires CachesWereHeld(s, lag) && Enabled(s, a, lag)
    requires a.Publish? && a.fate != NotAccepted && username in s.sellers
    ensures ListedSince(After(s, a), username, a.now)
  {
  }

  lemma ListedStaysListed(s: State, a: Action, username: string, since: int)
    requires ListedSince(s, username, since) && (a.Publish? && a.fate != NotAccepted ==> username in s.sellers)
    ensures ListedSince(After(s, a), username, since)
  {
  }

  /** Once the lists without the name are more than the cache's five minutes and the lag in the past,
      every current isolate tracks it. */
  lemma ListedIsTracked(s: State, a: Action, lag: nat, since: int)
    requires CachesWereHeld(s, lag) && Enabled(s, a, lag) && a.Filter? && IsCurrent(s, a)
    requires ListedSince(s, a.username, since) && a.now - 300_000 - lag > since
    ensures Tracked(CacheOf(After(s, a), a.isolate), a.username)
  {
    if !Tracked(CacheOf(After(s, a), a.isolate), a.username) {
      DropIsExplained(s, a, lag);
    }
  }

  // The marker.

  /** The marker tells the truth about the store. */
  predicate Synced(s: State) { s.marker.Some? ==> s.stored == s.marker }

  /** The fate of the last publication the Worker accepted. */
  function LastAccepted(actions: seq<Action>): Option<Fate> {
    if actions == [] then None
    else
      var a := actions[|actions| - 1];
      if a.Publish? && a.fate != NotAccepted then Some(a.fate) else LastAccepted(actions[..|actions| - 1])
  }

  /** Over any run, the marker tells the truth if and only if there is none yet or the last accepted
      publication was confirmed: one lost response breaks it, the next confirmed one repairs it. */
  lemma {:induction false} SyncedExactly(actions: seq<Action>, lag: nat)
    requires Possible(actions, lag)
    ensures Synced(RunOf(actions)) <==> RunOf(actions).marker.None? || LastAccepted(actions) == Some(Confirmed)
    ensures RunOf(actions).stored == None <==> LastAccepted(actions) == None
    ensures LastAccepted(actions) == Some(Confirmed) ==> RunOf(actions).marker.Some?
    ensures LastAccepted(actions) == None ==> RunOf(actions).marker.None?
  {
    if actions != [] {
      SyncedExactly(actions[..|actions| - 1], lag);
    }
  }

  /** So when the marker matches the current sellers and nothing is sent, the store holds exactly
      them if and only if the last accepted publication was confirmed. */
  lemma MatchingMarkerIsTrueExactly(actions: seq<Action>, lag: nat)
    requires Possible(actions, lag) && RunOf(actions).marker == Some(RunOf(actions).sellers)
    ensures RunOf(actions).stored == Some(RunOf(actions).sellers) <==> LastAccepted(actions) == Some(Confirmed)
  {
    SyncedExactly(actions, lag);
  }

  /** The marker matches the current sellers, so nothing is published; the store holds others. */
  predicate Fooled(s: State) { s.marker == Some(s.sellers) && s.stored != s.marker }

  /** And without that condition it can lie: publish A, publish B losing the response, return to A. */
  lemma LostResponseFoolsTheMarker(a: Names, b: Names, lag: nat)
    requires a != b
    ensures exists actions :: Possible(actions, lag) && Fooled(RunOf(actions))
  {
    var s1 := [SellersBecome(a)];
    var s2 := s1 + [Publish(0, 0, Confirmed)];
    var s3 := s2 + [SellersBecome(b)];
    var s4 := s3 + [Publish(0, 0, ResponseLost)];
    var s5 := s4 + [SellersBecome(a)];
    assert s1[..0] == [] && s2[..1] == s1 && s3[..2] == s2 && s4[..3] == s3 && s5[..4] == s4;
    assert Possible([], lag) && RunOf([]) == START;
    assert Possible(s1, lag) && Possible(s2, lag) && Possible(s3, lag) && Possible(s4, lag) && Possible(s5, lag);
    assert RunOf(s5).marker == Some(a) && RunOf(s5).stored == Some(b) && RunOf(s5).sellers == a;
  }
}
