/** The per-source circuit breaker with exponential backoff. Instants and delays are minutes. */
module Breaker {
  import opened Models

  const FAILURES_BEFORE_OPEN := 3
  const JITTER := 0.15

  datatype SourceState = SourceState(failures: nat, openUntil: Option<real>)

  const CLOSED := SourceState(0, None)

  type States = map<string, SourceState>

  function Lookup(states: States, source: string): SourceState {
    if source in states then states[source] else CLOSED
  }

  /** Base delay after the n-th consecutive failure. */
  function Backoff(n: nat): int {
    if n <= 1 then 15 else if n == 2 then 60 else if n == 3 then 240 else 720
  }

  function Delay(n: nat, jitter: real): real { Backoff(n) as real + jitter * Backoff(n) as real }

  predicate ValidJitter(jitter: real) { -JITTER <= jitter <= JITTER }

  predicate Allows(st: SourceState, now: real) {
    st.openUntil.None? || now >= st.openUntil.value
  }

  function Failed(st: SourceState, now: real, jitter: real): SourceState {
    SourceState(st.failures + 1, Some(now + Delay(st.failures + 1, jitter)))
  }

  /** What a fetch can end in. A changed schema is reported but recorded neither way. */
  datatype Fetch = Fetched | Blocked | SchemaChanged | AuthFailed | Unavailable

  function Recorded(st: SourceState, now: real, jitter: real, f: Fetch): SourceState {
    match f
    case Fetched => CLOSED
    case SchemaChanged => st
    case _ => Failed(st, now, jitter)
  }

  /** One scheduled cycle: skipped while the breaker forbids it, otherwise fetched and recorded. */
  datatype Cycle = Cycle(source: string, now: real, jitter: real, fetch: Fetch)

  function Step(states: States, c: Cycle): States {
    var st := Lookup(states, c.source);
    states[c.source := if Allows(st, c.now) then Recorded(st, c.now, c.jitter, c.fetch) else st]
  }

  function Run(cycles: seq<Cycle>): States {
    if cycles == [] then map[] else Step(Run(cycles[..|cycles| - 1]), cycles[|cycles| - 1])
  }

  class Breaker {
    var states: States

    constructor ()
      ensures states == map[]
    {
      states := map[];
    }

    /** `setdefault`: a source never heard of gets a closed state on first use. */
    method Get(source: string) returns (st: SourceState)
      modifies this
      ensures st == Lookup(old(states), source)
      ensures states == old(states)[source := st]
    {
      if source !in states {
        states := states[source := CLOSED];
      }
      st := states[source];
    }

    method Allow(source: string, now: real) returns (ok: bool)
      modifies this
      ensures ok == Allows(Lookup(old(states), source), now)
      ensures states == old(states)[source := Lookup(old(states), source)]
    {
      var st := Get(source);
      if st.openUntil.None? {
        return true;
      }
      if now >= st.openUntil.value {
        return true;
      }
      ok := false;
    }

    method RecordSuccess(source: string)
      modifies this
      ensures states == old(states)[source := CLOSED]
    {
      var st := Get(source);
      st := st.(failures := 0);
      st := st.(openUntil := None);
      states := states[source := st];
    }

    method RecordFailure(source: string, now: real, jitter: real) returns (justOpened: bool)
      modifies this
      ensures states == old(states)[source := Failed(Lookup(old(states), source), now, jitter)]
      ensures justOpened <==> Lookup(states, source).failures == FAILURES_BEFORE_OPEN
    {
      var st := Get(source);
      st := st.(failures := st.failures + 1);
      var backoff := [15, 60, 240, 720];
      var step := if st.failures - 1 < |backoff| - 1 then st.failures - 1 else |backoff| - 1;
      var base := backoff[step] as real;
      st := st.(openUntil := Some(now + (base + jitter * base)));
      justOpened := st.failures == FAILURES_BEFORE_OPEN;
      states := states[source := st];
    }

    method IsOpen(source: string, now: real) returns (open: bool)
      modifies this
      ensures var st := Lookup(old(states), source);
        open <==> !Allows(st, now) && st.failures >= FAILURES_BEFORE_OPEN
      ensures states == old(states)[source := Lookup(old(states), source)]
    {
      var st := Get(source);
      open := st.openUntil.Some? && now < st.openUntil.value && st.failures >= FAILURES_BEFORE_OPEN;
    }

    /** The breaker's part of `run_source`. Only a block that just opened the breaker is announced. */
    method RunSource(c: Cycle) returns (skipped: bool, announced: bool)
      modifies this
      ensures states == Step(old(states), c)
      ensures skipped <==> !Allows(Lookup(old(states), c.source), c.now)
      ensures announced <==>
        !skipped && c.fetch == Blocked && Lookup(old(states), c.source).failures + 1 == FAILURES_BEFORE_OPEN
    {
      announced := false;
      var allowed := Allow(c.source, c.now);
      if !allowed {
        return true, false;
      }
      skipped := false;
      match c.fetch
      case Fetched => RecordSuccess(c.source);
      case SchemaChanged =>
      case Blocked => announced := RecordFailure(c.source, c.now, c.jitter);
      case AuthFailed => var _ := RecordFailure(c.source, c.now, c.jitter);
      case Unavailable => var _ := RecordFailure(c.source, c.now, c.jitter);
    }
  }

  /** One source's own history: its state, the instants of the failures recorded since its last
      success, and how often in that streak a failure reported "just opened". */
  datatype History = History(state: SourceState, failedAt: seq<real>, openings: nat)

  function HistoryOf(cycles: seq<Cycle>, source: string): History {
    if cycles == [] then History(CLOSED, [], 0)
    else
      var h := HistoryOf(cycles[..|cycles| - 1], source);
      var c := cycles[|cycles| - 1];
      if c.source != source || !Allows(h.state, c.now) then h
      else
        var st := Recorded(h.state, c.now, c.jitter, c.fetch);
        if c.fetch == Fetched then History(st, [], 0)
        else if c.fetch == SchemaChanged then h
        else History(st, h.failedAt + [c.now],
                     h.openings + if st.failures == FAILURES_BEFORE_OPEN then 1 else 0)
  }

  /** Sources do not touch each other: in any mix, a source's state is that of its own history. */
  lemma {:induction false} SourcesAreIndependent(cycles: seq<Cycle>, source: string)
    ensures Lookup(Run(cycles), source) == HistoryOf(cycles, source).state
  {
    if cycles != [] {
      SourcesAreIndependent(cycles[..|cycles| - 1], source);
    }
  }

  /** Minutes the first `n` delays add up to at least, before jitter. */
  function TotalBackoff(n: nat): int {
    if n == 0 then 0 else TotalBackoff(n - 1) + Backoff(n)
  }

  lemma {:induction false} TotalBackoffClosedForm(n: nat)
    requires n >= 3
    ensures TotalBackoff(n) == 15 + 60 + 240 + 720 * (n - 3)
  {
    if n == 3 {
      assert TotalBackoff(1) == 15 && TotalBackoff(2) == 75;
    } else {
      TotalBackoffClosedForm(n - 1);
    }
  }

  lemma DelayBounds(n: nat, jitter: real)
    requires ValidJitter(jitter)
    ensures 0.85 * Backoff(n) as real <= Delay(n, jitter) <= 1.15 * Backoff(n) as real
  {
    var b := Backoff(n) as real;
    assert (jitter + 0.15) * b >= 0.0;
    assert (0.15 - jitter) * b >= 0.0;
  }

  /** What every run keeps, for one source. */
  ghost predicate Paced(h: History) {
    && h.state.failures == |h.failedAt|
    && h.openings == (if |h.failedAt| >= FAILURES_BEFORE_OPEN then 1 else 0)
    && (h.failedAt == [] ==> h.state == CLOSED)
    && (h.failedAt != [] ==>
          && h.state.openUntil.Some?
          && h.state.openUntil.value >= h.failedAt[0] + 0.85 * TotalBackoff(|h.failedAt|) as real
          && h.state.openUntil.value <= h.failedAt[|h.failedAt| - 1] + 1.15 * Backoff(|h.failedAt|) as real
          && h.failedAt[|h.failedAt| - 1] >= h.failedAt[0] + 0.85 * TotalBackoff(|h.failedAt| - 1) as real)
  }

  lemma {:induction false} RunsArePaced(cycles: seq<Cycle>, source: string)
    requires forall c :: c in cycles ==> ValidJitter(c.jitter)
    ensures Paced(HistoryOf(cycles, source))
  {
    if cycles != [] {
      var c := cycles[|cycles| - 1];
      RunsArePaced(cycles[..|cycles| - 1], source);
      DelayBounds(|HistoryOf(cycles[..|cycles| - 1], source).failedAt| + 1, c.jitter);
    }
  }

  /** For any jitter and any mix of sources, the n-th consecutive recorded failure of a source
      (n >= 4) comes at least 0.85 * (15 + 60 + 240 + 720 (n - 4)) minutes after the first, and a
      streak that reaches three has reported "just opened" exactly once. The clock need not even
      be monotone. */
  lemma FailuresAreSpacedOut(cycles: seq<Cycle>, source: string)
    requires forall c :: c in cycles ==> ValidJitter(c.jitter)
    ensures var h := HistoryOf(cycles, source); var n := |h.failedAt|;
      && (n >= 4 ==> h.failedAt[n - 1] - h.failedAt[0] >= 0.85 * (15 + 60 + 240 + 720 * (n - 4)) as real)
      && h.openings == (if n >= 3 then 1 else 0)
  {
    RunsArePaced(cycles, source);
    var n := |HistoryOf(cycles, source).failedAt|;
    if n >= 4 {
      TotalBackoffClosedForm(n - 1);
    }
  }

  /** Whatever the jitters, the delays strictly grow over the first four failures and stop growing
      in base after them. */
  lemma DelaysGrow(n: nat, jitter: real, next: real)
    requires 1 <= n && ValidJitter(jitter) && ValidJitter(next)
    ensures n < 4 ==> Delay(n, jitter) < Delay(n + 1, next)
    ensures n >= 4 ==> Backoff(n + 1) == Backoff(n)
  {
    DelayBounds(n, jitter);
    DelayBounds(n + 1, next);
  }

  /** Minutes after the n-th failure of a streak at which the source is surely tried again: the backoff
      and its largest jitter. */
  function LongestWait(n: nat): real {
    if n == 0 then 0.0 else if n == 1 then 17.25 else if n == 2 then 69.0 else if n == 3 then 276.0 else 828.0
  }

  /** A failed source is always tried again, in time: a cycle that comes late enough is not skipped,
      and counts. Success closes the streak, a failure of any kind lengthens it, a changed schema
      leaves it. */
  lemma RetriedInTime(cycles: seq<Cycle>, c: Cycle)
    requires forall x :: x in cycles ==> ValidJitter(x.jitter)
    requires var h := HistoryOf(cycles, c.source);
      h.failedAt != [] ==> c.now >= h.failedAt[|h.failedAt| - 1] + LongestWait(|h.failedAt|)
    ensures var before, after := HistoryOf(cycles, c.source), HistoryOf(cycles + [c], c.source);
      match c.fetch
      case Fetched => after.failedAt == [] && after.state == CLOSED
      case SchemaChanged => after == before
      case _ => after.failedAt == before.failedAt + [c.now] && after.state.failures == before.state.failures + 1
  {
    RunsArePaced(cycles, c.source);
    assert (cycles + [c])[..|cycles|] == cycles;
  }

  /** So its next state, in the breaker itself, is never the one it had, unless the schema changed. */
  lemma RetriedInTheBreaker(cycles: seq<Cycle>, c: Cycle)
    requires forall x :: x in cycles ==> ValidJitter(x.jitter)
    requires var h := HistoryOf(cycles, c.source);
      h.failedAt != [] ==> c.now >= h.failedAt[|h.failedAt| - 1] + LongestWait(|h.failedAt|)
    ensures c.fetch == Fetched ==> Lookup(Run(cycles + [c]), c.source) == SourceState(0, None)
    ensures c.fetch == Blocked || c.fetch == AuthFailed || c.fetch == Unavailable ==>
      Lookup(Run(cycles + [c]), c.source).failures == Lookup(Run(cycles), c.source).failures + 1
  {
    RetriedInTime(cycles, c);
    SourcesAreIndependent(cycles, c.source);
    SourcesAreIndependent(cycles + [c], c.source);
  }
}
