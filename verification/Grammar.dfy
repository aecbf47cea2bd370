/** The regular-expression grammar: module count, module capacity, total, price basis. A text is
    its `Scan`; the two capacity expressions are computed from the digit runs, so the relation
    between them is proved and not assumed. */
module Grammar {
  import opened Models

  const VALID_CAPACITIES: set<int> := {4, 8, 16, 32, 64, 128}
  const MAX_MULTIPLIER := 32
  const GENEROUS_COUNT_CEILING := 16

  function DigitsValue(digits: seq<nat>): nat {
    if digits == [] then 0
    else DigitsValue(digits[..|digits| - 1]) * 10 + digits[|digits| - 1]
  }

  /** `_CAPACITY_RE`: a word boundary, at most three digits, a unit. */
  function CapacityMatches(runs: seq<DigitRun>): seq<nat> {
    if runs == [] then []
    else
      var r := runs[0];
      var rest := CapacityMatches(runs[1..]);
      if r.unit && !r.glued && 1 <= |r.digits| <= 3 then [DigitsValue(r.digits)] + rest else rest
  }

  /** The first element of `findall`, which is what `search` returns. */
  function First<T>(matches: seq<T>): Option<T> {
    if matches == [] then None else Some(matches[0])
  }

  function SeqMax(s: seq<int>): (m: int)
    requires s != []
    ensures m in s
    ensures forall x :: x in s ==> x <= m
  {
    if |s| == 1 then s[0]
    else
      var rest := SeqMax(s[1..]);
      assert forall x :: x in s ==> x == s[0] || x in s[1..];
      if s[0] < rest then rest else s[0]
  }

  function SeqMin(s: seq<int>): (m: int)
    requires s != []
    ensures m in s
    ensures forall x :: x in s ==> m <= x
  {
    if |s| == 1 then s[0]
    else
      var rest := SeqMin(s[1..]);
      assert forall x :: x in s ==> x == s[0] || x in s[1..];
      if rest < s[0] then rest else s[0]
  }

  function Filter(s: seq<int>, keep: int -> bool): seq<int> {
    if s == [] then []
    else (if keep(s[0]) then [s[0]] else []) + Filter(s[1..], keep)
  }

  lemma {:induction false} FilterMember(s: seq<int>, keep: int -> bool, x: int)
    ensures x in Filter(s, keep) <==> x in s && keep(x)
  {
    if s == [] {
    } else {
      FilterMember(s[1..], keep, x);
    }
  }

  lemma FilterMembers(s: seq<int>, keep: int -> bool)
    ensures forall x :: x in Filter(s, keep) <==> x in s && keep(x)
  {
    forall x ensures x in Filter(s, keep) <==> x in s && keep(x) {
      FilterMember(s, keep, x);
    }
  }

  /** Several valid capacities: the largest is taken for an announced total and dropped. */
  function ModuleCapacity(runs: seq<DigitRun>): (c: Option<int>)
    ensures c.Some? ==> c.value in VALID_CAPACITIES && c.value in CapacityMatches(runs)
    ensures c.None? <==> forall x :: x in CapacityMatches(runs) ==> x !in VALID_CAPACITIES
  {
    var candidates := Filter(CapacityMatches(runs), x => x in VALID_CAPACITIES);
    FilterMembers(CapacityMatches(runs), x => x in VALID_CAPACITIES);
    if candidates == [] then None
    else
      assert candidates[0] in candidates;
      var largest := SeqMax(candidates);
      var modules := Filter(candidates, x => x != largest);
      FilterMembers(candidates, x => x != largest);
      if |candidates| >= 2 && largest > SeqMin(candidates) && modules != []
      then Some(SeqMax(modules))
      else Some(SeqMin(candidates))
  }

  predicate IsCandidate(runs: seq<DigitRun>, x: int) {
    x in CapacityMatches(runs) && x in VALID_CAPACITIES
  }

  /** Which capacity is taken: the second largest of the known sizes written, as the largest is the
      announced total, or the only one. Exactly one size above it, if any is below it. */
  lemma ModuleCapacityIsSecondLargest(runs: seq<DigitRun>)
    requires ModuleCapacity(runs).Some?
    ensures var c := ModuleCapacity(runs).value;
      && IsCandidate(runs, c)
      && (forall x, y :: IsCandidate(runs, x) && IsCandidate(runs, y) && x > c && y > c ==> x == y)
      && ((exists x :: IsCandidate(runs, x) && x < c) ==> exists y :: IsCandidate(runs, y) && y > c)
  {
    var candidates := Filter(CapacityMatches(runs), x => x in VALID_CAPACITIES);
    FilterMembers(CapacityMatches(runs), x => x in VALID_CAPACITIES);
    assert forall x :: x in candidates <==> IsCandidate(runs, x);
    assert candidates[0] in candidates;
    var largest := SeqMax(candidates);
    FilterMembers(candidates, x => x != largest);
    assert IsCandidate(runs, largest) && IsCandidate(runs, SeqMin(candidates));
    if largest > SeqMin(candidates) {
      assert SeqMin(candidates) in Filter(candidates, x => x != largest);
    }
  }

  lemma FilterAppend(s: seq<int>, x: int, keep: int -> bool)
    ensures Filter(s + [x], keep) == Filter(s, keep) + if keep(x) then [x] else []
  {
    if s == [] {
    } else {
      assert (s + [x])[1..] == s[1..] + [x];
      FilterAppend(s[1..], x, keep);
    }
  }

  /** The loop of `_capacity` over its matches. */
  method Capacity(runs: seq<DigitRun>) returns (c: Option<int>)
    ensures c == ModuleCapacity(runs)
  {
    var matches := CapacityMatches(runs);
    var candidates: seq<int> := [];
    for i := 0 to |matches|
      invariant candidates == Filter(matches[..i], x => x in VALID_CAPACITIES)
    {
      FilterAppend(matches[..i], matches[i], x => x in VALID_CAPACITIES);
      assert matches[..i + 1] == matches[..i] + [matches[i]];
      if matches[i] in VALID_CAPACITIES {
        candidates := candidates + [matches[i]];
      }
    }
    assert matches[..|matches|] == matches;
    if |candidates| >= 2 && SeqMax(candidates) > SeqMin(candidates) {
      var largest := SeqMax(candidates);
      var modules := Filter(candidates, x => x != largest);
      if modules != [] {
        return Some(SeqMax(modules));
      }
    }
    c := if candidates != [] then Some(SeqMin(candidates)) else None;
  }

  /** The pattern's first match is a plausible multiplier. */
  predicate Offers(matches: seq<nat>) {
    matches != [] && 1 <= matches[0] <= MAX_MULTIPLIER
  }

  /** The plain multiplier: each pattern offers its first match, and the first one within
      `1..32` wins. */
  function PlainCount(multipliers: seq<seq<nat>>): (c: Option<nat>)
    ensures c.Some? ==> 1 <= c.value <= 32
  {
    if multipliers == [] then None
    else if Offers(multipliers[0]) then Some(multipliers[0][0])
    else PlainCount(multipliers[1..])
  }

  /** The winner is the first match of the first pattern that offers one. */
  lemma {:induction false} PlainCountOrigin(multipliers: seq<seq<nat>>) returns (k: nat)
    requires PlainCount(multipliers).Some?
    ensures k < |multipliers| && Offers(multipliers[k]) && multipliers[k][0] == PlainCount(multipliers).value
    ensures forall j :: 0 <= j < k ==> multipliers[j] == [] || multipliers[j][0] < 1 || multipliers[j][0] > 32
  {
    if Offers(multipliers[0]) {
      k := 0;
    } else {
      k := PlainCountOrigin(multipliers[1..]);
      k := k + 1;
    }
  }

  function FirstNxm(s: Scan): Option<(nat, nat)> {
    if s.nxm != [] then Some(s.nxm[0]) else First(s.parensNxm)
  }

  /** The first N x M form counts only when its module size is a known capacity. */
  function UsableNxm(s: Scan): Option<(nat, nat)> {
    var nxm := FirstNxm(s);
    if nxm.Some? && nxm.value.1 in VALID_CAPACITIES then nxm else None
  }

  function Count(s: Scan): nat {
    if UsableNxm(s).Some? then UsableNxm(s).value.0
    else if PlainCount(s.multipliers).Some? then PlainCount(s.multipliers).value
    else 1
  }

  function CapacityOf(s: Scan): Option<int> {
    if UsableNxm(s).Some? then Some(UsableNxm(s).value.1) else ModuleCapacity(s.runs)
  }

  predicate CountExplicit(s: Scan) {
    UsableNxm(s).Some? || PlainCount(s.multipliers).Some?
  }

  /** The loop of `_count_and_capacity`, with its early exit. */
  method CountAndCapacity(s: Scan) returns (count: nat, capacity: Option<int>, isExplicit: bool)
    ensures count == Count(s) && capacity == CapacityOf(s) && isExplicit == CountExplicit(s)
  {
    var nxm := FirstNxm(s);
    if nxm.Some? {
      if nxm.value.1 in VALID_CAPACITIES {
        return nxm.value.0, Some(nxm.value.1), true;
      }
    }
    count, isExplicit := 1, false;
    var i := 0;
    while i < |s.multipliers|
      invariant 0 <= i <= |s.multipliers|
      invariant !isExplicit && count == 1
      invariant PlainCount(s.multipliers) == PlainCount(s.multipliers[i..])
    {
      var matches := s.multipliers[i];
      assert s.multipliers[i..][1..] == s.multipliers[i + 1..];
      if matches != [] && 1 <= matches[0] <= MAX_MULTIPLIER {
        count, isExplicit := matches[0], true;
        break;
      }
      i := i + 1;
    }
    capacity := Capacity(s.runs);
  }

  function ResolveTotal(capacity: Option<int>, count: nat, declared: Option<nat>): Option<int> {
    if declared.Some? then Some(declared.value)
    else if capacity.Some? then Some(capacity.value * count)
    else None
  }

  function BasisOf(s: Scan): PriceBasis {
    if s.unitMarker then Unit else if CountExplicit(s) then Lot else UnknownBasis
  }

  /** The sums of doubles the parser forms, by the shortest decimal of each result. The one that
      is not the exact sum is `0.6 + 0.1 + 0.1`. */
  function ConfidenceOf(capacity: bool, isExplicit: bool, kind: bool, speed: bool): (c: real)
    ensures 0.60 <= c <= 0.95
  {
    if capacity then
      (match (isExplicit, kind, speed)
       case (false, false, false) => 0.75
       case (false, false, true) => 0.80
       case (false, true, false) => 0.85
       case (false, true, true) => 0.90
       case (true, false, false) => 0.85
       case (true, false, true) => 0.90
       case (true, true, _) => 0.95)
    else
      (match (isExplicit, kind, speed)
       case (false, false, false) => 0.60
       case (false, false, true) => 0.65
       case (false, true, false) => 0.70
       case (false, true, true) => 0.75
       case (true, false, false) => 0.70
       case (true, false, true) => 0.75
       case (true, true, false) => 0.7999999999999999
       case (true, true, true) => 0.85)
  }

  function Parse(s: Scan): Spec {
    var capacity := CapacityOf(s);
    Spec(capacity, Count(s), ResolveTotal(capacity, Count(s), First(s.totals)), s.kind, s.speed, BasisOf(s),
         ConfidenceOf(capacity.Some?, CountExplicit(s), s.kind == Rdimm || s.kind == Lrdimm, s.speed.Some?),
         Rules, None)
  }

  function Lefts(pairs: seq<(nat, nat)>): seq<int> {
    if pairs == [] then [] else [pairs[0].0] + Lefts(pairs[1..])
  }

  function Flatten(lists: seq<seq<nat>>): seq<int> {
    if lists == [] then [] else lists[0] + Flatten(lists[1..])
  }

  /** The counts the generous reading collects: every N x M count, every multiplier match, every
      number word. */
  function GenerousCounts(s: Scan): seq<int> {
    Lefts(s.nxm) + Lefts(s.parensNxm) + Flatten(s.multipliers) + s.wordCounts
  }

  function MaxPlausible(s: Scan): (n: int)
    ensures 1 <= n <= GENEROUS_COUNT_CEILING
  {
    var found := Filter(GenerousCounts(s), x => 1 <= x <= GENEROUS_COUNT_CEILING);
    FilterMembers(GenerousCounts(s), x => 1 <= x <= GENEROUS_COUNT_CEILING);
    if found != [] then SeqMax(found)
    else if s.pluralContainer then GENEROUS_COUNT_CEILING
    else 1
  }

  lemma LeftsAppend(pairs: seq<(nat, nat)>, p: (nat, nat))
    ensures Lefts(pairs + [p]) == Lefts(pairs) + [p.0]
  {
    if pairs != [] {
      assert (pairs + [p])[1..] == pairs[1..] + [p];
    }
  }

  lemma LeftsConcat(a: seq<(nat, nat)>, b: seq<(nat, nat)>)
    ensures Lefts(a + b) == Lefts(a) + Lefts(b)
  {
    if a == [] {
      assert a + b == b;
    } else {
      assert (a + b)[1..] == a[1..] + b;
    }
  }

  lemma FlattenAppend(lists: seq<seq<nat>>, last: seq<nat>)
    ensures Flatten(lists + [last]) == Flatten(lists) + last
  {
    if lists != [] {
      assert (lists + [last])[1..] == lists[1..] + [last];
    }
  }

  /** The loops of `max_plausible_count`, which extend one list pattern after pattern. */
  method MaxPlausibleCount(s: Scan) returns (n: int)
    ensures n == MaxPlausible(s)
  {
    var found: seq<int> := [];
    var pairs := s.nxm + s.parensNxm;
    for i := 0 to |pairs|
      invariant found == Lefts(pairs[..i])
    {
      LeftsAppend(pairs[..i], pairs[i]);
      assert pairs[..i + 1] == pairs[..i] + [pairs[i]];
      found := found + [pairs[i].0];
    }
    assert pairs[..|pairs|] == pairs;
    LeftsConcat(s.nxm, s.parensNxm);
    ghost var counts := found;
    for i := 0 to |s.multipliers|
      invariant found == counts + Flatten(s.multipliers[..i])
    {
      FlattenAppend(s.multipliers[..i], s.multipliers[i]);
      assert s.multipliers[..i + 1] == s.multipliers[..i] + [s.multipliers[i]];
      found := found + s.multipliers[i];
    }
    assert s.multipliers[..|s.multipliers|] == s.multipliers;
    found := found + s.wordCounts;
    assert found == GenerousCounts(s);
    found := Filter(found, x => 1 <= x <= GENEROUS_COUNT_CEILING);
    if found != [] {
      n := SeqMax(found);
    } else if s.pluralContainer {
      n := GENEROUS_COUNT_CEILING;
    } else {
      n := 1;
    }
  }

  predicate IsGenerousCount(s: Scan, c: int) {
    c in GenerousCounts(s) && 1 <= c <= GENEROUS_COUNT_CEILING
  }

  /** The generous count is the largest count within the ceiling that any expression finds; with
      none found, a plural stands for the ceiling and anything else for one. */
  lemma GenerousCountExactly(s: Scan)
    ensures forall c :: IsGenerousCount(s, c) ==> c <= MaxPlausible(s)
    ensures if exists c :: IsGenerousCount(s, c) then IsGenerousCount(s, MaxPlausible(s))
            else MaxPlausible(s) == if s.pluralContainer then GENEROUS_COUNT_CEILING else 1
  {
    FilterMembers(GenerousCounts(s), x => 1 <= x <= GENEROUS_COUNT_CEILING);
    var found := Filter(GenerousCounts(s), x => 1 <= x <= GENEROUS_COUNT_CEILING);
    assert forall c :: c in found <==> IsGenerousCount(s, c);
    if found != [] { assert found[0] in found; }
  }

  // What the scan of any text satisfies: the expressions look at the same characters.

  predicate Written(runs: seq<DigitRun>, n: int) {
    exists r :: r in runs && DigitsValue(r.digits) == n
  }

  predicate WrittenWithUnit(runs: seq<DigitRun>, n: int) {
    exists r :: r in runs && DigitsValue(r.digits) == n && r.unit && |r.digits| <= 3
  }

  /** Nine multiplier patterns, the third of which is the N x M form; every number found is written
      in the text, module sizes with their unit; and a PC4 code that is known is the speed. */
  predicate Consistent(s: Scan) {
    && |s.multipliers| == 9 && s.multipliers[2] == Lefts(s.nxm)
    && (forall t :: t in s.totals ==> Written(s.runs, t))
    && (forall p :: p in s.nxm ==> Written(s.runs, p.0) && WrittenWithUnit(s.runs, p.1))
    && (forall p :: p in s.parensNxm ==> Written(s.runs, p.0) && Written(s.runs, p.1))
    && (forall n :: n in Flatten(s.multipliers) ==> n <= 99 && Written(s.runs, n))
    && (s.pc4Speed.Some? ==> s.speed == s.pc4Speed)
  }

  lemma {:induction false} FlattenMember(lists: seq<seq<nat>>, k: nat, x: nat)
    requires k < |lists| && x in lists[k]
    ensures x in Flatten(lists)
  {
    if k > 0 {
      FlattenMember(lists[1..], k - 1, x);
    }
  }

  // What the readings see.

  /** The strict capacity expression reads exactly the runs of up to three digits with a boundary before
      them and a unit after. */
  lemma {:induction false} StrictExactly(runs: seq<DigitRun>, x: nat)
    ensures x in CapacityMatches(runs) <==>
      exists r :: r in runs && r.unit && !r.glued && 1 <= |r.digits| <= 3 && DigitsValue(r.digits) == x
  {
    if runs != [] {
      StrictExactly(runs[1..], x);
      assert forall r :: r in runs <==> r == runs[0] || r in runs[1..];
    }
  }

  lemma {:induction false} LeftsMember(pairs: seq<(nat, nat)>, x: int)
    ensures x in Lefts(pairs) <==> exists p :: p in pairs && p.0 == x
  {
    if pairs != [] {
      LeftsMember(pairs[1..], x);
      assert forall p :: p in pairs <==> p == pairs[0] || p in pairs[1..];
    }
  }

  lemma {:induction false} FlattenExactly(lists: seq<seq<nat>>, x: int)
    ensures x in Flatten(lists) <==> exists m :: m in lists && x in m
  {
    if lists != [] {
      FlattenExactly(lists[1..], x);
      assert forall m :: m in lists <==> m == lists[0] || m in lists[1..];
    }
  }

  /** The generous reading collects every count any expression finds, and no other number. */
  lemma GenerousCountsExactly(s: Scan, x: int)
    ensures x in GenerousCounts(s) <==>
      || (exists p :: p in s.nxm && p.0 == x)
      || (exists p :: p in s.parensNxm && p.0 == x)
      || (exists m :: m in s.multipliers && x in m)
      || x in s.wordCounts
  {
    LeftsMember(s.nxm, x);
    LeftsMember(s.parensNxm, x);
    FlattenExactly(s.multipliers, x);
  }

  /** What the parser decides, by what it finds: a declared total is the total; the first N x M form of a
      known size, bare before parenthesised, is count and capacity, and a lot; else the plain
      multiplier or one, and the capacity written; and a unit marker outranks every count. */
  lemma ParsesExactly(s: Scan)
    ensures var p := Parse(s); var form := if s.nxm != [] then s.nxm[..1] else if s.parensNxm != [] then s.parensNxm[..1] else [];
      var known := form != [] && form[0].1 in {4, 8, 16, 32, 64, 128};
      && (known ==> p.count == form[0].0 && p.capacity == Some(form[0].1))
      && (!known ==> p.capacity == ModuleCapacity(s.runs) && p.count == (if PlainCount(s.multipliers).Some? then PlainCount(s.multipliers).value else 1))
      && (s.totals != [] ==> p.total == Some(s.totals[0]))
      && (s.totals == [] ==> (p.total.Some? <==> p.capacity.Some?) && (p.total.Some? ==> p.total.value == p.capacity.value * p.count))
      && (p.basis == Unit <==> s.unitMarker)
      && (p.basis == Lot <==> !s.unitMarker && (known || PlainCount(s.multipliers).Some?))
      && p.kind == s.kind && p.speed == s.speed && p.via == Rules && p.Qualified()
  {
  }

  /** The confidence is the sum of what was found, up to 0.95; one sum falls just below its round
      value in doubles. */
  lemma ConfidenceIsSum(capacity: bool, isExplicit: bool, kind: bool, speed: bool)
    ensures var sum := 0.60 + (if capacity then 0.15 else 0.0) + (if isExplicit then 0.10 else 0.0)
                       + (if kind then 0.10 else 0.0) + (if speed then 0.05 else 0.0);
      var c := ConfidenceOf(capacity, isExplicit, kind, speed);
      if !capacity && isExplicit && kind && !speed then 0.7999 < c < 0.80 == sum
      else c == if sum > 0.95 then 0.95 else sum
  {
  }

  /** The parser asks for a registered or load-reduced module, and counts what it found. */
  lemma ParseConfidence(s: Scan)
    ensures Parse(s).confidence == ConfidenceOf(Parse(s).capacity.Some?, Parse(s).basis == Lot || (s.unitMarker && CountExplicit(s)),
                                                s.kind == Rdimm || s.kind == Lrdimm, s.speed.Some?)
  {
  }
}
