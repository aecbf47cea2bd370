/** The market index: percentiles of a price sample, and the reference for a capacity. */
module Market {
  import opened Models
  import opened Rounding
  import opened Money

  function Distance(a: int, b: int): nat { if a < b then b - a else a - b }

  /** Position of the first bucket at minimal distance. */
  function Nearest(capacity: int, index: Index): (k: nat)
    requires index != []
    ensures k < |index|
    ensures forall j :: 0 <= j < |index| ==>
      Distance(index[k].0, capacity) <= Distance(index[j].0, capacity)
    ensures forall j :: 0 <= j < k ==>
      Distance(index[k].0, capacity) < Distance(index[j].0, capacity)
  {
    if |index| == 1 then 0
    else
      var k := Nearest(capacity, index[..|index| - 1]);
      if Distance(index[|index| - 1].0, capacity) < Distance(index[k].0, capacity)
      then |index| - 1 else k
  }

  /** The bucket's own reference, or the nearest bucket's; none only for an empty index. */
  function ReferenceFor(capacity: int, index: Index): (r: Option<real>)
    ensures r.None? <==> index == []
  {
    if index == [] then None else Some(index[Nearest(capacity, index)].1)
  }

  /** A capacity with a bucket of its own is never answered from a neighbouring one. */
  lemma OwnBucketWins(capacity: int, index: Index, k: nat)
    requires k < |index| && index[k].0 == capacity
    requires forall i, j :: 0 <= i < j < |index| ==> index[i].0 != index[j].0
    ensures ReferenceFor(capacity, index) == Some(index[k].1)
  {
    var n := Nearest(capacity, index);
    assert Distance(index[n].0, capacity) <= Distance(index[k].0, capacity);
  }

  // Percentiles. A sample is an integer number of ten-thousandths of a euro per gigabyte.

  predicate Ascending(s: seq<int>) {
    |s| >= 2 ==> s[0] <= s[1] && Ascending(s[1..])
  }

  lemma {:induction false} AscendingAt(s: seq<int>, i: nat, j: nat)
    requires Ascending(s) && i <= j < |s|
    ensures s[i] <= s[j]
  {
    if i > 0 {
      AscendingAt(s[1..], i - 1, j - 1);
    } else if j > 0 {
      AscendingAt(s[1..], 0, j - 1);
    }
  }

  function Insert(x: int, s: seq<int>): (r: seq<int>)
    ensures |r| == |s| + 1 && (r[0] == x || (s != [] && r[0] == s[0]))
    ensures Ascending(s) ==> Ascending(r)
  {
    if s == [] || x <= s[0] then [x] + s else [s[0]] + Insert(x, s[1..])
  }

  lemma {:induction false} InsertKeepsElements(x: int, s: seq<int>)
    ensures multiset(Insert(x, s)) == multiset(s) + multiset{x}
  {
    if !(s == [] || x <= s[0]) {
      InsertKeepsElements(x, s[1..]);
      assert s == [s[0]] + s[1..];
    }
  }

  function Sorted(s: seq<int>): (r: seq<int>)
    ensures Ascending(r) && |r| == |s|
  {
    if s == [] then [] else Insert(s[0], Sorted(s[1..]))
  }

  lemma {:induction false} SortedKeepsElements(s: seq<int>)
    ensures multiset(Sorted(s)) == multiset(s)
  {
    if s != [] {
      SortedKeepsElements(s[1..]);
      InsertKeepsElements(s[0], Sorted(s[1..]));
      assert s == [s[0]] + s[1..];
    }
  }

  lemma TailElements(s: seq<int>)
    requires s != []
    ensures multiset(s[1..]) == multiset(s) - multiset{s[0]}
    ensures s == [s[0]] + s[1..]
  {
    assert s == [s[0]] + s[1..];
  }

  lemma SameLength(a: seq<int>, b: seq<int>)
    requires multiset(a) == multiset(b)
    ensures |a| == |b|
  {
    assert |a| == |multiset(a)| && |b| == |multiset(b)|;
  }

  lemma HeadsAgree(a: seq<int>, b: seq<int>)
    requires Ascending(a) && Ascending(b) && multiset(a) == multiset(b) && a != [] && b != []
    ensures a[0] == b[0]
  {
    assert a[0] in multiset(b) && b[0] in multiset(a);
    var i :| 0 <= i < |b| && b[i] == a[0];
    var j :| 0 <= j < |a| && a[j] == b[0];
    AscendingAt(b, 0, i);
    AscendingAt(a, 0, j);
  }

  lemma {:induction false} AscendingIsUnique(a: seq<int>, b: seq<int>)
    requires Ascending(a) && Ascending(b) && multiset(a) == multiset(b)
    ensures a == b
  {
    SameLength(a, b);
    if a != [] {
      HeadsAgree(a, b);
      TailElements(a);
      TailElements(b);
      AscendingIsUnique(a[1..], b[1..]);
    }
  }

  /** The value at position `quarters / 4` of an ascending list, by linear interpolation. */
  function Interpolated(ordered: seq<int>, quarters: nat): real
    requires quarters / 4 < |ordered|
  {
    var lo := quarters / 4;
    var hi := if lo + 1 < |ordered| then lo + 1 else |ordered| - 1;
    ordered[lo] as real + (ordered[hi] - ordered[lo]) as real * ((quarters % 4) as real / 4.0)
  }

  /** `_percentile` at q = quarter / 4; the empty list answers zero. */
  function Percentile(values: seq<int>, quarter: nat): int
    requires quarter <= 4
  {
    if values == [] then 0
    else HalfEven(Interpolated(Sorted(values), quarter * (|values| - 1)))
  }

  /** A convex combination stays between its ends and grows with its weight. */
  lemma Convex(a: real, b: real, f: real, g: real)
    requires a <= b && 0.0 <= f <= g <= 1.0
    ensures a <= a + (b - a) * f <= a + (b - a) * g <= b
  {
    assert (b - a) * f >= 0.0;
    assert (b - a) * (g - f) >= 0.0;
    assert (b - a) * (1.0 - g) >= 0.0;
  }

  lemma InterpolatedBetweenNeighbours(ordered: seq<int>, quarters: nat)
    requires Ascending(ordered) && quarters / 4 < |ordered|
    ensures ordered[quarters / 4] as real <= Interpolated(ordered, quarters)
    ensures quarters / 4 + 1 < |ordered| ==>
      Interpolated(ordered, quarters) <= ordered[quarters / 4 + 1] as real
    ensures quarters / 4 + 1 == |ordered| ==> Interpolated(ordered, quarters) == ordered[quarters / 4] as real
  {
    var lo, f := quarters / 4, (quarters % 4) as real / 4.0;
    if lo + 1 < |ordered| {
      AscendingAt(ordered, lo, lo + 1);
      Convex(ordered[lo] as real, ordered[lo + 1] as real, f, f);
    }
  }

  lemma InterpolatedMonotone(ordered: seq<int>, p: nat, q: nat)
    requires Ascending(ordered) && p <= q && q / 4 < |ordered|
    ensures Interpolated(ordered, p) <= Interpolated(ordered, q)
  {
    var lo := p / 4;
    InterpolatedBetweenNeighbours(ordered, p);
    InterpolatedBetweenNeighbours(ordered, q);
    if lo < q / 4 {
      AscendingAt(ordered, lo + 1, q / 4);
    } else if lo + 1 < |ordered| {
      AscendingAt(ordered, lo, lo + 1);
      Convex(ordered[lo] as real, ordered[lo + 1] as real, (p % 4) as real / 4.0, (q % 4) as real / 4.0);
    }
  }

  lemma PercentileMonotone(values: seq<int>, j: nat, k: nat)
    requires values != [] && j <= k <= 4
    ensures Percentile(values, j) <= Percentile(values, k)
  {
    var o, n := Sorted(values), |values| - 1;
    assert j * n <= k * n <= 4 * n;
    InterpolatedMonotone(o, j * n, k * n);
    Monotone(Interpolated(o, j * n), Interpolated(o, k * n));
  }

  lemma AtKnot(ordered: seq<int>, k: nat)
    requires Ascending(ordered) && k < |ordered|
    ensures HalfEven(Interpolated(ordered, 4 * k)) == ordered[k]
  {
    assert 4 * k / 4 == k && 4 * k % 4 == 0;
    Integral(Interpolated(ordered, 4 * k), ordered[k]);
  }

  /** At the ends of the scale the percentile is an element of the sample, unrounded. */
  lemma PercentileEnds(values: seq<int>)
    requires values != []
    ensures Percentile(values, 0) in values && Percentile(values, 4) in values
  {
    var o, n := Sorted(values), |values| - 1;
    SortedKeepsElements(values);
    assert o[0] in multiset(values) && o[n] in multiset(values);
    AtKnot(o, 0);
    AtKnot(o, n);
  }

  /** min <= p25 <= p50 <= p75 <= max, after interpolation and half-even rounding. */
  lemma PercentilesAreOrdered(values: seq<int>, low: int, high: int)
    requires values != []
    requires forall v :: v in values ==> low <= v <= high
    ensures low <= Percentile(values, 1) <= Percentile(values, 2) <= Percentile(values, 3) <= high
  {
    PercentileEnds(values);
    PercentileMonotone(values, 0, 1);
    PercentileMonotone(values, 1, 2);
    PercentileMonotone(values, 2, 3);
    PercentileMonotone(values, 3, 4);
  }

  /** A percentile depends on the sample, not on the order the rows arrived in. */
  lemma PercentileIgnoresOrder(a: seq<int>, b: seq<int>, quarter: nat)
    requires quarter <= 4 && multiset(a) == multiset(b)
    ensures Percentile(a, quarter) == Percentile(b, quarter)
  {
    SortedKeepsElements(a);
    SortedKeepsElements(b);
    AscendingIsUnique(Sorted(a), Sorted(b));
  }

  /** One listing joined with its specification, after the SQL filter. */
  datatype Row = Row(price: real, shipping: Option<real>, capacity: int, total: int)

  datatype Stats = Stats(p25: int, p50: int, p75: int, size: nat)

  function Sample(r: Row, estimate: real): int
    requires r.total > 0
  {
    HalfUp(TotalCost(r.price, r.shipping, estimate).total / r.total as real * 10000.0)
  }

  /** The samples of one capacity bucket, in row order. */
  function Group(rows: seq<Row>, bucket: int, estimate: real): seq<int>
    requires forall r :: r in rows ==> r.total > 0
  {
    if rows == [] then []
    else
      var last := rows[|rows| - 1];
      Group(rows[..|rows| - 1], bucket, estimate)
      + if last.capacity == bucket then [Sample(last, estimate)] else []
  }

  function StatsOf(values: seq<int>): Stats {
    Stats(Percentile(values, 1), Percentile(values, 2), Percentile(values, 3), |values|)
  }

  /** The grouping loop: every bucket starts empty, empty buckets are left out of the answer. */
  method ComputeStats(rows: seq<Row>, buckets: set<int>, estimate: real) returns (stats: map<int, Stats>)
    requires forall r :: r in rows ==> r.total > 0 && r.capacity in buckets
    ensures forall b :: b in stats <==> b in buckets && Group(rows, b, estimate) != []
    ensures forall b :: b in stats ==> stats[b] == StatsOf(Group(rows, b, estimate))
  {
    var grouped: map<int, seq<int>> := map b | b in buckets :: [];
    for i := 0 to |rows|
      invariant grouped.Keys == buckets
      invariant forall b :: b in buckets ==> grouped[b] == Group(rows[..i], b, estimate)
    {
      var r := rows[i];
      assert rows[..i + 1][..i] == rows[..i];
      grouped := grouped[r.capacity := grouped[r.capacity] + [Sample(r, estimate)]];
    }
    assert rows[..|rows|] == rows;
    stats := map b | b in grouped && grouped[b] != [] :: StatsOf(grouped[b]);
  }

  // The interpolation pinned down on its own.

  lemma LinearBetween(a: real, step: real, lo: nat, r: nat, x: real, y: real)
    requires x == a + step * lo as real && y == a + step * (lo + 1) as real
    ensures x + (y - x) * (r as real / 4.0) == a + step * ((4 * lo + r) as real / 4.0)
  {
    assert y - x == step;
  }

  /** On an evenly spaced sample the interpolation is exact: position and value move together. */
  lemma InterpolatedIsLinear(ordered: seq<int>, quarters: nat, a: real, step: real)
    requires quarters <= 4 * (|ordered| - 1)
    requires forall i :: 0 <= i < |ordered| ==> ordered[i] as real == a + step * i as real
    ensures Interpolated(ordered, quarters) == a + step * (quarters as real / 4.0)
  {
    var lo, r := quarters / 4, quarters % 4;
    assert quarters == 4 * lo + r;
    if lo + 1 < |ordered| {
      LinearBetween(a, step, lo, r, ordered[lo] as real, ordered[lo + 1] as real);
    } else {
      assert r == 0;
    }
  }

  /** Half-way between two samples, to even. */
  function MiddleOf(a: int, b: int): int { HalfEven((a + b) as real / 2.0) }

  lemma HalfWay(ordered: seq<int>, k: nat)
    requires k + 1 < |ordered|
    ensures Interpolated(ordered, 4 * k + 2) == (ordered[k] + ordered[k + 1]) as real / 2.0
  {
    assert (4 * k + 2) / 4 == k && (4 * k + 2) % 4 == 2;
  }

  lemma PercentileAt(values: seq<int>, quarter: nat, position: nat)
    requires values != [] && quarter <= 4 && position == quarter * (|values| - 1)
    ensures position / 4 < |values| && Percentile(values, quarter) == HalfEven(Interpolated(Sorted(values), position))
  {
    hide Sorted, Ascending, Interpolated, HalfEven;
    assert position <= 4 * (|values| - 1);
  }

  lemma FourTimes(quarter: nat, m: nat)
    requires quarter <= 4
    ensures quarter * (4 * m) == 4 * (quarter * m) && quarter * m <= 4 * m
  {
  }

  lemma MedianOfOdd(values: seq<int>, m: nat)
    requires |values| == 2 * m + 1
    ensures Percentile(values, 2) == Sorted(values)[m]
  {
    AtKnot(Sorted(values), m);
    PercentileAt(values, 2, 4 * m);
    hide Percentile, Sorted, Ascending, Interpolated, HalfEven;
  }

  lemma HalfWayRounded(ordered: seq<int>, k: nat)
    requires k + 1 < |ordered|
    ensures HalfEven(Interpolated(ordered, 4 * k + 2)) == MiddleOf(ordered[k], ordered[k + 1])
  {
    HalfWay(ordered, k);
    hide Interpolated;
  }

  lemma MedianOfEven(values: seq<int>, m: nat)
    requires |values| == 2 * m + 2
    ensures Percentile(values, 2) == MiddleOf(Sorted(values)[m], Sorted(values)[m + 1])
  {
    hide Percentile, Sorted, Ascending, Interpolated, HalfEven, MiddleOf;
    HalfWayRounded(Sorted(values), m);
    PercentileAt(values, 2, 4 * m + 2);
  }

  /** The median of an odd sample is its middle element, of an even one half-way between the two, to
      even. */
  lemma MedianExactly(values: seq<int>)
    requires values != []
    ensures var o, n := Sorted(values), |values|;
      && (n % 2 == 1 ==> Percentile(values, 2) == o[n / 2])
      && (n % 2 == 0 ==> Percentile(values, 2) == MiddleOf(o[n / 2 - 1], o[n / 2]))
  {
    hide Sorted, Ascending, Percentile, MiddleOf;
    if |values| % 2 == 1 { MedianOfOdd(values, |values| / 2); } else { MedianOfEven(values, |values| / 2 - 1); }
  }

  lemma QuartilesAtElements(values: seq<int>, m: nat, quarter: nat)
    requires |values| == 4 * m + 1 && quarter <= 4
    ensures Percentile(values, quarter) == Sorted(values)[quarter * m]
  {
    hide Percentile, Sorted, Ascending, Interpolated, HalfEven;
    AtKnot(Sorted(values), quarter * m);
    FourTimes(quarter, m);
    PercentileAt(values, quarter, 4 * (quarter * m));
  }

  /** A bucket's samples are those of its own rows, each at its own price per gigabyte. */
  lemma {:induction false} GroupMember(rows: seq<Row>, bucket: int, estimate: real, x: int)
    requires forall r :: r in rows ==> r.total > 0
    ensures x in Group(rows, bucket, estimate) <==> exists r :: r in rows && r.capacity == bucket && Sample(r, estimate) == x
  {
    if rows != [] {
      var n := |rows| - 1;
      GroupMember(rows[..n], bucket, estimate, x);
      assert forall r :: r in rows <==> r in rows[..n] || r == rows[n];
    }
  }

  /** What is published of a bucket: its quartiles in order, between its cheapest and dearest sample,
      with the sample's size. */
  lemma StatsAreOrdered(values: seq<int>, low: int, high: int)
    requires values != [] && forall v :: v in values ==> low <= v <= high
    ensures var s := StatsOf(values);
      && low <= s.p25 <= s.p50 <= s.p75 <= high && s.size == |values|
      && (|values| % 2 == 1 ==> s.p50 == Sorted(values)[|values| / 2])
      && (|values| % 4 == 1 ==> s.p25 == Sorted(values)[|values| / 4] && s.p75 == Sorted(values)[3 * (|values| / 4)])
  {
    PercentilesAreOrdered(values, low, high);
    MedianExactly(values);
    if |values| % 4 == 1 {
      QuartilesAtElements(values, |values| / 4, 1);
      QuartilesAtElements(values, |values| / 4, 3);
    }
  }
}
