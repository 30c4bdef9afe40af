/** Percentiles and row order of aggregator/scorecard.ts, segments of aggregator/segments.ts; numbers are reals. */
module Ranking {
  import opened Text
  import opened Permutations
  import opened Sorting

  function Ceil(x: real): (n: int)
    ensures (n as real) - 1.0 < x <= n as real
  {
    -((-x).Floor)
  }

  lemma CeilMonotone(x: real, y: real)
    requires x <= y
    ensures Ceil(x) <= Ceil(y)
  {
    assert (Ceil(x) as real) - 1.0 < Ceil(y) as real;
  }

  // ---- Nearest-rank percentile ----

  /** None is `NaN`. */
  function Percentile(sorted: seq<real>, p: real): Option<real>
    requires 0.0 <= p <= 100.0
  {
    if sorted == [] then None
    else
      RankInRange(|sorted|, p);
      Some(sorted[Rank(|sorted|, p) - 1])
  }

  function Rank(n: nat, p: real): (r: int)
    ensures r >= 1
  {
    var c := Ceil(p / 100.0 * n as real);
    if c > 1 then c else 1
  }

  lemma RankInRange(n: nat, p: real)
    requires n > 0 && 0.0 <= p <= 100.0
    ensures 1 <= Rank(n, p) <= n
  {
    assert p / 100.0 <= 1.0;
    ScaleMonotone(p / 100.0, 1.0, n as real);
  }

  lemma ScaleMonotone(a: real, b: real, n: real)
    requires a <= b && n >= 0.0
    ensures a * n <= b * n
  {
  }

  /** The rank covers p percent of the values, and no smaller one does. */
  lemma RankCovers(n: nat, p: real, r: int)
    requires n > 0 && 0.0 <= p <= 100.0
    ensures p / 100.0 * n as real <= Rank(n, p) as real
    ensures 1 <= r < Rank(n, p) ==> (r as real) < p / 100.0 * n as real
  {
  }

  lemma PercentileMonotone(sorted: seq<real>, p: real, q: real)
    requires sorted != [] && 0.0 <= p <= q <= 100.0
    requires SortedBy(sorted, (x: real, y: real) => x <= y)
    ensures Percentile(sorted, p).value <= Percentile(sorted, q).value
  {
    var n := |sorted|;
    RankInRange(n, p);
    RankInRange(n, q);
    ScaleMonotone(p / 100.0, q / 100.0, n as real);
    CeilMonotone(p / 100.0 * n as real, q / 100.0 * n as real);
    var le := (x: real, y: real) => x <= y;
    assert SortedBy(sorted, le);
    assert Rank(n, p) == Rank(n, q) || le(sorted[Rank(n, p) - 1], sorted[Rank(n, q) - 1]);
  }

  /** How many values are at most v. */
  function UpTo(values: seq<real>, v: real): nat {
    if values == [] then 0 else UpTo(values[..|values| - 1], v) + if values[|values| - 1] <= v then 1 else 0
  }

  ghost predicate Ascending(sorted: seq<real>) {
    forall i, j :: 0 <= i < j < |sorted| ==> sorted[i] <= sorted[j]
  }

  lemma {:induction false} UpToPlace(sorted: seq<real>, k: nat, v: real)
    requires k <= |sorted| && forall i :: 0 <= i < k ==> sorted[i] <= v
    ensures UpTo(sorted, v) >= k
    decreases |sorted|
  {
    if sorted != [] {
      var front := sorted[..|sorted| - 1];
      UpToPlace(front, if k < |sorted| then k else k - 1, v);
    }
  }

  lemma {:induction false} BelowPlace(sorted: seq<real>, k: nat, v: real)
    requires k <= |sorted| && forall i :: k <= i < |sorted| ==> sorted[i] >= v
    ensures Below(sorted, v) <= k
    decreases |sorted|
  {
    if sorted != [] {
      var front := sorted[..|sorted| - 1];
      BelowPlace(front, if k < |sorted| then k else k - 1, v);
    }
  }

  /** At least p percent of the values are at most the percentile, and fewer are below it, or none. */
  lemma PercentileExactly(sorted: seq<real>, p: real)
    requires sorted != [] && 0.0 <= p <= 100.0 && Ascending(sorted)
    ensures var x := Percentile(sorted, p).value;
            && x in sorted
            && UpTo(sorted, x) as real >= p / 100.0 * |sorted| as real
            && (Below(sorted, x) == 0 || (Below(sorted, x) as real) < p / 100.0 * |sorted| as real)
  {
    hide UpTo, Below;
    var n := |sorted|;
    RankInRange(n, p);
    var r := Rank(n, p);
    var x := sorted[r - 1];
    UpToPlace(sorted, r, x);
    BelowPlace(sorted, r - 1, x);
    RankCovers(n, p, r - 1);
  }

  // ---- Percentiles within the cohort ----

  function Present(values: seq<Option<real>>): seq<real> {
    if values == [] then []
    else
      var front, last := Present(values[..|values| - 1]), values[|values| - 1];
      if last.Some? then front + [last.value] else front
  }

  /** `values.filter((x) => x < v).length` */
  function Below(values: seq<real>, v: real): nat {
    if values == [] then 0 else Below(values[..|values| - 1], v) + if values[|values| - 1] < v then 1 else 0
  }

  function Quotient(a: int, d: int): (q: int)
    requires d > 0
    ensures q * d <= a < (q + 1) * d
  {
    a / d
  }

  /** `Math.round((100 * below) / others)`, halves rounded up. */
  function RoundShare(below: nat, others: nat): int
    requires others > 0
  {
    Quotient(200 * below + others, 2 * others)
  }

  function CohortPercentile(values: seq<Option<real>>, v: Option<real>, minN: int): Option<int> {
    var present := Present(values);
    if v.None? || |present| < minN then None
    else if |present| <= 1 then Some(100)
    else Some(RoundShare(Below(present, v.value), |present| - 1))
  }

  /** One metric's pass of `computeScorecard` over the cohort. */
  method CohortPercentiles(values: seq<Option<real>>, minN: int) returns (percentiles: seq<Option<int>>)
    ensures |percentiles| == |values|
    ensures forall i :: 0 <= i < |values| ==> percentiles[i] == CohortPercentile(values, values[i], minN)
  {
    percentiles := seq(|values|, _ => None);
    var present := Present(values);
    if |present| < minN { return; }
    for i := 0 to |values|
      invariant |percentiles| == |values|
      invariant forall j :: 0 <= j < |values| ==>
        percentiles[j] == if j < i then CohortPercentile(values, values[j], minN) else None
    {
      if values[i].None? { continue; }
      PresentHas(values, i);
      var v := values[i].value;
      var below := 0;
      for k := 0 to |present|
        invariant below == Below(present[..k], v)
      {
        assert present[..k + 1][..k] == present[..k];
        if present[k] < v { below := below + 1; }
      }
      assert present[..|present|] == present;
      percentiles := percentiles[i := Some(if |present| == 1 then 100 else RoundShare(below, |present| - 1))];
    }
  }

  lemma {:induction false} PresentHas(values: seq<Option<real>>, i: nat)
    requires i < |values| && values[i].Some?
    ensures values[i].value in Present(values)
  {
    if i < |values| - 1 { PresentHas(values[..|values| - 1], i); }
  }

  lemma {:induction false} BelowBounds(values: seq<real>, v: real)
    ensures Below(values, v) <= |values|
    ensures v in values ==> Below(values, v) <= |values| - 1
  {
    if values != [] {
      BelowBounds(values[..|values| - 1], v);
      assert v in values ==> v in values[..|values| - 1] || v == values[|values| - 1];
    }
  }

  lemma {:induction false} BelowMonotone(values: seq<real>, v: real, w: real)
    requires v <= w
    ensures Below(values, v) <= Below(values, w)
  {
    if values != [] { BelowMonotone(values[..|values| - 1], v, w); }
  }

  lemma QuotientMonotone(a: int, b: int, d: int)
    requires a <= b && d > 0
    ensures Quotient(a, d) <= Quotient(b, d)
  {
    hide Quotient;
    var q, r := Quotient(a, d), Quotient(b, d);
    assert q * d < (r + 1) * d;
    CancelFactor(q, r + 1, d);
  }

  lemma CancelFactor(a: int, b: int, d: int)
    requires a * d < b * d && d > 0
    ensures a < b
  {
  }

  lemma RoundShareMonotone(a: nat, b: nat, others: nat)
    requires a <= b && others > 0
    ensures RoundShare(a, others) <= RoundShare(b, others)
  {
    hide Quotient;
    QuotientMonotone(200 * a + others, 200 * b + others, 2 * others);
  }

  lemma RoundShareBounds(b: nat, others: nat)
    requires b <= others && others > 0
    ensures 0 <= RoundShare(b, others) <= 100
  {
    hide Quotient;
    var q := Quotient(200 * b + others, 2 * others);
    assert q * (2 * others) < 101 * (2 * others);
    CancelFactor(q, 101, 2 * others);
    assert (-1) * (2 * others) < q * (2 * others) + 2 * others - 2 * others + 1 * (2 * others) - 0;
    CancelFactor(0, q + 1, 2 * others);
  }

  /** Percentiles lie in 0..100, follow the values, and are equal on ties. */
  lemma CohortRanksFollowValues(values: seq<Option<real>>, i: nat, j: nat, minN: int)
    requires i < |values| && j < |values| && values[i].Some? && values[j].Some? && |Present(values)| >= minN
    ensures var p, q := CohortPercentile(values, values[i], minN), CohortPercentile(values, values[j], minN);
            && p.Some? && q.Some? && 0 <= p.value <= 100
            && (values[i].value <= values[j].value ==> p.value <= q.value)
            && (values[i].value == values[j].value ==> p.value == q.value)
  {
    hide Below, RoundShare;
    var present, v, w := Present(values), values[i].value, values[j].value;
    PresentHas(values, i);
    if |present| > 1 {
      BelowBounds(present, v);
      RoundShareBounds(Below(present, v), |present| - 1);
      if v <= w {
        BelowMonotone(present, v, w);
        RoundShareMonotone(Below(present, v), Below(present, w), |present| - 1);
      }
    }
  }

  /** A cohort percentile is 100 times the share of the others that lie below, to the nearest integer, halves up. */
  lemma CohortShare(values: seq<Option<real>>, i: nat, minN: int)
    requires i < |values| && values[i].Some? && |Present(values)| >= minN && |Present(values)| > 1
    ensures var p, others := CohortPercentile(values, values[i], minN), |Present(values)| - 1;
            && p.Some?
            && (2 * p.value - 1) * others <= 200 * Below(Present(values), values[i].value) < (2 * p.value + 1) * others
  {
    hide Quotient, Below, Present;
    NearestShare(Below(Present(values), values[i].value), |Present(values)| - 1);
  }

  lemma NearestShare(below: nat, others: nat)
    requires others > 0
    ensures (2 * RoundShare(below, others) - 1) * others <= 200 * below < (2 * RoundShare(below, others) + 1) * others
  {
    hide Quotient;
    var q := Quotient(200 * below + others, 2 * others);
    assert q * (2 * others) == (2 * q - 1) * others + others;
    assert (q + 1) * (2 * others) == (2 * q + 1) * others + others;
  }

  /** In a cohort without ties the lowest value gets 0 and the highest 100. */
  lemma CohortEnds(values: seq<Option<real>>, i: nat, minN: int)
    requires i < |values| && values[i].Some? && |Present(values)| >= minN && |Present(values)| > 1
    ensures (forall x :: x in Present(values) ==> values[i].value <= x) ==> CohortPercentile(values, values[i], minN) == Some(0)
    ensures multiset(Present(values))[values[i].value] == 1 && (forall x :: x in Present(values) ==> x <= values[i].value)
      ==> CohortPercentile(values, values[i], minN) == Some(100)
  {
    hide Present, Below;
    var present, v := Present(values), values[i].value;
    if forall x :: x in present ==> v <= x {
      assert forall i :: 0 <= i < |present| ==> present[i] in present;
      BelowPlace(present, 0, v);
      assert RoundShare(0, |present| - 1) == 0 by { NearestEnds(|present| - 1); }
    }
    if multiset(present)[v] == 1 && forall x :: x in present ==> x <= v {
      BelowHighest(present, v);
      NearestEnds(|present| - 1);
    }
  }

  /** Too small a cohort and a missing value have no percentile; a cohort of one has 100. */
  lemma CohortEdges(values: seq<Option<real>>, v: Option<real>, minN: int)
    ensures v.None? || |Present(values)| < minN ==> CohortPercentile(values, v, minN) == None
    ensures v.Some? && minN <= |Present(values)| <= 1 ==> CohortPercentile(values, v, minN) == Some(100)
    ensures v.Some? && |Present(values)| >= minN ==> CohortPercentile(values, v, minN).Some?
  {
    hide Present, Below, RoundShare;
  }

  lemma NearestEnds(others: nat)
    requires others > 0
    ensures RoundShare(0, others) == 0 && RoundShare(others, others) == 100
  {
    hide Quotient;
    var q, r := Quotient(others, 2 * others), Quotient(201 * others, 2 * others);
    assert 200 * others + others == 201 * others;
    CancelFactor(q, 1, 2 * others);
    CancelFactor(0, q + 1, 2 * others);
    assert r * (2 * others) < 101 * (2 * others);
    CancelFactor(r, 101, 2 * others);
    assert 100 * (2 * others) < (r + 1) * (2 * others);
    CancelFactor(100, r + 1, 2 * others);
  }

  lemma {:induction false} BelowHighest(values: seq<real>, v: real)
    requires forall x :: x in values ==> x <= v
    ensures Below(values, v) == |values| - multiset(values)[v]
  {
    if values != [] {
      var front, last := values[..|values| - 1], values[|values| - 1];
      assert values == front + [last];
      assert multiset(values) == multiset(front) + multiset{last};
      assert last in values && forall x :: x in front ==> x in values;
      BelowHighest(front, v);
    }
  }

  lemma {:induction false} BelowPermutes(a: seq<real>, b: seq<real>, v: real)
    requires multiset(a) == multiset(b)
    ensures Below(a, v) == Below(b, v)
    decreases |a|
  {
    if a == [] {
      assert |multiset(b)| == 0;
    } else {
      var i := MatchLast(a, b);
      BelowPermutes(a[..|a| - 1], b[..i] + b[i + 1..], v);
      BelowTakeOut(b, i, v);
    }
  }

  lemma BelowTakeOut(s: seq<real>, i: nat, v: real)
    requires i < |s|
    ensures Below(s, v) == Below(s[..i] + s[i + 1..], v) + if s[i] < v then 1 else 0
  {
    hide Below;
    TakeOut(s, i);
    BelowOne(s[..i], s[i], v);
    BelowAppend(s[..i] + [s[i]], s[i + 1..], v);
    BelowAppend(s[..i], s[i + 1..], v);
  }

  lemma BelowOne(s: seq<real>, x: real, v: real)
    ensures Below(s + [x], v) == Below(s, v) + if x < v then 1 else 0
  {
    assert (s + [x])[..|s|] == s;
  }

  lemma {:induction false} BelowAppend(a: seq<real>, b: seq<real>, v: real)
    ensures Below(a + b, v) == Below(a, v) + Below(b, v)
  {
    if b == [] {
      assert a + b == a;
    } else {
      assert (a + b)[..|a + b| - 1] == a + b[..|b| - 1];
      BelowAppend(a, b[..|b| - 1], v);
    }
  }

  lemma {:induction false} PresentMultiset(values: seq<Option<real>>, x: real)
    ensures multiset(Present(values))[x] == multiset(values)[Some(x)]
  {
    if values != [] {
      var front, last := values[..|values| - 1], values[|values| - 1];
      PresentMultiset(front, x);
      assert values == front + [last];
      assert multiset(values) == multiset(front) + multiset{last};
    }
  }

  /** The order of the records does not matter. */
  lemma CohortOrderIrrelevant(a: seq<Option<real>>, b: seq<Option<real>>, v: Option<real>, minN: int)
    requires multiset(a) == multiset(b)
    ensures CohortPercentile(a, v, minN) == CohortPercentile(b, v, minN)
  {
    hide Present, Below, RoundShare;
    forall x: real ensures multiset(Present(a))[x] == multiset(Present(b))[x] {
      PresentMultiset(a, x);
      PresentMultiset(b, x);
    }
    assert multiset(Present(a)) == multiset(Present(b));
    assert |multiset(Present(a))| == |Present(a)| && |multiset(Present(b))| == |Present(b)|;
    if v.Some? { BelowPermutes(Present(a), Present(b), v.value); }
  }

  // ---- Row order ----

  datatype Value = Number(n: real) | Name(s: string)

  /** A row with the value of the sort column; a column holds numbers, or names when it is the member column. */
  datatype Row = Row(member: string, value: Option<Value>)

  /** `localeCompare` orders strings by a collation rank, on which different strings may tie. */
  type Collation = string -> real

  /** The comparator of `sortRows`: negative, zero or positive. */
  function Compare(a: Row, b: Row, collate: Collation, desc: bool): real {
    if a.value.None? && b.value.None? then collate(a.member) - collate(b.member)
    else if a.value.None? then 1.0
    else if b.value.None? then -1.0
    else if a.value.value.Name? && b.value.value.Name? then
      if desc then collate(b.value.value.s) - collate(a.value.value.s) else collate(a.value.value.s) - collate(b.value.value.s)
    else if a.value.value.Number? && b.value.value.Number? then
      var diff := a.value.value.n - b.value.value.n;
      if diff == 0.0 then collate(a.member) - collate(b.member) else if desc then -diff else diff
    // One column never mixes the two.
    else if a.value.value.Name? then 1.0 else -1.0
  }

  function NotAfter(collate: Collation, desc: bool): (Row, Row) -> bool {
    (a: Row, b: Row) => Compare(a, b, collate, desc) <= 0.0
  }

  function SortRows(rows: seq<Row>, collate: Collation, desc: bool): seq<Row> {
    StableSort(rows, NotAfter(collate, desc))
  }

  lemma ComparatorIsPreorder(collate: Collation, desc: bool)
    ensures TotalPreorder(NotAfter(collate, desc))
  {
    var le := NotAfter(collate, desc);
    forall x, y, z | le(x, y) && le(y, z) ensures le(x, z) {
      CompareTransitive(x, y, z, collate, desc);
    }
  }

  lemma CompareTransitive(x: Row, y: Row, z: Row, collate: Collation, desc: bool)
    requires Compare(x, y, collate, desc) <= 0.0 && Compare(y, z, collate, desc) <= 0.0
    ensures Compare(x, z, collate, desc) <= 0.0
  {
  }

  /** In order by the column, by member among equal numbers and among nulls, nulls last in both directions. */
  ghost predicate InOrder(a: Row, b: Row, collate: Collation, desc: bool) {
    && (a.value.None? ==> b.value.None?)
    && (a.value.None? && b.value.None? ==> collate(a.member) <= collate(b.member))
    && (a.value.Some? && b.value.Some? && a.value.value.Number? && b.value.value.Number? ==>
          var x, y := a.value.value.n, b.value.value.n;
          && (if desc then x >= y else x <= y)
          && (x == y ==> collate(a.member) <= collate(b.member)))
    && (a.value.Some? && b.value.Some? && a.value.value.Name? && b.value.value.Name? ==>
          var x, y := collate(a.value.value.s), collate(b.value.value.s);
          if desc then x >= y else x <= y)
  }

  /** The rows come out rearranged, in order, and stably: rows the comparator ties keep their order. */
  lemma RowsSorted(rows: seq<Row>, collate: Collation, desc: bool, x: Row)
    ensures var out := SortRows(rows, collate, desc);
            && multiset(out) == multiset(rows)
            && (forall i, j :: 0 <= i < j < |out| ==> InOrder(out[i], out[j], collate, desc))
            && Class(out, x, NotAfter(collate, desc)) == Class(rows, x, NotAfter(collate, desc))
  {
    hide StableSort, Class;
    ComparatorIsPreorder(collate, desc);
    var le := NotAfter(collate, desc);
    SortSorts(rows, le);
    SortStable(rows, x, le);
    var out := SortRows(rows, collate, desc);
    forall i, j | 0 <= i < j < |out| ensures InOrder(out[i], out[j], collate, desc) {
      assert le(out[i], out[j]);
    }
  }

  // ---- Segments ----

  datatype Segment = Low | Middle | High {
    function Level(): int {
      match this
      case Low => 0
      case Middle => 1
      case High => 2
    }
  }

  datatype Thresholds = Thresholds(high: real, low: real)

  datatype Entry = Entry(name: string, total: nat)

  /** `b[1] - a[1]` */
  function ByTotal(): (Entry, Entry) -> bool {
    (a: Entry, b: Entry) => a.total >= b.total
  }

  lemma ByTotalIsPreorder()
    ensures TotalPreorder(ByTotal())
  {
  }

  /** `Math.ceil(n * (percent / 100))` */
  function Share(n: nat, percent: real): int {
    Ceil(n as real * (percent / 100.0))
  }

  /** The segment of the entry at position i of n. */
  function SegmentAt(i: nat, n: nat, total: nat, t: Thresholds): Segment {
    if total == 0 then Low
    else if i < Share(n, t.high) then High
    else if i >= n - Share(n, t.low) then Low
    else Middle
  }

  ghost predicate DistinctNames(entries: seq<Entry>) {
    forall i, j :: 0 <= i < j < |entries| ==> entries[i].name != entries[j].name
  }

  ghost predicate Segmented(result: map<string, Segment>, entries: seq<Entry>, k: nat, t: Thresholds)
    requires k <= |entries|
  {
    && (forall name :: name in result <==> NamedBefore(entries, k, name))
    && (forall i :: 0 <= i < k ==>
          entries[i].name in result && result[entries[i].name] == SegmentAt(i, |entries|, entries[i].total, t))
  }

  ghost predicate NamedBefore(entries: seq<Entry>, k: nat, name: string)
    requires k <= |entries|
  {
    exists i :: 0 <= i < k && entries[i].name == name
  }

  /** `calculateSegments`; the entries are those of a Map, so their names differ. */
  method CalculateSegments(memberTotals: seq<Entry>, thresholds: Thresholds, minN: nat) returns (result: map<string, Segment>)
    requires DistinctNames(memberTotals)
    ensures |memberTotals| < minN ==> forall name :: name in result ==> result[name] == Middle
    ensures |memberTotals| < minN ==> forall name :: name in result <==> NamedBefore(memberTotals, |memberTotals|, name)
    ensures |memberTotals| >= minN ==>
      var sorted := StableSort(memberTotals, ByTotal()); Segmented(result, sorted, |sorted|, thresholds)
  {
    hide StableSort, TotalPreorder;
    result := map[];
    var n := |memberTotals|;
    ByTotalIsPreorder();
    SortSorts(memberTotals, ByTotal());
    if n == 0 { return; }
    if n < minN {
      for i := 0 to n
        invariant forall name :: name in result <==> NamedBefore(memberTotals, i, name)
        invariant forall name :: name in result ==> result[name] == Middle
      {
        result := result[memberTotals[i].name := Middle];
      }
      return;
    }
    PermutedNames(memberTotals, StableSort(memberTotals, ByTotal()));
    result := LabelSorted(StableSort(memberTotals, ByTotal()), thresholds);
  }

  /** The indexed loop over the sorted entries. */
  method LabelSorted(entries: seq<Entry>, thresholds: Thresholds) returns (result: map<string, Segment>)
    requires DistinctNames(entries)
    ensures Segmented(result, entries, |entries|, thresholds)
  {
    hide Share;
    result := map[];
    var n := |entries|;
    var highCount, lowCount := Share(n, thresholds.high), Share(n, thresholds.low);
    for i := 0 to n
      invariant Segmented(result, entries, i, thresholds)
    {
      var name, value := entries[i].name, entries[i].total;
      if value == 0 { result := result[name := Low]; }
      else if i < highCount { result := result[name := High]; }
      else if i >= n - lowCount { result := result[name := Low]; }
      else { result := result[name := Middle]; }
    }
  }

  lemma PermutedNames(a: seq<Entry>, b: seq<Entry>)
    requires multiset(a) == multiset(b) && DistinctNames(a)
    ensures DistinctNames(b)
  {
    forall e | e in multiset(b) ensures multiset(b)[e] == 1 && e in a {
      assert e in multiset(a);
      var k :| 0 <= k < |a| && a[k] == e;
      OnceEach(a, k);
    }
    forall i, j | 0 <= i < j < |b| ensures b[i].name != b[j].name {
      AtMostOnce(b, i, j);
      assert b[i] in multiset(b) && b[j] in multiset(b);
      var k :| 0 <= k < |a| && a[k] == b[i];
      var l :| 0 <= l < |a| && a[l] == b[j];
      assert k != l;
    }
  }

  lemma SegmentsFall(i: nat, j: nat, n: nat, a: nat, b: nat, t: Thresholds)
    requires i <= j && a >= b
    ensures SegmentAt(i, n, a, t).Level() >= SegmentAt(j, n, b, t).Level()
  {
    hide Share;
  }

  /** The place of an entry among the sorted ones. */
  lemma SortedPlace(memberTotals: seq<Entry>, e: Entry) returns (p: nat)
    requires e in memberTotals
    ensures var sorted := StableSort(memberTotals, ByTotal()); p < |sorted| && sorted[p] == e
  {
    hide StableSort, TotalPreorder;
    ByTotalIsPreorder();
    SortSorts(memberTotals, ByTotal());
    assert e in multiset(StableSort(memberTotals, ByTotal()));
    p :| 0 <= p < |StableSort(memberTotals, ByTotal())| && StableSort(memberTotals, ByTotal())[p] == e;
  }

  /** In a large enough cohort a larger total never gets a lower segment, whatever the thresholds. */
  lemma LargerTotalsRankHigher(memberTotals: seq<Entry>, result: map<string, Segment>, t: Thresholds, a: Entry, b: Entry)
    requires var sorted := StableSort(memberTotals, ByTotal()); Segmented(result, sorted, |sorted|, t)
    requires a in memberTotals && b in memberTotals && a.total > b.total
    ensures a.name in result && b.name in result
    ensures result[a.name].Level() >= result[b.name].Level()
  {
    hide StableSort, SegmentAt, TotalPreorder;
    ByTotalIsPreorder();
    SortSorts(memberTotals, ByTotal());
    var sorted := StableSort(memberTotals, ByTotal());
    var i := SortedPlace(memberTotals, a);
    var j := SortedPlace(memberTotals, b);
    assert i <= j by {
      assert j < i ==> ByTotal()(b, a);
    }
    SegmentsFall(i, j, |sorted|, a.total, b.total, t);
  }

  // ---- How many get each label ----

  function IsPositive(): Entry -> nat {
    (e: Entry) => if e.total > 0 then 1 else 0
  }

  ghost function Labelled(result: map<string, Segment>, s: Segment): set<string> {
    set name | name in result && result[name] == s
  }

  ghost function NamesBetween(entries: seq<Entry>, a: int, b: int): set<string>
    requires 0 <= a <= b <= |entries|
  {
    set i | a <= i < b :: entries[i].name
  }

  lemma {:induction false} NamesCount(entries: seq<Entry>, a: int, b: int)
    requires DistinctNames(entries) && 0 <= a <= b <= |entries|
    ensures |NamesBetween(entries, a, b)| == b - a
    decreases b
  {
    if a < b {
      NamesCount(entries, a, b - 1);
      assert NamesBetween(entries, a, b) == NamesBetween(entries, a, b - 1) + {entries[b - 1].name};
    }
  }

  /** The entries with a positive total come first. */
  lemma {:induction false} PositiveFirst(entries: seq<Entry>, i: nat)
    requires i < |entries| && forall k, l :: 0 <= k < l < |entries| ==> entries[k].total >= entries[l].total
    ensures SumNat(entries, IsPositive()) <= |entries|
    ensures entries[i].total > 0 <==> i < SumNat(entries, IsPositive())
  {
    var front := entries[..|entries| - 1];
    if front != [] {
      PositiveFirst(front, if i < |front| then i else |front| - 1);
      if i == |front| { PositiveFirst(front, 0); }
    }
  }

  /** The least integer that covers a percentage of n. */
  ghost predicate Covers(k: int, n: nat, percent: real) {
    k as real >= n as real * percent / 100.0 && (k - 1) as real < n as real * percent / 100.0
  }

  lemma ShareCovers(n: nat, percent: real)
    ensures Covers(Share(n, percent), n, percent)
  {
    assert n as real * (percent / 100.0) == n as real * percent / 100.0;
  }

  function Least(a: int, b: int): int {
    if a < b then a else b
  }

  /**
   * With h and l the least integers covering the two percentages: h members are high, or all with a positive
   * total when they are fewer; those with a zero total and the last l that are not high are low.
   */
  lemma SegmentSizes(memberTotals: seq<Entry>, result: map<string, Segment>, t: Thresholds, h: int, l: int)
    requires DistinctNames(memberTotals) && memberTotals != []
    requires var sorted := StableSort(memberTotals, ByTotal()); Segmented(result, sorted, |sorted|, t)
    requires Covers(h, |memberTotals|, t.high) && Covers(l, |memberTotals|, t.low) && 0 <= h <= |memberTotals| && 0 <= l <= |memberTotals|
    ensures var n, positive := |memberTotals|, SumNat(memberTotals, IsPositive());
            && |Labelled(result, High)| == Least(h, positive)
            && |Labelled(result, Low)| == n - Least(if h < n - l then n - l else h, positive)
  {
    hide StableSort, TotalPreorder, SegmentAt, DistinctNames, Covers;
    ByTotalIsPreorder();
    SortSorts(memberTotals, ByTotal());
    var sorted := StableSort(memberTotals, ByTotal());
    SumNatPermutes(memberTotals, sorted, IsPositive());
    assert |multiset(memberTotals)| == |memberTotals| && |multiset(sorted)| == |sorted|;
    PermutedNames(memberTotals, sorted);
    SharesAre(|memberTotals|, t, h, l);
    SortedSizes(sorted, result, t, h, l);
  }

  lemma SharesAre(n: nat, t: Thresholds, h: int, l: int)
    requires Covers(h, n, t.high) && Covers(l, n, t.low)
    ensures Share(n, t.high) == h && Share(n, t.low) == l
  {
    ShareCovers(n, t.high);
    ShareCovers(n, t.low);
    hide Share;
  }

  lemma SortedSizes(sorted: seq<Entry>, result: map<string, Segment>, t: Thresholds, h: int, l: int)
    requires DistinctNames(sorted) && sorted != [] && forall k, m :: 0 <= k < m < |sorted| ==> ByTotal()(sorted[k], sorted[m])
    requires Segmented(result, sorted, |sorted|, t)
    requires Share(|sorted|, t.high) == h && Share(|sorted|, t.low) == l && 0 <= h <= |sorted| && 0 <= l <= |sorted|
    ensures var n, positive := |sorted|, SumNat(sorted, IsPositive());
            && |Labelled(result, High)| == Least(h, positive)
            && |Labelled(result, Low)| == n - Least(if h < n - l then n - l else h, positive)
  {
    hide Share, SumNat, SegmentAt, Segmented, DistinctNames;
    var n, positive := |sorted|, SumNat(sorted, IsPositive());
    PositiveFirst(sorted, 0);
    forall i: nat | i < n
      ensures SegmentAt(i, n, sorted[i].total, t) == High <==> i < Least(h, positive)
      ensures SegmentAt(i, n, sorted[i].total, t) == Low <==> i >= Least(if h < n - l then n - l else h, positive)
    {
      PositiveFirst(sorted, i);
      LabelAt(i, n, sorted[i].total, t, positive);
    }
    LabelledNames(sorted, result, t, High, 0, Least(h, positive));
    LabelledNames(sorted, result, t, Low, Least(if h < n - l then n - l else h, positive), n);
  }

  lemma LabelAt(i: nat, n: nat, total: nat, t: Thresholds, positive: nat)
    requires i < n && (total > 0 <==> i < positive)
    ensures var h, l := Share(n, t.high), Share(n, t.low);
            && (SegmentAt(i, n, total, t) == High <==> i < Least(h, positive))
            && (SegmentAt(i, n, total, t) == Low <==> i >= Least(if h < n - l then n - l else h, positive))
  {
    hide Share;
  }

  lemma LabelledNames(sorted: seq<Entry>, result: map<string, Segment>, t: Thresholds, s: Segment, a: int, b: int)
    requires DistinctNames(sorted) && Segmented(result, sorted, |sorted|, t) && 0 <= a <= b <= |sorted|
    requires forall i: nat :: i < |sorted| ==> (SegmentAt(i, |sorted|, sorted[i].total, t) == s <==> a <= i < b)
    ensures |Labelled(result, s)| == b - a
  {
    hide SegmentAt;
    NamesCount(sorted, a, b);
    assert Labelled(result, s) == NamesBetween(sorted, a, b);
  }
}
