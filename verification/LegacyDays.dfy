/** Day counts when rows from before the weekday mask take part in upserts: when their order matters, exactly. */
module LegacyDays {
  import opened Permutations
  import opened WeekMask
  import opened Measures
  import opened Records

  /** A row as either version of the collector writes it. */
  predicate Dated(row: Row) {
    if row.measure.mask != NO_DAYS then row.Masked() else row.activeDays <= 7
  }

  function MeasureOf(row: Row): Measure {
    row.measure
  }

  /** The days of a row without a mask. */
  function Undated(row: Row): nat {
    if row.measure.mask == NO_DAYS then row.activeDays else 0
  }

  function HasMask(row: Row): nat {
    if row.measure.mask != NO_DAYS then 1 else 0
  }

  ghost function Union(rows: seq<Row>): Mask {
    SumOf(rows, MeasureOf).mask
  }

  /** What upserting the rows of one key, in this order, leaves. */
  function Fold(rows: seq<Row>): Row
    requires rows != []
  {
    if |rows| == 1 then rows[0] else Merge(Fold(rows[..|rows| - 1]), rows[|rows| - 1])
  }

  ghost predicate AllDated(rows: seq<Row>) {
    forall i :: 0 <= i < |rows| ==> Dated(rows[i])
  }

  function UpToSeven(n: nat): nat {
    Min(n, 7)
  }

  // ---- Bounds on the count ----

  lemma OneRow(row: Row)
    requires Dated(row)
    ensures Fold([row]) == row && Union([row]) == row.measure.mask
    ensures SumNat([row], Undated) == Undated(row) && SumNat([row], HasMask) == HasMask(row)
  {
    SumOfOne(row, MeasureOf);
    assert [row][..0] == [];
    hide Measure.Join;
  }

  /** What one more row does, given what the earlier ones left. */
  lemma MergeDays(stored: Row, row: Row)
    requires Dated(row) && stored.activeDays <= 7
    ensures var after := Merge(stored, row);
            && after.measure.mask == stored.measure.mask.Or(row.measure.mask)
            && (row.measure.mask == NO_DAYS ==>
                 after.measure.mask == stored.measure.mask && after.activeDays == UpToSeven(stored.activeDays + row.activeDays))
            && (row.measure.mask != NO_DAYS && stored.measure.mask == NO_DAYS ==>
                 after.measure.mask == row.measure.mask
                 && after.activeDays == UpToSeven(stored.activeDays + row.measure.mask.Popcount()))
            && (row.measure.mask != NO_DAYS && stored.measure.mask != NO_DAYS ==>
                 after.measure.mask != NO_DAYS && after.activeDays == after.measure.mask.Popcount())
            && after.activeDays <= 7
  {
    hide Work.Plus, Post.Plus, Mask.Popcount;
  }

  /**
   * The count lies between the days of the united masks and those plus all undated days, capped at seven, and
   * is the upper bound while at most one row carries a mask.
   */
  ghost predicate Bounded(fold: Row, union: Mask, undated: nat, masks: nat) {
    var days := union.Popcount();
    && fold.measure.mask == union
    && days <= fold.activeDays <= UpToSeven(days + undated)
    && (masks <= 1 ==> fold.activeDays == UpToSeven(days + undated))
    && (masks == 0 <==> union == NO_DAYS)
  }

  lemma {:induction false} FoldBounds(rows: seq<Row>)
    requires rows != [] && AllDated(rows)
    ensures Bounded(Fold(rows), Union(rows), SumNat(rows, Undated), SumNat(rows, HasMask))
  {
    hide Mask.Popcount, Mask.Or, Measure.Join, Merge;
    if |rows| == 1 {
      assert rows == [rows[0]];
      OneRow(rows[0]);
      NoDaysCount();
    } else {
      hide SumOf, SumNat, Union, Fold, Bounded, AllDated;
      var front, last := rows[..|rows| - 1], rows[|rows| - 1];
      FrontDated(rows);
      FoldBounds(front);
      FoldStep(rows);
      BoundedStep(Fold(front), last, Union(front), SumNat(front, Undated), SumNat(front, HasMask));
    }
  }

  lemma FrontDated(rows: seq<Row>)
    requires rows != [] && AllDated(rows)
    ensures AllDated(rows[..|rows| - 1]) && Dated(rows[|rows| - 1])
  {
  }

  lemma FoldStep(rows: seq<Row>)
    requires |rows| > 1
    ensures var front, last := rows[..|rows| - 1], rows[|rows| - 1];
            && Fold(rows) == Merge(Fold(front), last)
            && Union(rows) == Union(front).Or(last.measure.mask)
            && SumNat(rows, Undated) == SumNat(front, Undated) + Undated(last)
            && SumNat(rows, HasMask) == SumNat(front, HasMask) + HasMask(last)
  {
    hide Merge, Measure.Join, Mask.Or;
    JoinMask(SumOf(rows[..|rows| - 1], MeasureOf), rows[|rows| - 1].measure);
  }

  lemma BoundedStep(stored: Row, row: Row, union: Mask, undated: nat, masks: nat)
    requires Bounded(stored, union, undated, masks) && Dated(row)
    ensures Bounded(Merge(stored, row), union.Or(row.measure.mask), undated + Undated(row), masks + HasMask(row))
  {
    hide Mask.Popcount, Mask.Or, Merge;
    NoDaysCount();
    MergeDays(stored, row);
  }

  lemma NoDaysCount()
    ensures NO_DAYS.Popcount() == 0
  {
  }

  lemma JoinMask(a: Measure, b: Measure)
    ensures a.Join(b).mask == a.mask.Or(b.mask)
  {
    hide Work.Plus, Post.Plus, Mask.Or;
  }

  // ---- One key of a table ----

  function ForKey(k: Key): Record -> bool {
    (r: Record) => r.key == k
  }

  function RowsOf(rs: seq<Record>): seq<Row> {
    seq(|rs|, i requires 0 <= i < |rs| => rs[i].row)
  }

  function RowsFor(rs: seq<Record>, k: Key): seq<Row> {
    RowsOf(Filter(rs, ForKey(k)))
  }

  function DaysAt(t: Table, k: Key): nat {
    if k in t then t[k].activeDays else 0
  }

  lemma RowsForLast(front: seq<Record>, last: Record, k: Key)
    ensures RowsFor(front + [last], k) == if last.key == k then RowsFor(front, k) + [last.row] else RowsFor(front, k)
  {
    assert (front + [last])[..|front|] == front;
  }

  lemma {:induction false} UpsertIsFold(rs: seq<Record>, k: Key)
    ensures var rows := RowsFor(rs, k);
            && (k in UpsertAll(map[], rs) <==> rows != [])
            && (rows != [] ==> UpsertAll(map[], rs)[k] == Fold(rows))
  {
    hide Merge, RowsFor;
    if rs == [] {
      NoRows(k);
    } else {
      var front, last := rs[..|rs| - 1], rs[|rs| - 1];
      UpsertIsFold(front, k);
      RowsForLast(front, last, k);
      assert rs == front + [last];
      var rows := RowsFor(front, k);
      assert (rows + [last.row])[..|rows|] == rows;
    }
  }

  lemma NoRows(k: Key)
    ensures RowsFor([], k) == []
  {
  }

  lemma RowsForAppend(a: seq<Record>, b: seq<Record>, k: Key)
    ensures RowsFor(a + b, k) == RowsFor(a, k) + RowsFor(b, k)
  {
    FilterAppend(a, b, ForKey(k));
    hide Filter;
  }

  lemma RowsPermute(a: seq<Record>, b: seq<Record>)
    requires multiset(a) == multiset(b)
    ensures multiset(RowsOf(a)) == multiset(RowsOf(b))
    decreases |a|
  {
    if a == [] {
      assert |multiset(b)| == 0;
    } else {
      var i := MatchLast(a, b);
      RowsPermute(a[..|a| - 1], b[..i] + b[i + 1..]);
      assert RowsOf(a) == RowsOf(a[..|a| - 1]) + [a[|a| - 1].row];
      assert RowsOf(b) == RowsOf(b[..i]) + [b[i].row] + RowsOf(b[i + 1..]);
      assert RowsOf(b[..i] + b[i + 1..]) == RowsOf(b[..i]) + RowsOf(b[i + 1..]);
    }
  }

  // ---- When the order matters ----

  /** No undated days, or at most one mask to unite, or masks that already fill the week. */
  ghost predicate OrderSafe(rows: seq<Row>) {
    SumNat(rows, Undated) == 0 || SumNat(rows, HasMask) <= 1 || Union(rows).Popcount() == 7
  }

  lemma SafeCount(rows: seq<Row>)
    requires rows != [] && AllDated(rows) && OrderSafe(rows)
    ensures Fold(rows).activeDays
         == if SumNat(rows, HasMask) <= 1 then UpToSeven(Union(rows).Popcount() + SumNat(rows, Undated)) else Union(rows).Popcount()
  {
    hide Mask.Popcount;
    FoldBounds(rows);
  }

  /** What the order cannot change. */
  lemma SameIngredients(a: seq<Record>, b: seq<Record>, k: Key)
    requires multiset(a) == multiset(b) && AllDated(RowsFor(a, k))
    ensures var x, y := RowsFor(a, k), RowsFor(b, k);
            && (x == [] <==> y == []) && AllDated(y)
            && SumNat(x, Undated) == SumNat(y, Undated) && SumNat(x, HasMask) == SumNat(y, HasMask) && Union(x) == Union(y)
  {
    FilterPermutes(a, b, ForKey(k));
    RowsPermute(Filter(a, ForKey(k)), Filter(b, ForKey(k)));
    var x, y := RowsFor(a, k), RowsFor(b, k);
    hide RowsFor, Measure.Join, Dated;
    SumNatPermutes(x, y, Undated);
    SumNatPermutes(x, y, HasMask);
    SumOfPermutes(x, y, MeasureOf);
    assert |multiset(x)| == |multiset(y)|;
    forall i | 0 <= i < |y| ensures Dated(y[i]) {
      assert y[i] in multiset(y) && y[i] in multiset(x);
      assert y[i] in x;
    }
  }

  /** Undated rows after the others only add their days. */
  lemma {:induction false} UndatedLast(rows: seq<Row>, tail: seq<Row>)
    requires rows != [] && AllDated(rows + tail) && forall i :: 0 <= i < |tail| ==> tail[i].measure.mask == NO_DAYS
    ensures Fold(rows + tail).activeDays
         == if tail == [] then Fold(rows).activeDays else UpToSeven(Fold(rows).activeDays + SumNat(tail, Undated))
    decreases |tail|
  {
    hide Merge, Dated, Mask.Popcount;
    if tail == [] {
      assert rows + tail == rows;
    } else {
      var front, last := tail[..|tail| - 1], tail[|tail| - 1];
      var all := rows + tail;
      assert all[..|all| - 1] == rows + front;
      assert forall i :: 0 <= i < |rows + front| ==> (rows + front)[i] == all[i];
      UndatedLast(rows, front);
      FoldBounds(rows + front);
      assert Dated(all[|all| - 1]);
      MergeDays(Fold(rows + front), last);
      AtMostSeven(rows);
    }
  }

  lemma AtMostSeven(rows: seq<Row>)
    ensures rows != [] && AllDated(rows) ==> Fold(rows).activeDays <= 7
  {
    if rows != [] && AllDated(rows) { FoldBounds(rows); }
  }

  /** A mask after another mask drops whatever was undated. */
  lemma MaskLast(rows: seq<Row>)
    requires |rows| > 1 && AllDated(rows) && rows[|rows| - 1].measure.mask != NO_DAYS
    requires SumNat(rows[..|rows| - 1], HasMask) > 0
    ensures Fold(rows).activeDays == Union(rows).Popcount()
  {
    hide Merge, Mask.Popcount;
    FoldBounds(rows[..|rows| - 1]);
    MergeDays(Fold(rows[..|rows| - 1]), rows[|rows| - 1]);
    FoldBounds(rows);
  }

  // ---- Two orders that differ ----

  function WithMask(k: Key): Record -> bool {
    (r: Record) => r.key == k && r.row.measure.mask != NO_DAYS
  }

  function WithoutMask(k: Key): Record -> bool {
    (r: Record) => r.key == k && r.row.measure.mask == NO_DAYS
  }

  function Elsewhere(k: Key): Record -> bool {
    (r: Record) => r.key != k
  }

  lemma {:induction false} ThreeParts(rs: seq<Record>, k: Key)
    ensures multiset(Filter(rs, Elsewhere(k))) + multiset(Filter(rs, WithoutMask(k))) + multiset(Filter(rs, WithMask(k))) == multiset(rs)
  {
    if rs != [] {
      ThreeParts(rs[..|rs| - 1], k);
      assert rs == rs[..|rs| - 1] + [rs[|rs| - 1]];
    }
  }

  lemma {:induction false} FilterHolds<T>(s: seq<T>, p: T -> bool)
    ensures forall i :: 0 <= i < |Filter(s, p)| ==> p(Filter(s, p)[i])
  {
    if s != [] { FilterHolds(s[..|s| - 1], p); }
  }

  lemma {:induction false} AllOfKey(rs: seq<Record>, k: Key)
    requires forall i :: 0 <= i < |rs| ==> rs[i].key == k
    ensures RowsFor(rs, k) == RowsOf(rs)
  {
    if rs != [] {
      AllOfKey(rs[..|rs| - 1], k);
      RowsForLast(rs[..|rs| - 1], rs[|rs| - 1], k);
      assert rs == rs[..|rs| - 1] + [rs[|rs| - 1]];
    }
  }

  lemma {:induction false} NoneOfKey(rs: seq<Record>, k: Key)
    requires forall i :: 0 <= i < |rs| ==> rs[i].key != k
    ensures RowsFor(rs, k) == []
  {
    if rs != [] {
      NoneOfKey(rs[..|rs| - 1], k);
      RowsForLast(rs[..|rs| - 1], rs[|rs| - 1], k);
      assert rs == rs[..|rs| - 1] + [rs[|rs| - 1]];
    }
  }

  /** The rows of a key with its undated ones first, and with its undated ones last. */
  lemma TwoOrders(rs: seq<Record>, k: Key) returns (first: seq<Record>, second: seq<Record>, undated: seq<Row>, masked: seq<Row>)
    ensures multiset(first) == multiset(rs) == multiset(second)
    ensures RowsFor(first, k) == undated + masked && RowsFor(second, k) == masked + undated
    ensures forall i :: 0 <= i < |undated| ==> undated[i].measure.mask == NO_DAYS
    ensures forall i :: 0 <= i < |masked| ==> masked[i].measure.mask != NO_DAYS
  {
    hide RowsFor;
    var others, u, m := Filter(rs, Elsewhere(k)), Filter(rs, WithoutMask(k)), Filter(rs, WithMask(k));
    ThreeParts(rs, k);
    FilterHolds(rs, Elsewhere(k));
    FilterHolds(rs, WithoutMask(k));
    FilterHolds(rs, WithMask(k));
    hide Filter;
    NoneOfKey(others, k);
    AllOfKey(u, k);
    AllOfKey(m, k);
    first, second, undated, masked := others + u + m, others + m + u, RowsOf(u), RowsOf(m);
    RowsForAppend(others + u, m, k);
    RowsForAppend(others, u, k);
    RowsForAppend(others + m, u, k);
    RowsForAppend(others, m, k);
    assert [] + undated == undated && [] + masked == masked;
  }

  lemma {:induction false} CountParts(undated: seq<Row>, masked: seq<Row>)
    requires forall i :: 0 <= i < |undated| ==> undated[i].measure.mask == NO_DAYS
    requires forall i :: 0 <= i < |masked| ==> masked[i].measure.mask != NO_DAYS
    ensures SumNat(undated + masked, Undated) == SumNat(undated, Undated) && SumNat(masked, Undated) == 0
    ensures SumNat(undated + masked, HasMask) == |masked| == SumNat(masked, HasMask)
    decreases |masked|
  {
    if masked == [] {
      assert undated + masked == undated;
      NoMasks(undated);
    } else {
      var front := masked[..|masked| - 1];
      CountParts(undated, front);
      assert (undated + masked)[..|undated + masked| - 1] == undated + front;
    }
  }

  lemma {:induction false} NoMasks(undated: seq<Row>)
    requires forall i :: 0 <= i < |undated| ==> undated[i].measure.mask == NO_DAYS
    ensures SumNat(undated, HasMask) == 0
  {
    if undated != [] { NoMasks(undated[..|undated| - 1]); }
  }

  /** With undated days, two masks and a free weekday left, the two orders count differently. */
  ghost predicate Split(undated: seq<Row>, masked: seq<Row>) {
    && undated != [] && |masked| > 1
    && (forall i :: 0 <= i < |undated| ==> undated[i].measure.mask == NO_DAYS)
    && (forall i :: 0 <= i < |masked| ==> masked[i].measure.mask != NO_DAYS)
  }

  lemma OrdersDiffer(undated: seq<Row>, masked: seq<Row>, all: seq<Row>, other: seq<Row>)
    requires all != [] && other != []
    requires Split(undated, masked) && all == undated + masked && other == masked + undated
    requires AllDated(all) && AllDated(other) && Union(all) == Union(other)
    requires SumNat(all, Undated) > 0 && Union(all).Popcount() < 7
    ensures Fold(all).activeDays < Fold(other).activeDays
  {
    hide Fold, Dated, SumNat, Union, Mask.Popcount;
    CountParts(undated, masked);
    var front := masked[..|masked| - 1];
    assert all[..|all| - 1] == undated + front && all[|all| - 1] == masked[|masked| - 1];
    CountParts(undated, front);
    MaskLast(all);
    assert forall i :: 0 <= i < |masked| ==> masked[i] == other[i];
    FoldBounds(masked);
    UndatedLast(masked, undated);
    UnionOfBoth(masked, undated);
  }

  lemma UnsafeMeans(rows: seq<Row>)
    requires !OrderSafe(rows)
    ensures SumNat(rows, Undated) > 0 && Union(rows).Popcount() < 7
  {
    hide Mask.Popcount, SumNat, Union;
  }

  lemma PartsNeeded(undated: seq<Row>, masked: seq<Row>)
    requires !OrderSafe(undated + masked)
    requires forall i :: 0 <= i < |undated| ==> undated[i].measure.mask == NO_DAYS
    requires forall i :: 0 <= i < |masked| ==> masked[i].measure.mask != NO_DAYS
    ensures undated != [] && |masked| > 1
  {
    hide Mask.Popcount, Union;
    CountParts(undated, masked);
  }

  lemma {:induction false} UnionOfBoth(masked: seq<Row>, undated: seq<Row>)
    requires forall i :: 0 <= i < |undated| ==> undated[i].measure.mask == NO_DAYS
    ensures Union(masked + undated) == Union(masked)
    decreases |undated|
  {
    hide Measure.Join;
    if undated == [] {
      assert masked + undated == masked;
    } else {
      var all := masked + undated;
      assert all[..|all| - 1] == masked + undated[..|undated| - 1];
      UnionOfBoth(masked, undated[..|undated| - 1]);
      JoinMask(SumOf(all[..|all| - 1], MeasureOf), undated[|undated| - 1].measure);
      OrNone(Union(masked));
    }
  }

  lemma OrNone(m: Mask)
    ensures m.Or(NO_DAYS) == m
  {
  }

  /**
   * All orders of upserting the same records leave one day count for a key exactly when none of its rows brings
   * undated days, or at most one carries a mask, or the masks together fill the week.
   */
  lemma DayCountIgnoresOrderExactly(rs: seq<Record>, k: Key)
    requires AllDated(RowsFor(rs, k))
    ensures (forall other :: multiset(other) == multiset(rs) ==> DaysAt(UpsertAll(map[], other), k) == DaysAt(UpsertAll(map[], rs), k))
       <==> OrderSafe(RowsFor(rs, k))
  {
    hide RowsFor, UpsertAll, Fold, Mask.Popcount, OrderSafe, Union, SumNat, AllDated;
    UpsertIsFold(rs, k);
    if OrderSafe(RowsFor(rs, k)) {
      forall other | multiset(other) == multiset(rs)
        ensures DaysAt(UpsertAll(map[], other), k) == DaysAt(UpsertAll(map[], rs), k)
      {
        SafeOrder(rs, other, k);
      }
    } else {
      var first, second, undated, masked := TwoOrders(rs, k);
      UnsafeOrders(rs, first, second, undated, masked, k);
      assert DaysAt(UpsertAll(map[], first), k) != DaysAt(UpsertAll(map[], second), k);
    }
  }

  lemma SafeOrder(rs: seq<Record>, other: seq<Record>, k: Key)
    requires multiset(other) == multiset(rs) && AllDated(RowsFor(rs, k)) && OrderSafe(RowsFor(rs, k))
    ensures DaysAt(UpsertAll(map[], other), k) == DaysAt(UpsertAll(map[], rs), k)
  {
    hide RowsFor, UpsertAll, Fold, Mask.Popcount, Union, SumNat, AllDated;
    SameIngredients(rs, other, k);
    UpsertIsFold(rs, k);
    UpsertIsFold(other, k);
    if RowsFor(rs, k) != [] {
      SafeCount(RowsFor(rs, k));
      SafeCount(RowsFor(other, k));
    }
  }

  lemma UnsafeOrders(rs: seq<Record>, first: seq<Record>, second: seq<Record>, undated: seq<Row>, masked: seq<Row>, k: Key)
    requires AllDated(RowsFor(rs, k)) && !OrderSafe(RowsFor(rs, k))
    requires multiset(first) == multiset(rs) == multiset(second)
    requires RowsFor(first, k) == undated + masked && RowsFor(second, k) == masked + undated
    requires forall i :: 0 <= i < |undated| ==> undated[i].measure.mask == NO_DAYS
    requires forall i :: 0 <= i < |masked| ==> masked[i].measure.mask != NO_DAYS
    ensures DaysAt(UpsertAll(map[], first), k) < DaysAt(UpsertAll(map[], second), k)
  {
    hide RowsFor, UpsertAll, Fold, Mask.Popcount, Union, SumNat, AllDated;
    SameIngredients(rs, first, k);
    SameIngredients(rs, second, k);
    PartsNeeded(undated, masked);
    UnsafeMeans(undated + masked);
    OrdersDiffer(undated, masked, undated + masked, masked + undated);
    UpsertIsFold(first, k);
    UpsertIsFold(second, k);
  }
}
