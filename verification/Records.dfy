/** The `records` table of store/sqlite-store.ts: rows keyed by (member, week, repo), merged on write. */
module Records {
  import opened WeekMask
  import opened Measures

  datatype Key = Key(member: string, week: string, repo: string)

  /** The columns a conflicting insert leaves alone. */
  datatype Identity = Identity(email: string, org: string, orgType: string, team: string, tag: string, group: string)

  datatype Row = Row(id: Identity, measure: Measure, activeDays: nat) {
    /** A row whose day count and weekday mask agree; rows from before the mask existed do not. */
    predicate Masked() {
      activeDays == measure.mask.Popcount()
    }
  }

  datatype Record = Record(key: Key, row: Row)

  type Table = map<Key, Row>

  function Min(a: nat, b: nat): nat {
    if a < b then a else b
  }

  /** `ACTIVE_DAYS_MERGE_SQL`: unite the masks when both rows carry one, else add and cap at seven. */
  function MergeActiveDays(stored: Row, excluded: Row): nat {
    if stored.measure.mask != NO_DAYS && excluded.measure.mask != NO_DAYS
    then stored.measure.mask.Or(excluded.measure.mask).Popcount()
    else Min(stored.activeDays + excluded.activeDays, 7)
  }

  /** `ON CONFLICT DO UPDATE SET` of `upsertRecords`. */
  function Merge(stored: Row, excluded: Row): Row {
    Row(stored.id, stored.measure.Join(excluded.measure), MergeActiveDays(stored, excluded))
  }

  function Upsert(t: Table, r: Record): Table {
    t[r.key := if r.key in t then Merge(t[r.key], r.row) else r.row]
  }

  function UpsertAll(t: Table, rs: seq<Record>): Table {
    if rs == [] then t else Upsert(UpsertAll(t, rs[..|rs| - 1]), rs[|rs| - 1])
  }

  lemma {:induction false} UpsertAllAppend(t: Table, a: seq<Record>, b: seq<Record>)
    ensures UpsertAll(t, a + b) == UpsertAll(UpsertAll(t, a), b)
  {
    if b == [] {
      assert a + b == a;
    } else {
      assert (a + b)[..|a + b| - 1] == a + b[..|b| - 1];
      UpsertAllAppend(t, a, b[..|b| - 1]);
    }
  }

  // ---- The merge algebra ----

  ghost function MeasureAt(t: Table, k: Key): Measure {
    if k in t then t[k].measure else NOTHING
  }

  /** What a record adds to the measures of one key. */
  ghost function At(k: Key): Record -> Measure {
    (r: Record) => if r.key == k then r.row.measure else NOTHING
  }

  lemma UpsertMeasure(t: Table, r: Record, k: Key)
    ensures MeasureAt(Upsert(t, r), k) == MeasureAt(t, k).Join(At(k)(r))
  {
    hide Measure.Join, MergeActiveDays;
    JoinNothing(MeasureAt(t, k));
    JoinNothing(r.row.measure);
  }

  /** After any list of upserts, a key holds its old measures joined with those of the records for it. */
  lemma {:induction false} UpsertAllMeasures(t: Table, rs: seq<Record>, k: Key)
    ensures MeasureAt(UpsertAll(t, rs), k) == MeasureAt(t, k).Join(SumOf(rs, At(k)))
  {
    hide Measure.Join, MeasureAt;
    if rs == [] {
      JoinNothing(MeasureAt(t, k));
    } else {
      var front, last := rs[..|rs| - 1], rs[|rs| - 1];
      UpsertAllMeasures(t, front, k);
      UpsertMeasure(UpsertAll(t, front), last, k);
      JoinAssociates(MeasureAt(t, k), SumOf(front, At(k)), At(k)(last));
    }
  }

  ghost predicate Mentions(rs: seq<Record>, k: Key) {
    exists i :: 0 <= i < |rs| && rs[i].key == k
  }

  lemma {:induction false} UpsertAllKeys(t: Table, rs: seq<Record>, k: Key)
    ensures k in UpsertAll(t, rs) <==> k in t || Mentions(rs, k)
  {
    if rs != [] {
      var front, last := rs[..|rs| - 1], rs[|rs| - 1];
      UpsertAllKeys(t, front, k);
      if i :| 0 <= i < |rs| && rs[i].key == k {
        assert i < |front| ==> front[i].key == k;
      }
      if i :| 0 <= i < |front| && front[i].key == k {
        assert rs[i].key == k;
      }
    }
  }

  ghost predicate AllMasked(t: Table) {
    forall k :: k in t ==> t[k].Masked()
  }

  lemma MergeKeepsMask(stored: Row, excluded: Row)
    requires stored.Masked() && excluded.Masked()
    ensures Merge(stored, excluded).Masked()
  {
    var a, b := stored.measure.mask, excluded.measure.mask;
    assert a.Or(NO_DAYS) == a && NO_DAYS.Or(b) == b;
  }

  /** Without legacy rows, every merge keeps active_days equal to the popcount of the mask. */
  lemma {:induction false} UpsertKeepsMasks(t: Table, rs: seq<Record>)
    requires AllMasked(t) && forall i :: 0 <= i < |rs| ==> rs[i].row.Masked()
    ensures AllMasked(UpsertAll(t, rs))
  {
    if rs != [] {
      var front, last := rs[..|rs| - 1], rs[|rs| - 1];
      UpsertKeepsMasks(t, front);
      var before := UpsertAll(t, front);
      if last.key in before {
        MergeKeepsMask(before[last.key], last.row);
      }
    }
  }

  ghost predicate SameMeasures(t: Table, u: Table) {
    t.Keys == u.Keys && forall k :: k in t ==> t[k].measure == u[k].measure && t[k].activeDays == u[k].activeDays
  }

  /** The final measures depend neither on the order of the records nor on how they were batched. */
  lemma UpsertOrderIrrelevant(t: Table, a: seq<Record>, b: seq<Record>)
    requires multiset(a) == multiset(b)
    requires AllMasked(t) && forall i :: 0 <= i < |a| ==> a[i].row.Masked()
    ensures SameMeasures(UpsertAll(t, a), UpsertAll(t, b))
  {
    hide Upsert, UpsertAll, Measure.Join, Mask.Popcount;
    SameElements(a, b);
    UpsertKeepsMasks(t, a);
    UpsertKeepsMasks(t, b);
    forall k
      ensures k in UpsertAll(t, a) <==> k in UpsertAll(t, b)
      ensures MeasureAt(UpsertAll(t, a), k) == MeasureAt(UpsertAll(t, b), k)
    {
      SameKeyAndMeasure(t, a, b, k);
    }
    SameWhenMasked(UpsertAll(t, a), UpsertAll(t, b));
  }

  lemma SameWhenMasked(t: Table, u: Table)
    requires AllMasked(t) && AllMasked(u)
    requires forall k :: (k in t <==> k in u) && MeasureAt(t, k) == MeasureAt(u, k)
    ensures SameMeasures(t, u)
  {
    hide Mask.Popcount;
    forall k | k in t
      ensures t[k].measure == u[k].measure && t[k].activeDays == u[k].activeDays
    {
      assert MeasureAt(t, k) == MeasureAt(u, k);
      assert t[k].Masked() && u[k].Masked();
    }
  }

  lemma SameElements(a: seq<Record>, b: seq<Record>)
    requires multiset(a) == multiset(b)
    ensures forall r :: r in a <==> r in b
    ensures forall i :: 0 <= i < |b| ==> b[i] in a
  {
    assert forall r :: r in a <==> r in multiset(a);
    assert forall r :: r in b <==> r in multiset(b);
  }

  lemma SameKeyAndMeasure(t: Table, a: seq<Record>, b: seq<Record>, k: Key)
    requires multiset(a) == multiset(b) && forall r :: r in a <==> r in b
    ensures k in UpsertAll(t, a) <==> k in UpsertAll(t, b)
    ensures MeasureAt(UpsertAll(t, a), k) == MeasureAt(UpsertAll(t, b), k)
  {
    UpsertAllKeys(t, a, k);
    UpsertAllKeys(t, b, k);
    UpsertAllMeasures(t, a, k);
    UpsertAllMeasures(t, b, k);
    SumOfPermutes(a, b, At(k));
    hide UpsertAll, At, Measure.Join;
    assert Mentions(a, k) <==> exists r :: r in a && r.key == k;
    assert Mentions(b, k) <==> exists r :: r in b && r.key == k;
  }

  /** With a legacy row in play the day count does depend on the order. */
  lemma LegacyRowsAreOrderDependent(id: Identity, k: Key)
    ensures var legacy := Record(k, Row(id, NOTHING, 3));
            var monday := Record(k, Row(id, NOTHING.(mask := SingleDay(0)), 1));
            && UpsertAll(map[], [legacy, monday, monday])[k].activeDays == 1
            && UpsertAll(map[], [monday, monday, legacy])[k].activeDays == 4
  {
    var legacy := Record(k, Row(id, NOTHING, 3));
    var monday := Record(k, Row(id, NOTHING.(mask := SingleDay(0)), 1));
    var a, b := [legacy, monday, monday], [monday, monday, legacy];
    assert a[..2] == [legacy, monday] && [legacy, monday][..1] == [legacy] && [legacy][..0] == [];
    assert b[..2] == [monday, monday] && [monday, monday][..1] == [monday] && [monday][..0] == [];
    assert UpsertAll(map[], [legacy])[k] == legacy.row;
    assert UpsertAll(map[], [legacy, monday])[k].measure.mask == SingleDay(0);
    assert UpsertAll(map[], [monday])[k] == monday.row;
    assert UpsertAll(map[], [monday, monday])[k].measure.mask == SingleDay(0);
  }

  // ---- Totals over part of the table ----

  ghost function PickKey(t: Table): Key
    requires t != map[]
    ensures PickKey(t) in t
  {
    var k :| k in t; k
  }

  ghost function Part(t: Table, sel: Key -> bool, k: Key): Measure {
    if k in t && sel(k) then t[k].measure else NOTHING
  }

  /** The join of the selected rows. */
  ghost function Total(t: Table, sel: Key -> bool): Measure
    decreases |t|
  {
    if t == map[] then NOTHING
    else var k := PickKey(t); Total(t - {k}, sel).Join(Part(t, sel, k))
  }

  lemma {:induction false} TotalWithout(t: Table, sel: Key -> bool, k: Key)
    ensures Total(t, sel) == Total(t - {k}, sel).Join(Part(t, sel, k))
    decreases |t|
  {
    if k !in t {
      assert t - {k} == t;
      JoinNothing(Total(t, sel));
    } else {
      var j := PickKey(t);
      if j != k {
        hide Measure.Join;
        var both := t - {j} - {k};
        assert t - {k} - {j} == both;
        assert Total(t - {j}, sel) == Total(both, sel).Join(Part(t, sel, k)) by { TotalWithout(t - {j}, sel, k); }
        assert Total(t - {k}, sel) == Total(both, sel).Join(Part(t, sel, j)) by { TotalWithout(t - {k}, sel, j); }
        JoinSwaps(Total(both, sel), Part(t, sel, k), Part(t, sel, j));
      }
    }
  }

  /** Writing one row changes the total by what it holds beyond the old one. */
  lemma TotalWrite(t: Table, sel: Key -> bool, k: Key, row: Row, gain: Measure)
    requires sel(k) ==> row.measure == MeasureAt(t, k).Join(gain)
    ensures Total(t[k := row], sel) == Total(t, sel).Join(if sel(k) then gain else NOTHING)
  {
    hide Measure.Join;
    var u := t[k := row];
    TotalWithout(t, sel, k);
    TotalWithout(u, sel, k);
    assert u - {k} == t - {k};
    if sel(k) {
      JoinAssociates(Total(t - {k}, sel), MeasureAt(t, k), gain);
    } else {
      JoinNothing(Total(t, sel));
    }
  }

  lemma TotalUpsert(t: Table, sel: Key -> bool, r: Record)
    ensures Total(Upsert(t, r), sel) == Total(t, sel).Join(if sel(r.key) then r.row.measure else NOTHING)
  {
    hide Measure.Join, MergeActiveDays;
    JoinNothing(r.row.measure);
    TotalWrite(t, sel, r.key, Upsert(t, r)[r.key], r.row.measure);
  }

  ghost function Selected(sel: Key -> bool): Record -> Measure {
    (r: Record) => if sel(r.key) then r.row.measure else NOTHING
  }

  /** An upsert batch adds exactly its own measures to every total. */
  lemma {:induction false} TotalUpsertAll(t: Table, sel: Key -> bool, rs: seq<Record>)
    ensures Total(UpsertAll(t, rs), sel) == Total(t, sel).Join(SumOf(rs, Selected(sel)))
  {
    if rs == [] {
      JoinNothing(Total(t, sel));
    } else {
      var front, last := rs[..|rs| - 1], rs[|rs| - 1];
      hide Measure.Join;
      TotalUpsertAll(t, sel, front);
      TotalUpsert(UpsertAll(t, front), sel, last);
      JoinAssociates(Total(t, sel), SumOf(front, Selected(sel)), Selected(sel)(last));
    }
  }
}
