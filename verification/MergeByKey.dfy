/** Folding post-pass records into scan records, collector/index.ts `mergeRecordsByKey`. */
module MergeByKey {
  import opened Measures
  import opened Records

  /** A PR-proxy or rework record: `makeEmptyRecord` plus PR and rework counters. */
  predicate PostOnly(row: Row) {
    row.measure == NOTHING.(post := row.measure.post) && row.activeDays == 0
  }

  /** Add the PR and rework counters of `e` to a scan row in place. */
  function AddPost(row: Row, e: Row): Row {
    row.(measure := row.measure.(post := row.measure.post.Plus(e.measure.post)))
  }

  function FileExtra(byKey: Table, e: Record): Table {
    byKey[e.key := if e.key in byKey then AddPost(byKey[e.key], e.row) else e.row]
  }

  function FileExtras(byKey: Table, extra: seq<Record>): Table {
    if extra == [] then byKey else FileExtra(FileExtras(byKey, extra[..|extra| - 1]), extra[|extra| - 1])
  }

  /** The last record of each key. */
  function ByKey(rs: seq<Record>): Table {
    if rs == [] then map[] else ByKey(rs[..|rs| - 1])[rs[|rs| - 1].key := rs[|rs| - 1].row]
  }

  ghost predicate DistinctKeys(rs: seq<Record>) {
    forall i, j :: 0 <= i < j < |rs| ==> rs[i].key != rs[j].key
  }

  ghost predicate Lists(rs: seq<Record>, t: Table) {
    DistinctKeys(rs) && ByKey(rs) == t
  }

  method MergeRecordsByKey(base: seq<Record>, extra: seq<Record>) returns (merged: seq<Record>)
    ensures Lists(merged, FileExtras(ByKey(base), extra))
  {
    var byKey: Table := map[];
    var order: seq<Key> := [];
    for i := 0 to |base|
      invariant byKey == ByKey(base[..i])
      invariant InsertionOrder(order, byKey)
    {
      assert base[..i + 1][..i] == base[..i];
      if base[i].key !in byKey { order := order + [base[i].key]; }
      byKey := byKey[base[i].key := base[i].row];
    }
    assert base[..|base|] == base;
    hide ByKey, AddPost;
    for i := 0 to |extra|
      invariant byKey == FileExtras(ByKey(base), extra[..i])
      invariant InsertionOrder(order, byKey)
    {
      assert extra[..i + 1][..i] == extra[..i];
      var e := extra[i];
      if e.key !in byKey {
        byKey, order := byKey[e.key := e.row], order + [e.key];
      } else {
        byKey := byKey[e.key := AddPost(byKey[e.key], e.row)];
      }
    }
    assert extra[..|extra|] == extra;
    merged := Values(order, byKey);
  }

  /** `[...byKey.values()]`. */
  method Values(order: seq<Key>, byKey: Table) returns (merged: seq<Record>)
    requires InsertionOrder(order, byKey)
    ensures Lists(merged, byKey)
  {
    merged := [];
    ghost var listed: Table := map[];
    for i := 0 to |order|
      invariant |merged| == i && forall j :: 0 <= j < i ==> merged[j].key == order[j]
      invariant ByKey(merged) == listed
      invariant listed.Keys == set j | 0 <= j < i :: order[j]
      invariant forall k :: k in listed ==> k in byKey && listed[k] == byKey[k]
    {
      var r := Record(order[i], byKey[order[i]]);
      assert (merged + [r])[..i] == merged;
      merged, listed := merged + [r], listed[order[i] := byKey[order[i]]];
    }
    assert listed == byKey;
  }

  ghost predicate InsertionOrder(order: seq<Key>, t: Table) {
    && (forall i, j :: 0 <= i < j < |order| ==> order[i] != order[j])
    && (forall k :: k in t <==> k in order)
  }

  /** Upserting every row of a table of records. */
  ghost function Overlay(t: Table, m: Table): Table {
    map k | k in t.Keys + m.Keys ::
      if k !in m then t[k] else if k in t then Merge(t[k], m[k]) else m[k]
  }

  lemma {:induction false} OverlayIsUpsert(t: Table, rs: seq<Record>)
    requires DistinctKeys(rs)
    ensures UpsertAll(t, rs) == Overlay(t, ByKey(rs))
  {
    if rs == [] {
      assert Overlay(t, map[]) == t;
    } else {
      OverlayIsUpsert(t, rs[..|rs| - 1]);
      NotBefore(rs);
      OverlayNew(t, ByKey(rs[..|rs| - 1]), rs[|rs| - 1]);
    }
  }

  lemma OverlayNew(t: Table, m: Table, r: Record)
    requires r.key !in m
    ensures Overlay(t, m[r.key := r.row]) == Upsert(Overlay(t, m), r)
  {
    hide Merge;
    assert Overlay(t, m[r.key := r.row]) == Upsert(Overlay(t, m), r);
  }

  lemma NotBefore(rs: seq<Record>)
    requires DistinctKeys(rs) && rs != []
    ensures rs[|rs| - 1].key !in ByKey(rs[..|rs| - 1])
  {
    KeysListed(rs[..|rs| - 1], rs[|rs| - 1].key);
  }

  lemma {:induction false} KeysListed(rs: seq<Record>, k: Key)
    ensures k in ByKey(rs) ==> Mentions(rs, k)
  {
    if rs != [] && k in ByKey(rs) {
      var front := rs[..|rs| - 1];
      KeysListed(front, k);
      if rs[|rs| - 1].key != k {
        var i :| 0 <= i < |front| && front[i].key == k;
        assert rs[i].key == k;
      }
    }
  }

  ghost predicate AtMostSevenDays(t: Table) {
    forall k :: k in t ==> t[k].activeDays <= 7
  }

  /** Adding PR counters before the upsert or merging them after it gives the same row. */
  lemma PostMerges(stored: Row, row: Row, e: Row)
    requires PostOnly(e) && row.activeDays <= 7
    ensures Merge(Merge(stored, row), e) == Merge(stored, AddPost(row, e))
    ensures Merge(row, e) == AddPost(row, e)
  {
    JoinAssociates(stored.measure, row.measure, e.measure);
    AddPostJoins(row, e);
    MergedDays(stored, row);
    hide Measure.Join;
  }

  lemma MergedDays(stored: Row, row: Row)
    ensures Merge(stored, row).activeDays <= 7
  {
  }

  lemma AddPostJoins(row: Row, e: Row)
    requires PostOnly(e)
    ensures AddPost(row, e).measure == row.measure.Join(e.measure)
  {
    assert row.measure.scopes + {} == row.measure.scopes;
  }

  lemma FileExtraOverlays(t: Table, m: Table, e: Record)
    requires PostOnly(e.row) && AtMostSevenDays(m)
    ensures Overlay(t, FileExtra(m, e)) == Upsert(Overlay(t, m), e)
    ensures AtMostSevenDays(FileExtra(m, e))
  {
    if e.key in m {
      PostMerges(if e.key in t then t[e.key] else e.row, m[e.key], e.row);
    }
    hide Merge, AddPost;
    assert Overlay(t, FileExtra(m, e)) == Upsert(Overlay(t, m), e);
  }

  lemma {:induction false} FileExtrasOverlay(t: Table, m: Table, extra: seq<Record>)
    requires AtMostSevenDays(m) && forall i :: 0 <= i < |extra| ==> PostOnly(extra[i].row)
    ensures Overlay(t, FileExtras(m, extra)) == UpsertAll(Overlay(t, m), extra)
    ensures AtMostSevenDays(FileExtras(m, extra))
  {
    if extra != [] {
      var front := extra[..|extra| - 1];
      FileExtrasOverlay(t, m, front);
      FileExtraOverlays(t, FileExtras(m, front), extra[|extra| - 1]);
    }
  }

  /** Upserting the merged list leaves the same table as upserting the scan records, then the post-pass records. */
  lemma MergedUpsert(t: Table, base: seq<Record>, extra: seq<Record>, merged: seq<Record>)
    requires DistinctKeys(base) && Lists(merged, FileExtras(ByKey(base), extra))
    requires AtMostSevenDays(ByKey(base)) && forall i :: 0 <= i < |extra| ==> PostOnly(extra[i].row)
    ensures UpsertAll(t, merged) == UpsertAll(t, base + extra)
  {
    OverlayIsUpsert(t, merged);
    OverlayIsUpsert(t, base);
    FileExtrasOverlay(t, ByKey(base), extra);
    UpsertAllAppend(t, base, extra);
  }
}
