/** The SQLite store as an object: the tables of store/sqlite-store.ts and the statements that change them. */
module Database {
  import opened Text
  import opened Permutations
  import opened Measures
  import opened Columns
  import opened Records
  import opened Reattribution
  import opened AuthorRegistry
  import opened ScanState
  import opened ScanRuns
  import Lock = ScanLock

  /** Rows an update list rewrites, counting a row once per update that finds it. */
  ghost function RewrittenRows(t: Table, us: seq<Update>, order: RowOrder): nat
    requires ListsEachOnce(order)
  {
    if us == [] then 0
    else
      var front := us[..|us| - 1];
      RewrittenRows(t, front, order) + |ByEmail(ApplyUpdates(t, front, order), us[|us| - 1].email)|
  }

  ghost function Besides(sel: Key -> bool, repo: string): Key -> bool {
    (k: Key) => sel(k) && k.repo != repo
  }

  /** Nothing measured is left of one repository, and every selection of the other rows adds up to what it did. */
  ghost predicate Cleared(before: Table, after: Table, repo: string) {
    forall sel: Key -> bool :: Total(after, sel) == Total(before, Besides(sel, repo))
  }

  lemma ClearedTotals(before: Table, after: Table, repo: string)
    requires forall k :: k in after <==> k in before && k.repo != repo
    requires forall k :: k in after ==> after[k] == before[k]
    ensures Cleared(before, after, repo)
  {
    forall sel: Key -> bool ensures Total(after, sel) == Total(before, Besides(sel, repo)) {
      ClearedTotal(before, after, repo, sel);
    }
  }

  lemma {:induction false} ClearedTotal(before: Table, after: Table, repo: string, sel: Key -> bool)
    requires forall k :: k in after <==> k in before && k.repo != repo
    requires forall k :: k in after ==> after[k] == before[k]
    ensures Total(after, sel) == Total(before, Besides(sel, repo))
    decreases |before|
  {
    if before == map[] {
      assert after == map[];
    } else {
      hide Measure.Join, Total;
      var k := PickKey(before);
      ClearedTotal(before - {k}, after - {k}, repo, sel);
      TotalWithout(before, Besides(sel, repo), k);
      TotalWithout(after, sel, k);
      assert Part(after, sel, k) == Part(before, Besides(sel, repo), k);
    }
  }

  class Store {
    var records: Table
    var scanState: map<string, RepoState>
    var authors: Registry
    var scanLock: Option<Lock.Holder>

    constructor ()
      ensures Tables() == EMPTY_TABLES && scanLock == None
    {
      records, scanState, authors, scanLock := map[], map[], map[], None;
    }

    function Tables(): ScanRuns.Tables
      reads this
    {
      ScanRuns.Tables(records, scanState, authors)
    }

    // ---- records ----

    method UpsertRecords(recs: seq<Record>)
      modifies this`records
      ensures records == UpsertAll(old(records), recs)
      ensures forall k, col ::
        Value(MeasureAt(records, k), col) == Value(MeasureAt(old(records), k), col) + SumNat(recs, Brings(k, col))
    {
      for i := 0 to |recs|
        invariant records == UpsertAll(old(records), recs[..i])
      {
        assert recs[..i + 1][..i] == recs[..i];
        Insert(recs[i]);
      }
      assert recs[..|recs|] == recs;
      BatchAdds(old(records), recs);
    }

    /** `INSERT … ON CONFLICT (member, week, repo) DO UPDATE`. */
    method Insert(r: Record)
      modifies this`records
      ensures records == Upsert(old(records), r)
    {
      if r.key in records {
        var stored := records[r.key];
        records := records[r.key := Merge(stored, r.row)];
      } else {
        records := records[r.key := r.row];
      }
    }

    method DeleteRecordsForRepo(repo: string)
      modifies this`records
      ensures forall k :: k in records <==> k in old(records) && k.repo != repo
      ensures forall k :: k in records ==> records[k] == old(records)[k]
      ensures Cleared(old(records), records, repo)
    {
      var kept := map k | k in records && k.repo != repo :: records[k];
      ClearedTotals(records, kept, repo);
      records := kept;
    }

    /** `reattributeRecordsSQL`; `order` is the order in which SQLite returns the rows of an email. */
    method ReattributeRecords(updates: seq<Update>, order: RowOrder) returns (rewritten: nat)
      requires ListsEachOnce(order)
      modifies this`records
      ensures records == ApplyUpdates(old(records), updates, order)
      ensures rewritten == RewrittenRows(old(records), updates, order)
      ensures forall week, repo, col :: SlotSum(records, week, repo, col) == SlotSum(old(records), week, repo, col)
    {
      hide ApplyUpdate, ListsEachOnce, ReattributeUpsert;
      rewritten := 0;
      for i := 0 to |updates|
        invariant records == ApplyUpdates(old(records), updates[..i], order)
        invariant rewritten == RewrittenRows(old(records), updates[..i], order)
      {
        assert updates[..i + 1][..i] == updates[..i];
        var rows := ReattributeOne(updates[i], order);
        rewritten := rewritten + rows;
      }
      assert updates[..|updates|] == updates;
      UpdatesKeepSums(old(records), updates, order);
    }

    method ReattributeOne(u: Update, order: RowOrder) returns (rows: nat)
      requires ListsEachOnce(order)
      modifies this`records
      ensures records == ApplyUpdate(old(records), u, order)
      ensures rows == |ByEmail(old(records), u.email)|
    {
      hide ReattributeUpsert, ListsEachOnce;
      var selected := ByEmail(records, u.email);
      var keys := order(selected);
      OrderedRows(records, selected, order);
      RowCount(selected, order);
      assert forall k :: k in keys ==> k in selected && k in records;
      rows := |keys|;
      if rows == 0 {
        assert records - selected == records;
        return;
      }
      var source := records;
      records := records - selected;
      for j := 0 to |keys|
        invariant records == PutBack(source - selected, source, keys[..j], u)
      {
        assert keys[..j + 1][..j] == keys[..j];
        Reinsert(Renamed(keys[j], source[keys[j]], u));
      }
      assert keys[..|keys|] == keys;
    }

    /** The dedicated upsert, which also overwrites the attribution of a row it collides with. */
    method Reinsert(r: Record)
      modifies this`records
      ensures records == ReattributeUpsert(old(records), r)
    {
      if r.key in records {
        var stored := records[r.key];
        var merged := Merge(stored, r.row);
        records := records[r.key := merged.(id := r.row.id.(group := stored.id.group))];
      } else {
        records := records[r.key := r.row];
      }
    }

    // ---- scan state ----

    method UpdateRepoScanState(repo: string, rs: RepoState)
      modifies this`scanState
      ensures scanState == old(scanState)[repo := rs]
    {
      scanState := scanState[repo := rs];
    }

    method DeleteScanStateForRepo(repo: string)
      modifies this`scanState
      ensures scanState == old(scanState) - {repo}
    {
      scanState := scanState - {repo};
    }

    // ---- authors ----

    /** `saveAuthorRegistrySQL`: one upsert per author. */
    method SaveAuthorRegistry(reg: Registry)
      modifies this`authors
      ensures authors == Saved(old(authors), reg)
    {
      hide SaveOver, Saved, SaveOne;
      var rest := reg.Keys;
      NothingSaved(authors, reg);
      while rest != {}
        invariant rest <= reg.Keys
        invariant authors == Saved(old(authors), reg - rest)
        decreases |rest|
      {
        var email :| email in rest;
        SavedStep(old(authors), reg, rest, email);
        InsertAuthor(email, reg[email]);
        rest := rest - {email};
      }
      assert reg - rest == reg;
    }

    /** `INSERT … ON CONFLICT (email) DO UPDATE`. */
    method InsertAuthor(email: string, a: DiscoveredAuthor)
      modifies this`authors
      ensures authors == SaveOne(old(authors), email, a)
    {
      if email in authors {
        var stored := authors[email];
        authors := authors[email := SaveOver(stored, a)];
      } else {
        authors := authors[email := a];
      }
    }

    method SubtractRepoFromAuthorCounts(repo: string)
      modifies this`authors
      ensures authors == Subtracted(old(authors), repo)
    {
      var reg := SubtractRepoFromRegistry(authors, repo);
      SubtractedIsSaved(authors, repo);
      SaveAuthorRegistry(reg);
    }

    // ---- lock ----

    /** `acquireScanLock`; `alive` says which pids answer a signal. */
    method AcquireScanLock(pid: int, now: int, alive: int -> bool) returns (taken: bool)
      modifies this`scanLock
      ensures var attempt := Lock.TryAcquire(old(scanLock), pid, now, alive);
              && taken == attempt.Taken?
              && scanLock == if attempt.Taken? then Some(attempt.row) else old(scanLock)
      ensures var held := old(scanLock);
              taken <==> held.None? || (held.value.pid != pid && !alive(held.value.pid)) || now - held.value.startedAt >= 7_200_000
    {
      if scanLock.Some? {
        var held := scanLock.value;
        var age := now - held.startedAt;
        if (held.pid == pid || alive(held.pid)) && age < Lock.SCAN_LOCK_MAX_AGE_MS {
          return false;
        }
      }
      scanLock := Some(Lock.Holder(pid, now));
      return true;
    }

    method ReleaseScanLock()
      modifies this`scanLock
      ensures scanLock == None
    {
      scanLock := None;
    }
  }

  lemma BatchAdds(t: Table, recs: seq<Record>)
    ensures forall k, col ::
      Value(MeasureAt(UpsertAll(t, recs), k), col) == Value(MeasureAt(t, k), col) + SumNat(recs, Brings(k, col))
  {
    hide Value, MeasureAt, UpsertAll, SumNat, Brings;
    forall k, col
      ensures Value(MeasureAt(UpsertAll(t, recs), k), col) == Value(MeasureAt(t, k), col) + SumNat(recs, Brings(k, col))
    {
      UpsertsAdd(t, recs, k, col);
    }
  }

  lemma UpdatesKeepSums(t: Table, us: seq<Update>, order: RowOrder)
    requires ListsEachOnce(order)
    ensures forall week, repo, col :: SlotSum(ApplyUpdates(t, us, order), week, repo, col) == SlotSum(t, week, repo, col)
  {
    hide SlotSum, ApplyUpdates, ListsEachOnce;
    forall week, repo, col ensures SlotSum(ApplyUpdates(t, us, order), week, repo, col) == SlotSum(t, week, repo, col) {
      ReattributionKeepsSums(t, us, order, week, repo, col, "", 0);
    }
  }

  lemma RowCount(s: set<Key>, order: RowOrder)
    requires ListsEachOnce(order)
    ensures |order(s)| == |s|
  {
    assert |multiset(order(s))| == |multiset(s)|;
  }
}
