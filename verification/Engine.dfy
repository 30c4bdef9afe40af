/**
 * A scan of all repositories, collector/index.ts `scanAllRepos`, with the callbacks of
 * engine/gitradar-engine.ts: the store, the scan state in memory, and how the two stay together.
 */
module Engine {
  import opened Text
  import opened Records
  import opened MergeByKey
  import opened Commits
  import opened Collector
  import opened AuthorRegistry
  import opened ScanState
  import opened ScanRuns
  import opened Database
  import Lock = ScanLock

  /** The tables, the state `scanAllRepos` carries along, and the engine's own fields. */
  datatype Memory = Memory(tables: Tables, current: map<string, RepoState>, held: map<string, RepoState>, registry: Registry)

  /** How a scan is asked for; `mirror` when the engine adopts each new state at once. */
  datatype Request = Request(force: bool, staleness: int, mirror: bool)

  predicate CompletesVisit(req: Request, m: Memory, v: Visit) {
    !Skips(req.force, req.staleness, Find(m.current, v.repo), v) && !AnyFails(v.runs)
  }

  function Discovered(rules: Rules, req: Request, m: Memory, v: Visit): map<string, RawAuthor> {
    TakeAll(EMPTY_ACC, rules, v.repo, v.group, Counts(req.force, Find(m.current, v.repo), v)).authors
  }

  ghost function VisitOnce(rules: Rules, req: Request, m: Memory, v: Visit): Memory {
    var state := Find(m.current, v.repo);
    var after := Visited(rules, req.staleness, m.tables, req.force, state, v);
    if CompletesVisit(req, m, v) then
      var current := m.current[v.repo := after.scan[v.repo]];
      Memory(after, current,
             if req.mirror then current else if req.force then m.held - {v.repo} else m.held,
             if Discovered(rules, req, m, v) != map[] then after.authors else m.registry)
    else if req.force && v.pathExists then Memory(after, m.current, m.held - {v.repo}, m.registry)
    else m
  }

  ghost function VisitAll(rules: Rules, req: Request, m: Memory, vs: seq<Visit>): Memory {
    if vs == [] then m else VisitOnce(rules, req, VisitAll(rules, req, m, vs[..|vs| - 1]), vs[|vs| - 1])
  }

  class GitRadarEngine {
    const db: Store
    var scanState: map<string, RepoState>
    var authorRegistry: Registry

    /** `loadStores`. */
    constructor (db: Store)
      ensures this.db == db && scanState == db.scanState && authorRegistry == db.authors
    {
      this.db := db;
      scanState, authorRegistry := db.scanState, db.authors;
    }

    ghost function Held(current: map<string, RepoState>): Memory
      reads this, db
    {
      Memory(db.Tables(), current, scanState, authorRegistry)
    }

    /** `scan`: nothing happens while another scan holds the lock, and the lock is free afterwards otherwise. */
    method Scan(rules: Rules, force: bool, staleness: int, visits: seq<Visit>, pid: int, now: int, alive: int -> bool)
      returns (scanned: bool)
      modifies this, db
      ensures scanned <==> Lock.TryAcquire(old(db.scanLock), pid, now, alive).Taken?
      ensures !scanned ==> Held(scanState) == old(Held(scanState)) && db.scanLock == old(db.scanLock)
      ensures scanned ==> db.scanLock == None
      ensures scanned ==>
        exists current :: Held(current) == VisitAll(rules, Request(force, staleness, true), old(Held(scanState)), visits)
    {
      hide VisitAll;
      scanned := db.AcquireScanLock(pid, now, alive);
      if !scanned { return; }
      var current := ScanAllRepos(rules, scanState, Request(force, staleness, true), visits);
      db.ReleaseScanLock();
      assert Held(current) == VisitAll(rules, Request(force, staleness, true), old(Held(scanState)), visits);
    }

    /** `rescanRepo`: a forced scan of one repository that starts without its scan state. */
    method RescanRepo(rules: Rules, visit: Visit, pid: int, now: int, alive: int -> bool) returns (scanned: bool)
      modifies this, db
      ensures scanned <==> Lock.TryAcquire(old(db.scanLock), pid, now, alive).Taken?
      ensures scanned ==> db.scanLock == None
      ensures scanned ==> db.Tables() == Visited(rules, 0, old(db.Tables()), true, None, visit)
      ensures scanned ==>
        var completed := visit.pathExists && !AnyFails(visit.runs);
        && (completed ==> visit.repo in db.scanState)
        && scanState == if completed then old(scanState)[visit.repo := db.scanState[visit.repo]] else old(scanState) - {visit.repo}
      ensures !scanned ==> db.Tables() == old(db.Tables()) && db.scanLock == old(db.scanLock) && scanState == old(scanState)
    {
      hide Reset, VisitAll, AnyFails, TakeAll, ScanTable, FileExtras, Overlay, NextState, Merged, Counts, NewestFirst;
      authorRegistry := db.authors;
      var fresh' := scanState - {visit.repo};
      scanned := db.AcquireScanLock(pid, now, alive);
      if !scanned { return; }
      ghost var before := Held(fresh');
      var updated := ScanAllRepos(rules, fresh', Request(true, 0, false), [visit]);
      OneVisit(rules, Request(true, 0, false), before, visit);
      db.ReleaseScanLock();
      scanState := updated;
    }

    /** `scanAllRepos` with the engine's callbacks. */
    method ScanAllRepos(rules: Rules, initial: map<string, RepoState>, req: Request, visits: seq<Visit>)
      returns (current: map<string, RepoState>)
      modifies this, db
      ensures Held(current) == VisitAll(rules, req, old(Held(initial)), visits)
      ensures db.scanLock == old(db.scanLock)
    {
      hide VisitOnce, Held;
      current := initial;
      for i := 0 to |visits|
        invariant Held(current) == VisitAll(rules, req, old(Held(initial)), visits[..i])
        invariant db.scanLock == old(db.scanLock)
      {
        assert visits[..i + 1][..i] == visits[..i];
        current := ScanOneRepo(rules, current, req, visits[i]);
      }
      assert visits[..|visits|] == visits;
    }

    /** One turn of the loop; a skipped repository and a failed ordinary scan leave everything as it was. */
    method ScanOneRepo(rules: Rules, currentState: map<string, RepoState>, req: Request, v: Visit)
      returns (current: map<string, RepoState>)
      modifies this, db
      ensures Held(current) == VisitOnce(rules, req, old(Held(currentState)), v)
      ensures Skips(req.force, req.staleness, Find(currentState, v.repo), v) || (!req.force && AnyFails(v.runs))
        ==> Held(current) == old(Held(currentState))
      ensures var state, after := Find(currentState, v.repo), Find(current, v.repo);
        var due := req.force || state.None? || v.now - state.value.lastScanDate > req.staleness * 60_000;
        && (!due || !v.pathExists ==> Held(current) == old(Held(currentState)))
        && (due && v.pathExists && !AnyFails(v.runs) ==> after.Some? && after.value.lastScanDate == v.finished)
      ensures db.scanLock == old(db.scanLock)
    {
      hide Completed, ScanTable, Lists, Subtracted, TakeAll, NewestFirst, Fresh, Printed, AnyFails;
      current := currentState;
      var repoState := if v.repo in current then Some(current[v.repo]) else None;
      if !req.force && !IsStale(repoState, req.staleness, v.now) { return; }
      if !v.pathExists { return; }
      if req.force { OnRepoReset(v.repo); }
      var recent := RecentSet(req.force, repoState);
      var result := ScanRepo(v.runs, rules, v.repo, v.group, recent);
      if result.Failed? { return; }
      current := StoreResult(rules, current, req, v, repoState, result);
    }

    /** The store effects of a good scan: records, then authors, then the cursor. */
    method StoreResult(rules: Rules, currentState: map<string, RepoState>, req: Request, v: Visit,
                       repoState: Option<RepoState>, result: ScanResult)
      returns (current: map<string, RepoState>)
      requires result.Scanned?
      requires var counted := Counts(req.force, repoState, v);
        && Lists(result.records, ScanTable(rules, v.repo, v.group, counted))
        && result.hashes == NewestFirst(v.runs, RecentSet(req.force, repoState))
        && result.authors == TakeAll(EMPTY_ACC, rules, v.repo, v.group, counted).authors
      modifies this, db
      ensures db.Tables() == Completed(rules, old(db.Tables()), req.force, repoState, v)
      ensures current == currentState[v.repo := db.scanState[v.repo]]
      ensures current[v.repo].lastScanDate == v.finished
      ensures scanState == if req.mirror then current else old(scanState)
      ensures authorRegistry == if result.authors != map[] then db.authors else old(authorRegistry)
      ensures db.scanLock == old(db.scanLock)
    {
      hide NextState, ScanTable, Lists, Overlay, FileExtras, Merged, TakeAll, NewestFirst, RecentSet, Counts;
      var merged := MergeRecordsByKey(result.records, v.extra);
      ghost var counted := Counts(req.force, repoState, v);
      ghost var scanned := ScanTable(rules, v.repo, v.group, counted);
      ListedTable(result.records, scanned);
      ListedTable(merged, FileExtras(scanned, v.extra));
      OverlayIsUpsert(db.records, merged);
      db.UpsertRecords(merged);
      if result.authors != map[] {
        OnAuthorsDiscovered(rules, v.repo, v.group, result.authors, counted);
      } else {
        NoAuthors(db.authors, rules, v.repo);
      }
      var state := NextState(req.force, repoState, v, result.hashes, |result.records|);
      FinishSaved(req.force, repoState, v, result.hashes, |result.records|);
      current := currentState[v.repo := state];
      if req.mirror { scanState := current; }
      db.UpdateRepoScanState(v.repo, state);
    }

    /** `onRepoReset` and `forgetRepoScanState`. */
    method OnRepoReset(repo: string)
      modifies this`scanState, db
      ensures db.Tables() == Reset(old(db.Tables()), repo) && scanState == old(scanState) - {repo}
      ensures db.scanLock == old(db.scanLock)
    {
      db.DeleteRecordsForRepo(repo);
      db.DeleteScanStateForRepo(repo);
      db.SubtractRepoFromAuthorCounts(repo);
      scanState := scanState - {repo};
    }

    /** `mergeDiscoveredIntoStore`: into the registry as stored now. */
    method OnAuthorsDiscovered(rules: Rules, repo: string, group: string, raw: map<string, RawAuthor>, ghost counted: seq<Commit>)
      requires raw == TakeAll(EMPTY_ACC, rules, repo, group, counted).authors
      modifies this`authorRegistry, db`authors
      ensures db.authors == authorRegistry == Merged(old(db.authors), rules, repo, raw)
    {
      hide Merged, TakeAll, Saved;
      AuthorsKeyedByEmail(rules, repo, group, counted);
      var merged := MergeDiscoveredAuthors(db.authors, rules, repo, raw);
      MergedIsSaved(db.authors, rules, repo, raw);
      db.SaveAuthorRegistry(merged);
      authorRegistry := merged;
    }
  }

  lemma {:induction false} AuthorsKeyedByEmail(rules: Rules, repo: string, group: string, counted: seq<Commit>)
    ensures KeyedByEmail(rules, TakeAll(EMPTY_ACC, rules, repo, group, counted).authors)
  {
    if counted != [] {
      var front, c := counted[..|counted| - 1], counted[|counted| - 1];
      AuthorsKeyedByEmail(rules, repo, group, front);
      TakeAuthor(TakeAll(EMPTY_ACC, rules, repo, group, front), rules, repo, group, c);
      hide Take;
    }
  }

  lemma {:induction false} ListedTable(rs: seq<Record>, t: Table)
    requires Lists(rs, t)
    ensures ByKey(rs) == t && DistinctKeys(rs) && |rs| == |t|
    decreases |rs|
  {
    if rs != [] {
      var front, last := rs[..|rs| - 1], rs[|rs| - 1];
      NotBefore(rs);
      ListedTable(front, ByKey(front));
    }
  }

  lemma FinishSaved(force: bool, state: Option<RepoState>, v: Visit, hashes: seq<string>, records: nat)
    ensures NextState(force, state, v, hashes, records).lastScanDate == v.finished
  {
  }

  lemma NoAuthors(reg: Registry, rules: Rules, repo: string)
    ensures Merged(reg, rules, repo, map[]) == reg
  {
  }

  lemma OneVisit(rules: Rules, req: Request, m: Memory, v: Visit)
    ensures VisitAll(rules, req, m, [v]) == VisitOnce(rules, req, m, v)
  {
    hide VisitOnce;
    assert [v][..0] == [];
    assert VisitAll(rules, req, m, []) == m;
  }
}
