/** What whole scans of the engine do: to the store they are runs of visits, and to the state in memory nearly the same. */
module EngineRuns {
  import opened Text
  import opened Records
  import opened MergeByKey
  import opened Commits
  import opened Collector
  import opened AuthorRegistry
  import opened ScanState
  import opened ScanRuns
  import opened Engine

  function EventsOf(force: bool, vs: seq<Visit>): seq<Event> {
    seq(|vs|, i requires 0 <= i < |vs| => Event(force, vs[i]))
  }

  ghost predicate DistinctRepos(vs: seq<Visit>) {
    forall i, j :: 0 <= i < j < |vs| ==> vs[i].repo != vs[j].repo
  }

  ghost predicate NotVisited(vs: seq<Visit>, r: string) {
    forall i :: 0 <= i < |vs| ==> vs[i].repo != r
  }

  /** Memory as `loadStores` leaves it. */
  ghost predicate InStep(m: Memory) {
    m.current == m.held == m.tables.scan
  }

  lemma VisitTables(rules: Rules, req: Request, m: Memory, v: Visit)
    ensures VisitOnce(rules, req, m, v).tables
         == Visited(rules, req.staleness, m.tables, req.force, Find(m.current, v.repo), v)
  {
    hide Completed, Reset, AnyFails, IsStale;
  }

  /** An ordinary scan keeps the three copies of the scan state equal. */
  lemma {:induction false} OrdinaryStaysInStep(rules: Rules, req: Request, m: Memory, vs: seq<Visit>)
    requires !req.force && req.mirror && InStep(m)
    ensures InStep(VisitAll(rules, req, m, vs))
  {
    if vs != [] {
      OrdinaryStaysInStep(rules, req, m, vs[..|vs| - 1]);
      hide VisitAll, AnyFails, IsStale, ScanTable, NextState, NewestFirst, Overlay, FileExtras, Merged, TakeAll;
    }
  }

  /** And the author registry in memory equal to the stored one. */
  lemma {:induction false} OrdinaryRegistryInStep(rules: Rules, req: Request, m: Memory, vs: seq<Visit>)
    requires !req.force && m.registry == m.tables.authors
    ensures VisitAll(rules, req, m, vs).registry == VisitAll(rules, req, m, vs).tables.authors
  {
    hide VisitOnce;
    if vs != [] {
      OrdinaryRegistryInStep(rules, req, m, vs[..|vs| - 1]);
      RegistryAfter(rules, req, VisitAll(rules, req, m, vs[..|vs| - 1]), vs[|vs| - 1]);
    }
  }

  /** A visit that completes and discovers an author brings the registry in memory up to date, forced or not. */
  lemma RegistryAfter(rules: Rules, req: Request, m: Memory, v: Visit)
    ensures var n := VisitOnce(rules, req, m, v);
            && (!req.force && m.registry == m.tables.authors ==> n.registry == n.tables.authors)
            && (CompletesVisit(req, m, v) && Discovered(rules, req, m, v) != map[] ==> n.registry == n.tables.authors)
  {
    NoAuthors(m.tables.authors, rules, v.repo);
    hide AnyFails, IsStale, ScanTable, NextState, NewestFirst, Overlay, FileExtras, Merged, TakeAll, Subtracted;
  }

  lemma VisitElsewhere(rules: Rules, req: Request, m: Memory, v: Visit, r: string)
    requires v.repo != r
    ensures var n := VisitOnce(rules, req, m, v);
            && Find(n.current, r) == Find(m.current, r)
            && Find(n.tables.scan, r) == Find(m.tables.scan, r)
            && Find(n.held, r) == if CompletesVisit(req, m, v) && req.mirror then Find(m.current, r) else Find(m.held, r)
  {
    hide AnyFails, IsStale, ScanTable, NextState, NewestFirst, Overlay, FileExtras, Merged, TakeAll, Subtracted;
  }

  lemma {:induction false} UnvisitedUnchanged(rules: Rules, req: Request, m: Memory, vs: seq<Visit>, r: string)
    requires NotVisited(vs, r)
    ensures var n := VisitAll(rules, req, m, vs);
            Find(n.current, r) == Find(m.current, r) && Find(n.tables.scan, r) == Find(m.tables.scan, r)
  {
    hide VisitOnce;
    if vs != [] {
      UnvisitedUnchanged(rules, req, m, vs[..|vs| - 1], r);
      VisitElsewhere(rules, req, VisitAll(rules, req, m, vs[..|vs| - 1]), vs[|vs| - 1], r);
    }
  }

  lemma NextVisit(rules: Rules, staleness: int, es: seq<Event>, e: Event)
    ensures var w := Run(rules, staleness, es);
            Run(rules, staleness, es + [e]).tables
            == Visited(rules, staleness, w.tables, e.force, Find(w.tables.scan, e.visit.repo), e.visit)
  {
    hide Visited;
    assert (es + [e])[..|es|] == es;
  }

  /**
   * What a scan leaves in the store is what the visits, taken as events of a run, leave there: the state
   * each visit reads from memory is the persisted one. A forced scan needs distinct repository names.
   */
  lemma {:induction false} ScanIsRun(rules: Rules, req: Request, es: seq<Event>, m: Memory, vs: seq<Visit>)
    requires req.mirror && InStep(m) && m.tables == Run(rules, req.staleness, es).tables
    requires req.force ==> DistinctRepos(vs)
    ensures VisitAll(rules, req, m, vs).tables == Run(rules, req.staleness, es + EventsOf(req.force, vs)).tables
  {
    if vs == [] {
      NoVisits(rules, req, m);
      assert es + EventsOf(req.force, vs) == es;
    } else {
      var front, v := vs[..|vs| - 1], vs[|vs| - 1];
      assert req.force ==> DistinctRepos(front) && NotVisited(front, v.repo);
      hide *;
      ScanIsRun(rules, req, es, m, front);
      EventsStep(es, req.force, vs);
      NextVisit(rules, req.staleness, es + EventsOf(req.force, front), Event(req.force, v));
      VisitStep(rules, req, m, vs);
      VisitTables(rules, req, VisitAll(rules, req, m, front), v);
      PersistedStateRead(rules, req, m, front, v.repo);
    }
  }

  lemma NoVisits(rules: Rules, req: Request, m: Memory)
    ensures VisitAll(rules, req, m, []) == m
  {
  }

  lemma VisitStep(rules: Rules, req: Request, m: Memory, vs: seq<Visit>)
    requires vs != []
    ensures VisitAll(rules, req, m, vs) == VisitOnce(rules, req, VisitAll(rules, req, m, vs[..|vs| - 1]), vs[|vs| - 1])
  {
    hide VisitOnce;
  }

  lemma EventsStep(es: seq<Event>, force: bool, vs: seq<Visit>)
    requires vs != []
    ensures es + EventsOf(force, vs) == es + EventsOf(force, vs[..|vs| - 1]) + [Event(force, vs[|vs| - 1])]
  {
  }

  /** The state a visit reads from memory is the persisted one. */
  lemma PersistedStateRead(rules: Rules, req: Request, m: Memory, vs: seq<Visit>, r: string)
    requires req.mirror && InStep(m) && (req.force ==> NotVisited(vs, r))
    ensures var n := VisitAll(rules, req, m, vs); Find(n.current, r) == Find(n.tables.scan, r)
  {
    hide VisitAll;
    if req.force {
      UnvisitedUnchanged(rules, req, m, vs, r);
    } else {
      OrdinaryStaysInStep(rules, req, m, vs);
    }
  }

  // ---- The state in memory after a forced scan ----

  ghost predicate FailedAt(vs: seq<Visit>, i: int, r: string) {
    0 <= i < |vs| && vs[i].repo == r && vs[i].pathExists && AnyFails(vs[i].runs)
  }

  ghost predicate CompletedAt(vs: seq<Visit>, j: int) {
    0 <= j < |vs| && vs[j].pathExists && !AnyFails(vs[j].runs)
  }

  ghost predicate FailedIn(vs: seq<Visit>, r: string) {
    exists i :: FailedAt(vs, i, r)
  }

  /** The repository failed, and a later one completed. */
  ghost predicate FailedThenCompleted(vs: seq<Visit>, r: string) {
    exists i, j :: i < j && FailedAt(vs, i, r) && CompletedAt(vs, j)
  }

  lemma OneMore(vs: seq<Visit>, r: string)
    requires vs != []
    ensures var front, n := vs[..|vs| - 1], |vs| - 1;
            && (FailedIn(vs, r) <==> FailedIn(front, r) || FailedAt(vs, n, r))
            && (FailedThenCompleted(vs, r) <==> FailedThenCompleted(front, r) || (FailedIn(front, r) && CompletedAt(vs, n)))
            && (FailedAt(vs, n, r) ==> !CompletedAt(vs, n))
  {
    hide AnyFails;
    var front, n := vs[..|vs| - 1], |vs| - 1;
    forall i | 0 <= i < n
      ensures FailedAt(front, i, r) <==> FailedAt(vs, i, r)
      ensures CompletedAt(front, i) <==> CompletedAt(vs, i)
    {
    }
    if i, j :| i < j && FailedAt(front, i, r) && CompletedAt(front, j) {
      assert FailedAt(vs, i, r) && CompletedAt(vs, j);
    }
    if FailedIn(front, r) && CompletedAt(vs, n) {
      var i :| FailedAt(front, i, r);
      assert i < n && FailedAt(vs, i, r);
    }
  }

  lemma ForcedVisitHere(rules: Rules, req: Request, m: Memory, v: Visit)
    requires req.force && req.mirror
    ensures var n := VisitOnce(rules, req, m, v);
            && (!v.pathExists ==> n == m)
            && (v.pathExists && AnyFails(v.runs) ==>
                  v.repo !in n.tables.scan && v.repo !in n.held && n.current == m.current)
            && (v.pathExists && !AnyFails(v.runs) ==>
                  n.held == n.current && Find(n.tables.scan, v.repo) == Find(n.current, v.repo))
  {
    hide AnyFails, IsStale, ScanTable, NextState, NewestFirst, Overlay, FileExtras, Merged, TakeAll, Subtracted;
  }

  /** Where each copy of one repository's state stands after a forced scan. */
  ghost predicate ForcedView(m: Memory, n: Memory, vs: seq<Visit>, r: string) {
    && (FailedIn(vs, r) ==> r !in n.tables.scan && Find(n.current, r) == Find(m.current, r))
    && (FailedIn(vs, r) && !FailedThenCompleted(vs, r) ==> r !in n.held)
    && (FailedThenCompleted(vs, r) ==> Find(n.held, r) == Find(m.current, r))
    && (!FailedIn(vs, r) ==> Find(n.tables.scan, r) == Find(n.current, r) == Find(n.held, r))
  }

  lemma {:induction false} ForcedViews(rules: Rules, req: Request, m: Memory, vs: seq<Visit>, r: string)
    requires req.force && req.mirror && InStep(m) && DistinctRepos(vs)
    ensures ForcedView(m, VisitAll(rules, req, m, vs), vs, r)
  {
    hide VisitOnce, AnyFails;
    if vs == [] {
    } else {
      var front, v := vs[..|vs| - 1], vs[|vs| - 1];
      ForcedViews(rules, req, m, front, r);
      OneMore(vs, r);
      var before := VisitAll(rules, req, m, front);
      if v.repo == r {
        UnvisitedUnchanged(rules, req, m, front, r);
        NeverFailed(front, r);
        ForcedVisitHere(rules, req, before, v);
      } else {
        VisitElsewhere(rules, req, before, v, r);
        hide FailedIn, FailedThenCompleted, VisitAll;
        assert CompletedAt(vs, |vs| - 1) <==> CompletesVisit(req, before, v);
      }
    }
  }

  lemma NeverFailed(vs: seq<Visit>, r: string)
    requires NotVisited(vs, r)
    ensures !FailedIn(vs, r) && !FailedThenCompleted(vs, r)
  {
  }

  /**
   * After a forced scan the engine's state for a repository is the persisted one, except in exactly one
   * case: the repository had a state, its run failed, and a later repository completed. The snapshot handed
   * over for the later one still holds the cursor whose row the reset deleted.
   */
  lemma MemoryMatchesExactly(rules: Rules, req: Request, m: Memory, vs: seq<Visit>, r: string)
    requires req.force && req.mirror && InStep(m) && DistinctRepos(vs)
    ensures var n := VisitAll(rules, req, m, vs);
            Find(n.held, r) == Find(n.tables.scan, r) <==> !(r in m.held && FailedThenCompleted(vs, r))
  {
    hide VisitAll, AnyFails;
    ForcedViews(rules, req, m, vs, r);
    if FailedThenCompleted(vs, r) {
      var i, j :| i < j && FailedAt(vs, i, r) && CompletedAt(vs, j);
      assert FailedIn(vs, r);
    }
  }

  // ---- Rescanning one repository ----

  /**
   * `rescanRepo` leaves the store as a forced scan of that repository does, exactly when git answered for the
   * tips or there was nothing older to fall back on.
   */
  lemma RescanIsForcedScan(rules: Rules, t: Tables, state: RepoState, v: Visit)
    requires v.pathExists && !AnyFails(v.runs)
    ensures Visited(rules, 0, t, true, None, v) == Visited(rules, 0, t, true, Some(state), v)
       <==> && (v.head.Some? || (state.lastTip.None? && (NewestFirst(v.runs, {}) != [] || state.lastHash == "")))
            && (v.prTip.Some? || state.lastPrTip.None?)
  {
    hide AnyFails, ScanTable, NewestFirst, Overlay, FileExtras, Merged, TakeAll, Reset, Slice;
    var a, b := Visited(rules, 0, t, true, None, v), Visited(rules, 0, t, true, Some(state), v);
    var records := |ScanTable(rules, v.repo, v.group, Counts(true, None, v))|;
    var hashes := NewestFirst(v.runs, {});
    assert RecentSet(true, None) == RecentSet(true, Some(state)) == {};
    assert a.scan[v.repo] == NextState(true, None, v, hashes, records);
    assert b.scan[v.repo] == NextState(true, Some(state), v, hashes, records);
    assert a.records == b.records && a.authors == b.authors;
  }
}
