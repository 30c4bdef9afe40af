/** Incremental scanning against scanning from scratch, forced rescans, and the runs that do lose or repeat commits. */
module IncrementalScan {
  import opened Text
  import opened MapSums
  import opened WeekMask
  import opened Permutations
  import opened Measures
  import opened Records
  import opened MergeByKey
  import opened Commits
  import opened Collector
  import opened AuthorRegistry
  import opened CommitGraph
  import opened ScanState
  import opened ScanRuns
  import opened ExactlyOnce

  // ---- Fast-forward histories ----

  /** HEAD stays put while a visit walks it, and only ever moves forward between visits. */
  ghost predicate FastForwards(staleness: int, g: Graph, w: World, e: Event, repo: string) {
    e.visit.repo == repo && Completes(staleness, w, e) ==>
      && e.visit.head.Some? && e.visit.head.value in g
      && PrintsWalk(g, e.visit.head.value, CursorOf(w, e), e.visit.runs)
      && (!e.force && StateOf(w, repo).Some? && StateOf(w, repo).value.lastTip.Some?
          ==> e.visit.tipIsAncestor && StateOf(w, repo).value.lastTip.value in History(g, e.visit.head.value))
  }

  ghost predicate FastForwardRun(rules: Rules, staleness: int, g: Graph, es: seq<Event>, repo: string) {
    es != [] ==>
      && FastForwardRun(rules, staleness, g, es[..|es| - 1], repo)
      && FastForwards(staleness, g, Run(rules, staleness, es[..|es| - 1]), es[|es| - 1], repo)
  }

  /** The counted commits are exactly the non-merge history of the saved tip, each once. */
  ghost predicate Exact(g: Graph, w: World, repo: string) {
    && FromGraph(g, Counted(w, repo)) && DistinctHashes(Counted(w, repo))
    && match StateOf(w, repo)
       case None => Counted(w, repo) == []
       case Some(s) =>
         && s.lastTip.Some? && s.lastTip.value in g
         && HashSet(Counted(w, repo)) == NonMerges(g, History(g, s.lastTip.value))
         && (forall h :: h in s.recentHashes ==> h in HashSet(Counted(w, repo)))
  }

  /** The new part of a fast-forward walk is disjoint from what is counted, and together they are the whole history. */
  lemma FastForwardWalk(staleness: int, g: Graph, w: World, e: Event)
    requires Exact(g, w, e.visit.repo) && FastForwards(staleness, g, w, e, e.visit.repo) && Completes(staleness, w, e)
    ensures HashSet(Printed(e.visit.runs)) !! HashSet(Kept(w, e)) + Window(w, e)
    ensures HashSet(Printed(e.visit.runs)) + HashSet(Kept(w, e)) == NonMerges(g, History(g, e.visit.head.value))
  {
    hide Printed, History, DistinctHashes, FromGraph, Skips;
    var state := StateOf(w, e.visit.repo);
    assert HashSet([]) == {};
    if !e.force && state.Some? {
      HistoryNests(g, state.value.lastTip.value, e.visit.head.value);
      hide HashSet;
    }
  }

  lemma KeptExact(g: Graph, w: World, e: Event)
    requires Exact(g, w, e.visit.repo)
    ensures FromGraph(g, Kept(w, e)) && DistinctHashes(Kept(w, e))
  {
  }

  lemma NextExact(rules: Rules, staleness: int, g: Graph, w: World, e: Event, repo: string)
    requires Exact(g, w, repo) && FastForwards(staleness, g, w, e, repo)
    ensures Exact(g, Next(rules, staleness, w, e), repo)
  {
    hide Visited, Skips, HashSet, DistinctHashes, FromGraph, History, Printed, Fresh, Counts;
    if e.visit.repo != repo || (!Completes(staleness, w, e) && !e.force) {
      OtherRepoUntouched(rules, staleness, w, e, repo);
    } else if Completes(staleness, w, e) {
      KeptExact(g, w, e);
      FastForwardWalk(staleness, g, w, e);
      NextCounted(rules, staleness, w, e);
      NextState'(rules, staleness, w, e);
      NextListed(g, w, e);
    } else {
      FailedResetExact(rules, staleness, g, w, e);
    }
  }

  lemma NextListed(g: Graph, w: World, e: Event)
    requires FromGraph(g, Kept(w, e)) && DistinctHashes(Kept(w, e)) && FromGraph(g, Printed(e.visit.runs)) && DistinctHashes(Printed(e.visit.runs))
    requires HashSet(Printed(e.visit.runs)) !! HashSet(Kept(w, e))
    ensures var next := Kept(w, e) + Counts(e.force, StateOf(w, e.visit.repo), e.visit);
            && FromGraph(g, next) && DistinctHashes(next)
            && HashSet(next) == HashSet(Kept(w, e)) + HashSet(Counts(e.force, StateOf(w, e.visit.repo), e.visit))
  {
    var counts := Counts(e.force, StateOf(w, e.visit.repo), e.visit);
    FreshFromGraph(g, Printed(e.visit.runs), Window(w, e));
    FreshHashes(Printed(e.visit.runs), Window(w, e));
    hide HashSet, DistinctHashes, Fresh, Printed;
    DistinctAppend(Kept(w, e), counts);
    HashSetAppend(Kept(w, e), counts);
  }

  lemma FailedResetExact(rules: Rules, staleness: int, g: Graph, w: World, e: Event)
    requires e.force && !Completes(staleness, w, e) && Exact(g, w, e.visit.repo)
    ensures Exact(g, Next(rules, staleness, w, e), e.visit.repo)
  {
    hide Subtracted, Merged, Overlay, HashSet, History;
  }

  /** Fast-forward histories need no hash window: the counted commits are always exactly the tip's history. */
  lemma {:induction false} FastForwardRunsAreExact(rules: Rules, staleness: int, g: Graph, es: seq<Event>, repo: string)
    requires FastForwardRun(rules, staleness, g, es, repo)
    ensures Exact(g, Run(rules, staleness, es), repo)
  {
    if es != [] {
      FastForwardRunsAreExact(rules, staleness, g, es[..|es| - 1], repo);
      NextExact(rules, staleness, g, Run(rules, staleness, es[..|es| - 1]), es[|es| - 1], repo);
    }
  }

  /** So the exactly-once theorems hold for them outright, with no assumption on the window. */
  lemma {:induction false} FastForwardRunsAreGood(rules: Rules, staleness: int, g: Graph, es: seq<Event>, repo: string)
    requires FastForwardRun(rules, staleness, g, es, repo)
    ensures EachVisit(rules, staleness, es, repo, Reaching(g)) && EachVisit(rules, staleness, es, repo, Genuine(g))
    ensures EachVisit(rules, staleness, es, repo, PrintingOnce()) && EachVisit(rules, staleness, es, repo, WithinWindow())
  {
    if es != [] {
      var front, e := es[..|es| - 1], es[|es| - 1];
      FastForwardRunsAreGood(rules, staleness, g, front, repo);
      FastForwardRunsAreExact(rules, staleness, g, front, repo);
      var w := Run(rules, staleness, front);
      if e.visit.repo == repo && Completes(staleness, w, e) {
        FastForwardVisit(staleness, g, w, e);
        hide Run, Next, Completes, ReachesHead, Anchored, WindowHolds, FromGraph, DistinctHashes;
        assert Reaching(g)(w, e) && Genuine(g)(w, e) && PrintingOnce()(w, e) && WithinWindow()(w, e);
      }
    }
  }

  lemma FastForwardVisit(staleness: int, g: Graph, w: World, e: Event)
    requires Exact(g, w, e.visit.repo) && FastForwards(staleness, g, w, e, e.visit.repo) && Completes(staleness, w, e)
    ensures Anchored(w, e) && ReachesHead(g, w, e) && WindowHolds(w, e)
    ensures FromGraph(g, Printed(e.visit.runs)) && DistinctHashes(Printed(e.visit.runs))
  {
    FastForwardWalk(staleness, g, w, e);
    HeadInHistory(g, e.visit.head.value);
    hide Completes, History, Exact, HashSet, Printed, FromGraph, DistinctHashes;
    MovingHeadReaches(g, w, e, e.visit.head.value);
  }

  /** Two reachable states that counted the same commits of a repo hold the same records and author shares for it. */
  lemma SameCountedSameTables(rules: Rules, staleness: int, es: seq<Event>, fs: seq<Event>, k: Key, author: string)
    requires forall i :: 0 <= i < |es| ==> PostPassOnly(es[i])
    requires forall i :: 0 <= i < |fs| ==> PostPassOnly(fs[i])
    requires multiset(Counted(Run(rules, staleness, es), k.repo)) == multiset(Counted(Run(rules, staleness, fs), k.repo))
    ensures SameForRepo(Run(rules, staleness, es).tables, Run(rules, staleness, fs).tables, k, author)
  {
    var v, w := Run(rules, staleness, es), Run(rules, staleness, fs);
    RecordsAgree(rules, staleness, es, k);
    RecordsAgree(rules, staleness, fs, k);
    AuthorsAgree(rules, staleness, es, author, k.repo);
    AuthorsAgree(rules, staleness, fs, author, k.repo);
    SumOfPermutes(Counted(v, k.repo), Counted(w, k.repo), PartOf(rules, k));
    CountByPermutes(rules, Counted(v, k.repo), Counted(w, k.repo), author);
    hide Run, PartOf, Mask.Popcount;
  }

  /** Equal commit columns, day counts and author shares. */
  ghost predicate SameForRepo(t: Tables, u: Tables, k: Key, author: string) {
    && CommitColumns(MeasureAt(t.records, k)) == CommitColumns(MeasureAt(u.records, k))
    && (k in t.records && k in u.records ==> t.records[k].activeDays == u.records[k].activeDays)
    && ShareIn(t.authors, author, k.repo) == ShareIn(u.authors, author, k.repo)
  }

  lemma {:induction false} CountByPermutes(rules: Rules, a: seq<Commit>, b: seq<Commit>, author: string)
    requires multiset(a) == multiset(b)
    ensures CountBy(rules, a, author) == CountBy(rules, b, author)
    decreases |a|
  {
    if a == [] {
      assert |multiset(b)| == 0;
    } else {
      var i := MatchLast(a, b);
      var left, right := b[..i], b[i + 1..];
      CountByPermutes(rules, a[..|a| - 1], left + right, author);
      CountByAppend(rules, left, right, author);
      CountByAppend(rules, left + [b[i]], right, author);
      CountByAppend(rules, left, [b[i]], author);
      assert b == left + [b[i]] + right;
      assert [b[i]][..0] == [];
      assert CountBy(rules, [b[i]], author) == if rules.lower(b[i].email) == author then 1 else 0;
    }
  }

  /**
   * Incremental scanning equals one scan from scratch: after any fast-forward run, the records and author
   * shares of the repo are those a single scan of the final tip leaves in an empty store.
   */
  lemma IncrementalEqualsScratch(rules: Rules, staleness: int, g: Graph, es: seq<Event>, scratch: Event, k: Key, author: string)
    requires FastForwardRun(rules, staleness, g, es, k.repo)
    requires StateOf(Run(rules, staleness, es), k.repo).Some?
    requires scratch.visit.repo == k.repo && Completes(staleness, EMPTY_WORLD, scratch)
    requires scratch.visit.head == StateOf(Run(rules, staleness, es), k.repo).value.lastTip
    requires scratch.visit.head.Some? && PrintsWalk(g, scratch.visit.head.value, Everything, scratch.visit.runs)
    requires PostPassOnly(scratch) && forall i :: 0 <= i < |es| ==> PostPassOnly(es[i])
    ensures SameForRepo(Run(rules, staleness, es).tables, Run(rules, staleness, [scratch]).tables, k, author)
  {
    FastForwardRunsAreExact(rules, staleness, g, es, k.repo);
    TipInGraph(g, Run(rules, staleness, es), k.repo);
    hide *;
    ScratchIsFastForward(rules, staleness, g, scratch, k.repo);
    FastForwardRunsAreExact(rules, staleness, g, [scratch], k.repo);
    ExactIsDetermined(g, Run(rules, staleness, es), Run(rules, staleness, [scratch]), k.repo);
    assert forall i :: 0 <= i < 1 ==> PostPassOnly([scratch][i]);
    SameCountedSameTables(rules, staleness, es, [scratch], k, author);
  }

  lemma TipInGraph(g: Graph, w: World, repo: string)
    requires Exact(g, w, repo) && StateOf(w, repo).Some?
    ensures StateOf(w, repo).value.lastTip.Some? && StateOf(w, repo).value.lastTip.value in g
  {
  }

  /** One scan of an empty store that prints the whole history. */
  lemma ScratchIsFastForward(rules: Rules, staleness: int, g: Graph, scratch: Event, repo: string)
    requires scratch.visit.repo == repo && Completes(staleness, EMPTY_WORLD, scratch)
    requires scratch.visit.head.Some? && scratch.visit.head.value in g
    requires PrintsWalk(g, scratch.visit.head.value, Everything, scratch.visit.runs)
    ensures FastForwardRun(rules, staleness, g, [scratch], repo)
    ensures var after := StateOf(Run(rules, staleness, [scratch]), repo);
            after.Some? && after.value.lastTip == scratch.visit.head
  {
    assert [scratch][..0] == [];
    EmptyRun(rules, staleness);
    RunStep(rules, staleness, [scratch]);
    assert FastForwardRun(rules, staleness, g, [], repo);
    hide Run, Next, Completes, PrintsWalk;
    NextState'(rules, staleness, EMPTY_WORLD, scratch);
  }

  lemma ExactIsDetermined(g: Graph, v: World, w: World, repo: string)
    requires Exact(g, v, repo) && Exact(g, w, repo)
    requires StateOf(v, repo).Some? && StateOf(w, repo).Some? && StateOf(v, repo).value.lastTip == StateOf(w, repo).value.lastTip
    ensures multiset(Counted(v, repo)) == multiset(Counted(w, repo))
  {
    SameCommitsSameBag(g, Counted(v, repo), Counted(w, repo));
  }

  // ---- Forced rescans ----

  ghost function TotalIn(reg: Registry, author: string): nat {
    if author in reg then reg[author].commitCount else 0
  }

  lemma SameSharesSameTotal(a: Registry, b: Registry, author: string)
    requires BalancedAt(a, author) && BalancedAt(b, author)
    requires forall repo :: ShareIn(a, author, repo) == ShareIn(b, author, repo)
    ensures TotalIn(a, author) == TotalIn(b, author)
  {
    var m := if author in a then Shares(a[author]) else map[];
    var n := if author in b then Shares(b[author]) else map[];
    forall repo ensures ValueOf(m, repo) == ValueOf(n, repo) {
      assert ShareIn(a, author, repo) == ShareIn(b, author, repo);
    }
    SumSame(m, n);
    ZeroSum<string>(map[]);
  }

  /** States that counted the same commits of every repository agree on every share and on every author's total. */
  lemma SameCountedSameAuthor(rules: Rules, staleness: int, es: seq<Event>, fs: seq<Event>, author: string)
    requires forall r :: multiset(Counted(Run(rules, staleness, es), r)) == multiset(Counted(Run(rules, staleness, fs), r))
    ensures SameAuthor(Run(rules, staleness, es).tables, Run(rules, staleness, fs).tables, author)
  {
    hide Run, ShareIn, BalancedAt, CountBy, TotalIn;
    var v, w := Run(rules, staleness, es), Run(rules, staleness, fs);
    forall repo
      ensures ShareIn(v.tables.authors, author, repo) == ShareIn(w.tables.authors, author, repo)
      ensures BalancedAt(v.tables.authors, author) && BalancedAt(w.tables.authors, author)
    {
      AuthorsAgree(rules, staleness, es, author, repo);
      AuthorsAgree(rules, staleness, fs, author, repo);
      CountByPermutes(rules, Counted(v, repo), Counted(w, repo), author);
    }
    AuthorsAgree(rules, staleness, es, author, "");
    AuthorsAgree(rules, staleness, fs, author, "");
    SameSharesSameTotal(v.tables.authors, w.tables.authors, author);
  }

  ghost predicate SameAuthor(t: Tables, u: Tables, author: string) {
    && TotalIn(t.authors, author) == TotalIn(u.authors, author)
    && forall repo :: ShareIn(t.authors, author, repo) == ShareIn(u.authors, author, repo)
  }

  /**
   * Repeating a completed forced scan that prints the same commits leaves every count unchanged: the
   * repository's records and day counts, every share of every author, and every author's total.
   */
  lemma ForcedScanRepeats(rules: Rules, staleness: int, es: seq<Event>, e: Event, f: Event, k: Key, author: string)
    requires e.force && f.force && e.visit.repo == f.visit.repo == k.repo
    requires Completes(staleness, Run(rules, staleness, es), e) && Completes(staleness, Run(rules, staleness, es + [e]), f)
    requires multiset(Printed(e.visit.runs)) == multiset(Printed(f.visit.runs))
    requires forall i :: 0 <= i < |es + [e, f]| ==> PostPassOnly((es + [e, f])[i])
    ensures SameForRepo(Run(rules, staleness, es + [e]).tables, Run(rules, staleness, es + [e, f]).tables, k, author)
    ensures SameAuthor(Run(rules, staleness, es + [e]).tables, Run(rules, staleness, es + [e, f]).tables, author)
  {
    hide *;
    var one, two := es + [e], es + [e, f];
    assert one + [f] == two;
    forall i | 0 <= i < |one| ensures PostPassOnly(one[i]) { assert one[i] == two[i]; }
    ForcedScanCounts(rules, staleness, es, e);
    ForcedScanCounts(rules, staleness, one, f);
    forall r ensures multiset(Counted(Run(rules, staleness, one), r)) == multiset(Counted(Run(rules, staleness, two), r)) {
      if r != k.repo { OtherReposCounted(rules, staleness, one, f, r); }
    }
    SameCountedSameTables(rules, staleness, one, two, k, author);
    SameCountedSameAuthor(rules, staleness, one, two, author);
  }

  lemma OtherReposCounted(rules: Rules, staleness: int, es: seq<Event>, e: Event, repo: string)
    requires e.visit.repo != repo
    ensures Counted(Run(rules, staleness, es + [e]), repo) == Counted(Run(rules, staleness, es), repo)
  {
    hide Run, Next;
    assert (es + [e])[..|es|] == es;
    RunStep(rules, staleness, es + [e]);
    OtherRepoUntouched(rules, staleness, Run(rules, staleness, es), e, repo);
  }

  lemma ForcedScanCounts(rules: Rules, staleness: int, es: seq<Event>, e: Event)
    requires e.force && Completes(staleness, Run(rules, staleness, es), e)
    ensures Counted(Run(rules, staleness, es + [e]), e.visit.repo) == Printed(e.visit.runs)
  {
    hide Visited, Skips, Printed, Run;
    assert (es + [e])[..|es|] == es;
    RunStep(rules, staleness, es + [e]);
    NextCounted(rules, staleness, Run(rules, staleness, es), e);
    FreshWithoutWindow(Printed(e.visit.runs));
  }

  lemma RunStep(rules: Rules, staleness: int, es: seq<Event>)
    requires es != []
    ensures Run(rules, staleness, es) == Next(rules, staleness, Run(rules, staleness, es[..|es| - 1]), es[|es| - 1])
  {
    hide Next;
  }

  lemma {:induction false} FreshWithoutWindow(commits: seq<Commit>)
    ensures Fresh(commits, {}) == commits
  {
    if commits != [] {
      FreshWithoutWindow(commits[..|commits| - 1]);
      assert commits == commits[..|commits| - 1] + [commits[|commits| - 1]];
    }
  }

  // ---- Where the guarantees end ----

  lemma CountedGrows(rules: Rules, staleness: int, g: Graph, w: World, e: Event)
    requires Completes(staleness, w, e) && Covered(g, w, e.visit.repo)
    ensures HashSet(Counted(Next(rules, staleness, w, e), e.visit.repo)) == HashSet(Printed(e.visit.runs)) + HashSet(Kept(w, e))
    ensures CursorOf(w, e).SinceTip? ==> NonMerges(g, History(g, CursorOf(w, e).tip)) <= HashSet(Kept(w, e))
  {
    NextCounted(rules, staleness, w, e);
    hide Printed, HashSet, History, Next, Skips, NonMerges;
  }

  /** A history is the walked range plus the history of the tip it starts from. */
  lemma RestOfHistory(g: Graph, now: string, cursor: Cursor)
    requires !cursor.SinceDate? && (cursor.SinceTip? ==> cursor.tip in History(g, now))
    ensures cursor.SinceTip? ==> NonMerges(g, History(g, now)) == WalkSet(g, now, cursor) + NonMerges(g, History(g, cursor.tip))
    ensures cursor.Everything? ==> NonMerges(g, History(g, now)) == WalkSet(g, now, cursor)
  {
    if cursor.SinceTip? { HistoryNests(g, cursor.tip, now); }
    hide History;
  }

  /** The date walk of a state without a tip misses exactly the uncounted commits from before its date. */
  lemma DateCursorLossExactly(rules: Rules, staleness: int, g: Graph, w: World, e: Event, now: string)
    requires Completes(staleness, w, e) && CursorOf(w, e).SinceDate? && PrintsWalk(g, now, CursorOf(w, e), e.visit.runs)
    requires forall h :: h in Window(w, e) ==> h in HashSet(Kept(w, e))
    ensures NonMerges(g, History(g, now)) <= HashSet(Counted(Next(rules, staleness, w, e), e.visit.repo))
       <==> forall h :: h in NonMerges(g, History(g, now)) && g[h].committedAt < CursorOf(w, e).ms ==> h in HashSet(Kept(w, e))
  {
    NextCounted(rules, staleness, w, e);
    hide Printed, HashSet, History, Next, Skips, DistinctHashes, FromGraph;
  }

  const A := Commit("a", "", "", "", "", [])
  const B := Commit("b", "", "", "", "", [])
  const TWO_COMMITS: Graph := map["a" := Node([], A, 0), "b" := Node(["a"], B, 0)]

  /** A first scan of those two commits during which `git log` prints one and then dies. */
  function TruncatedScan(group: string): Event {
    Event(false, Visit("r", group, true, 0, 0, Some("b"), false, [GitRun([B], 128, Fatal)], [], [], None))
  }

  /** The same scan when git gets to the end. */
  function WholeScan(group: string): Event {
    Event(false, Visit("r", group, true, 0, 0, Some("b"), false, [GitRun([B, A], 0, Expected)], [], [], None))
  }

  /** The assumptions of the run theorems are met by, for one, a first scan that prints both commits. */
  lemma WholeScanIsGood(rules: Rules, group: string)
    ensures FastForwardRun(rules, 0, TWO_COMMITS, [WholeScan(group)], "r")
    ensures var es := [WholeScan(group)];
            && EachVisit(rules, 0, es, "r", Reaching(TWO_COMMITS)) && EachVisit(rules, 0, es, "r", Genuine(TWO_COMMITS))
            && EachVisit(rules, 0, es, "r", PrintingOnce()) && EachVisit(rules, 0, es, "r", WithinWindow())
            && ScannedHead(rules, 0, es, "r", 0)
    ensures Completes(0, Run(rules, 0, []), WholeScan(group)) && PostPassOnly(WholeScan(group))
  {
    var es := [WholeScan(group)];
    assert es[..0] == [];
    WholeScanPrints(group);
    EmptyRun(rules, 0);
    assert FastForwardRun(rules, 0, TWO_COMMITS, [], "r");
    hide Printed, History, PrintsWalk, Run;
    FastForwardRunsAreGood(rules, 0, TWO_COMMITS, es, "r");
  }

  lemma WholeScanPrints(group: string)
    ensures PrintsWalk(TWO_COMMITS, "b", Everything, WholeScan(group).visit.runs)
  {
    hide History, Printed, HashSet, NonMerges;
    PrintedOnce(GitRun([B, A], 0, Expected));
    BothReachable();
    BothPrinted();
  }

  lemma PrintedOnce(run: GitRun)
    ensures Printed([run]) == run.commits
  {
    assert [run][..0] == [] && Printed([run]) == [] + run.commits;
  }

  lemma BothPrinted()
    ensures HashSet([B, A]) == {"a", "b"} && DistinctHashes([B, A]) && FromGraph(TWO_COMMITS, [B, A])
  {
    assert "a"[0] != "b"[0];
    assert [B, A][0].hash == "b" && [B, A][1].hash == "a";
  }

  lemma BothReachable()
    ensures NonMerges(TWO_COMMITS, History(TWO_COMMITS, "b")) == {"a", "b"}
  {
    assert PathBetween(TWO_COMMITS, "b", "a", ["b", "a"]);
    assert PathBetween(TWO_COMMITS, "b", "b", ["b"]);
  }

  /** `git log` dying after its first commit counts as a success, and the tip moves past what it had not printed. */
  lemma TruncatedWalkLosesCommit(rules: Rules, group: string)
    ensures var w := Next(rules, 0, EMPTY_WORLD, TruncatedScan(group));
            && Completes(0, EMPTY_WORLD, TruncatedScan(group))
            && "a" in NonMerges(TWO_COMMITS, History(TWO_COMMITS, "b"))
            && Counted(w, "r") == [B]
            && StateOf(w, "r").Some? && StateOf(w, "r").value.lastTip == Some("b")
            && WalkSet(TWO_COMMITS, "b", SinceTip("b")) == {}
  {
    hide *;
    OlderCommitReachable();
    TruncatedScanCompletes(group);
    TruncatedScanCounts(rules, group);
  }

  lemma OlderCommitReachable()
    ensures "a" in NonMerges(TWO_COMMITS, History(TWO_COMMITS, "b"))
    ensures WalkSet(TWO_COMMITS, "b", SinceTip("b")) == {}
  {
    assert PathBetween(TWO_COMMITS, "b", "a", ["b", "a"]);
  }

  lemma TruncatedScanCounts(rules: Rules, group: string)
    ensures var w := Next(rules, 0, EMPTY_WORLD, TruncatedScan(group));
            && Counted(w, "r") == [B]
            && StateOf(w, "r").Some? && StateOf(w, "r").value.lastTip == Some("b")
  {
    hide Next, Run, Visited, Fresh, History, Printed, Completes;
    TruncatedScanCompletes(group);
    NextCounted(rules, 0, EMPTY_WORLD, TruncatedScan(group));
    NextState'(rules, 0, EMPTY_WORLD, TruncatedScan(group));
    FreshWithoutWindow([B]);
  }

  lemma TruncatedScanCompletes(group: string)
    ensures Completes(0, EMPTY_WORLD, TruncatedScan(group))
    ensures Printed(TruncatedScan(group).visit.runs) == [B]
  {
    var run := GitRun([B], 128, Fatal);
    assert [run][..0] == [] && Printed([run]) == [] + [B] == [B];
  }

  /**
   * A forced scan of a repository that had a tip leaves the saved tip's history counted exactly when HEAD
   * resolved, or the old tip, which it keeps otherwise, had no history to count.
   */
  lemma ForcedScanCoversExactly(rules: Rules, staleness: int, g: Graph, w: World, e: Event)
    requires e.force && Completes(staleness, w, e)
    requires StateOf(w, e.visit.repo).Some? && StateOf(w, e.visit.repo).value.lastTip.Some?
    requires if e.visit.head.Some? then ReachesHead(g, w, e) else Printed(e.visit.runs) == []
    ensures Covered(g, Next(rules, staleness, w, e), e.visit.repo) <==>
      e.visit.head.Some? || NonMerges(g, History(g, StateOf(w, e.visit.repo).value.lastTip.value)) == {}
  {
    hide Next, Completes, History, Printed, HashSet, NonMerges;
    NextCounted(rules, staleness, w, e);
    NextState'(rules, staleness, w, e);
    NoHashes();
    HashSetAppend(Kept(w, e), Counts(e.force, StateOf(w, e.visit.repo), e.visit));
  }

  /**
   * A forced scan whose HEAD does not resolve clears the repo but keeps the old tip, so the next ordinary
   * visit that finds HEAD on that tip has nothing to walk: all of the tip's history stays uncounted.
   */
  lemma ForcedScanWithoutHeadLoses(rules: Rules, staleness: int, w: World, e: Event)
    requires e.force && Completes(staleness, w, e) && e.visit.head.None? && Printed(e.visit.runs) == []
    requires StateOf(w, e.visit.repo).Some? && StateOf(w, e.visit.repo).value.lastTip.Some?
    ensures var after, tip := Next(rules, staleness, w, e), StateOf(w, e.visit.repo).value.lastTip;
            && Counted(after, e.visit.repo) == []
            && StateOf(after, e.visit.repo).Some?
            && ChooseCursor(false, StateOf(after, e.visit.repo), tip, true) == SinceTip(tip.value)
            && (forall g: Graph :: WalkSet(g, tip.value, SinceTip(tip.value)) == {})
  {
    NextCounted(rules, staleness, w, e);
    NextState'(rules, staleness, w, e);
  }

  /**
   * On a rewritten history the window is too small: when a first scan counts more commits than it holds,
   * a full re-walk that prints the last of them again counts it twice.
   */
  lemma RewriteBeyondWindowCountsTwice(rules: Rules, staleness: int, e: Event, f: Event)
    requires e.visit.repo == f.visit.repo && !f.force
    requires Completes(staleness, EMPTY_WORLD, e) && Completes(staleness, Run(rules, staleness, [e]), f)
    requires |e.visit.runs| == 1 && |e.visit.runs[0].commits| > MAX_RECENT_HASHES && DistinctHashes(e.visit.runs[0].commits)
    requires e.visit.runs[0].commits[|e.visit.runs[0].commits| - 1].hash in HashSet(Printed(f.visit.runs))
    ensures !DistinctHashes(Counted(Run(rules, staleness, [e, f]), e.visit.repo))
  {
    assert [e, f][..1] == [e] && [e][..0] == [];
    hide Completes, Next, Printed, Run, HashSet, DistinctHashes, Hashes, Slice;
    RunStep(rules, staleness, [e]);
    RunStep(rules, staleness, [e, f]);
    assert Run(rules, staleness, []) == EMPTY_WORLD by { EmptyRun(rules, staleness); }
    FirstScan(rules, staleness, e);
    SecondScanRepeats(rules, staleness, Run(rules, staleness, [e]), f, e.visit.runs[0].commits);
  }

  lemma EmptyRun(rules: Rules, staleness: int)
    ensures Run(rules, staleness, []) == EMPTY_WORLD
  {
  }

  lemma SecondScanRepeats(rules: Rules, staleness: int, w: World, f: Event, commits: seq<Commit>)
    requires !f.force && Completes(staleness, w, f) && Counted(w, f.visit.repo) == commits && StateOf(w, f.visit.repo).Some?
    requires StateOf(w, f.visit.repo).value.recentHashes == Slice(Hashes(commits), MAX_RECENT_HASHES)
    requires |commits| > MAX_RECENT_HASHES && DistinctHashes(commits)
    requires commits[|commits| - 1].hash in HashSet(Printed(f.visit.runs))
    ensures !DistinctHashes(Counted(Next(rules, staleness, w, f), f.visit.repo))
  {
    hide Completes, Next, Printed, HashSet, DistinctHashes, Fresh, Hashes, Slice;
    NextCounted(rules, staleness, w, f);
    FreshHashes(Printed(f.visit.runs), Window(w, f));
    LastDropped(commits);
    InBoth(Kept(w, f), Counts(f.force, StateOf(w, f.visit.repo), f.visit), commits[|commits| - 1].hash);
  }

  lemma InBoth(kept: seq<Commit>, counts: seq<Commit>, h: string)
    requires h in HashSet(kept) && h in HashSet(counts)
    ensures !DistinctHashes(kept + counts)
  {
    hide HashSet, DistinctHashes;
    DistinctAppend(kept, counts);
  }

  lemma FirstScan(rules: Rules, staleness: int, e: Event)
    requires Completes(staleness, EMPTY_WORLD, e) && |e.visit.runs| == 1
    ensures var w, commits := Next(rules, staleness, EMPTY_WORLD, e), e.visit.runs[0].commits;
            && Counted(w, e.visit.repo) == commits
            && StateOf(w, e.visit.repo).Some?
            && StateOf(w, e.visit.repo).value.recentHashes == Slice(Hashes(commits), MAX_RECENT_HASHES)
  {
    var commits := e.visit.runs[0].commits;
    assert e.visit.runs == [e.visit.runs[0]] && e.visit.runs[..0] == [];
    assert Printed(e.visit.runs) == [] + commits == commits;
    hide Next, Fresh, Printed;
    FreshWithoutWindow(commits);
    FirstWindow(rules, staleness, e);
    NextCounted(rules, staleness, EMPTY_WORLD, e);
  }

  lemma FirstWindow(rules: Rules, staleness: int, e: Event)
    requires Completes(staleness, EMPTY_WORLD, e) && |e.visit.runs| == 1
    ensures var after := StateOf(Next(rules, staleness, EMPTY_WORLD, e), e.visit.repo);
            after.Some? && after.value.recentHashes == Slice(Hashes(Fresh(e.visit.runs[0].commits, {})), MAX_RECENT_HASHES)
  {
    hide Merged, Overlay, Subtracted, Hashes, Fresh;
    var runs := e.visit.runs;
    assert runs[..0] == [] && NewestFirst(runs[..0], {}) == [];
    assert NewestFirst(runs, {}) == Hashes(Fresh(runs[0].commits, {})) + [];
    assert Hashes(Fresh(runs[0].commits, {})) + [] == Hashes(Fresh(runs[0].commits, {}));
  }

  lemma LastDropped(commits: seq<Commit>)
    requires |commits| > MAX_RECENT_HASHES && DistinctHashes(commits)
    ensures commits[|commits| - 1].hash !in Slice(Hashes(commits), MAX_RECENT_HASHES)
    ensures commits[|commits| - 1].hash in HashSet(commits)
  {
  }
}
