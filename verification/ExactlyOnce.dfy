/**
 * Whole runs over one repository's commit graph: nothing lost, nothing counted twice, and incremental
 * scanning equal to one fold from scratch. `g` holds every commit the repository ever has; HEAD may move
 * anywhere in it between visits, rewrites included.
 */
module ExactlyOnce {
  import opened Text
  import opened Measures
  import opened Records
  import opened MergeByKey
  import opened Commits
  import opened Collector
  import opened AuthorRegistry
  import opened CommitGraph
  import opened ScanState
  import opened ScanRuns

  ghost function CursorOf(w: World, e: Event): Cursor {
    ChooseCursor(e.force, StateOf(w, e.visit.repo), e.visit.head, e.visit.tipIsAncestor)
  }

  /** What the repo's counted list is extended from. */
  ghost function Kept(w: World, e: Event): seq<Commit> {
    if e.force then [] else Counted(w, e.visit.repo)
  }

  ghost function Window(w: World, e: Event): set<string> {
    RecentSet(e.force, StateOf(w, e.visit.repo))
  }

  /** The output holds everything the resolved head's range holds, and a tip the walk starts from is an ancestor of that head. */
  ghost predicate ReachesHead(g: Graph, w: World, e: Event) {
    var printed := HashSet(Printed(e.visit.runs));
    && (e.visit.head.Some? ==> WalkSet(g, e.visit.head.value, CursorOf(w, e)) <= printed)
    && (CursorOf(w, e).SinceTip? ==> CursorOf(w, e).tip in History(g, e.visit.head.value))
  }

  /** The git runs walked `now` to their end while HEAD was on a descendant of the resolved head. */
  ghost predicate WalkedFrom(g: Graph, w: World, e: Event, now: string) {
    && PrintsWalk(g, now, CursorOf(w, e), e.visit.runs)
    && (e.visit.head.Some? ==> e.visit.head.value in History(g, now))
    && (CursorOf(w, e).SinceTip? ==> CursorOf(w, e).tip in History(g, e.visit.head.value))
  }

  /** HEAD may move during a walk, as long as it stays on descendants of the resolved head. */
  lemma MovingHeadReaches(g: Graph, w: World, e: Event, now: string)
    requires WalkedFrom(g, w, e, now)
    ensures ReachesHead(g, w, e)
  {
    hide Printed, HashSet, History;
    if e.visit.head.Some? { WalkGrows(g, e.visit.head.value, now, CursorOf(w, e)); }
  }

  lemma WalkGrows(g: Graph, head: string, now: string, cursor: Cursor)
    requires head in History(g, now)
    ensures WalkSet(g, head, cursor) <= WalkSet(g, now, cursor)
  {
    HistoryNests(g, head, now);
    hide History;
  }

  /** The head resolved, or an earlier tip still stands in for it. */
  ghost predicate Anchored(w: World, e: Event) {
    e.visit.head.Some? || (!e.force && StateOf(w, e.visit.repo).Some?)
  }

  // ---- Nothing lost ----

  /** The saved tip's whole history is counted, and the window remembers only counted commits. */
  ghost predicate Covered(g: Graph, w: World, repo: string) {
    StateOf(w, repo).Some? ==>
      var s := StateOf(w, repo).value;
      && s.lastTip.Some?
      && NonMerges(g, History(g, s.lastTip.value)) <= HashSet(Counted(w, repo))
      && (forall h :: h in s.recentHashes ==> h in HashSet(Counted(w, repo)))
  }

  lemma NextCounted(rules: Rules, staleness: int, w: World, e: Event)
    requires Completes(staleness, w, e)
    ensures var after, repo := Next(rules, staleness, w, e), e.visit.repo;
            && Counted(after, repo) == Kept(w, e) + Counts(e.force, StateOf(w, repo), e.visit)
            && HashSet(Counted(after, repo)) == HashSet(Kept(w, e)) + (HashSet(Printed(e.visit.runs)) - Window(w, e))
  {
    hide Visited, Skips, HashSet, Printed, Fresh;
    FreshHashes(Printed(e.visit.runs), Window(w, e));
    HashSetAppend(Kept(w, e), Counts(e.force, StateOf(w, e.visit.repo), e.visit));
  }

  lemma NextState'(rules: Rules, staleness: int, w: World, e: Event)
    requires Completes(staleness, w, e)
    ensures var after, old', v := StateOf(Next(rules, staleness, w, e), e.visit.repo), StateOf(w, e.visit.repo), e.visit;
            && after.Some?
            && after.value.lastTip == (if v.head.Some? then v.head else if old'.Some? then old'.value.lastTip else None)
            && (forall h :: h in after.value.recentHashes ==>
                 h in HashSet(Counts(e.force, old', v)) || (!e.force && old'.Some? && h in old'.value.recentHashes))
  {
    var old', v := StateOf(w, e.visit.repo), e.visit;
    hide Skips, Merged, Overlay, HashSet, Subtracted;
    var hashes := NewestFirst(v.runs, RecentSet(e.force, old'));
    forall h | h in hashes
      ensures h in HashSet(Counts(e.force, old', v))
    {
      NewestFirstHashes(v.runs, RecentSet(e.force, old'), h);
    }
  }

  lemma OtherRepoUntouched(rules: Rules, staleness: int, w: World, e: Event, repo: string)
    requires repo != e.visit.repo || (!Completes(staleness, w, e) && !e.force)
    ensures StateOf(Next(rules, staleness, w, e), repo) == StateOf(w, repo)
    ensures Counted(Next(rules, staleness, w, e), repo) == Counted(w, repo)
  {
    hide Merged, Overlay, Subtracted, NextState, Skips;
  }

  /** A walk together with the commits already counted covers everything reachable from the resolved head. */
  lemma WalkCovers(g: Graph, w: World, e: Event)
    requires ReachesHead(g, w, e) && Covered(g, w, e.visit.repo) && e.visit.head.Some?
    ensures NonMerges(g, History(g, e.visit.head.value)) <= HashSet(Printed(e.visit.runs)) + HashSet(Kept(w, e))
  {
    hide HashSet, Printed, History;
  }

  /** Every completed visit keeps the saved tip's history counted, and counts the history of the head it resolved. */
  lemma NextCovered(rules: Rules, staleness: int, g: Graph, w: World, e: Event)
    requires Completes(staleness, w, e) && Anchored(w, e) && ReachesHead(g, w, e) && Covered(g, w, e.visit.repo)
    ensures Covered(g, Next(rules, staleness, w, e), e.visit.repo)
    ensures e.visit.head.Some? ==>
      NonMerges(g, History(g, e.visit.head.value)) <= HashSet(Counted(Next(rules, staleness, w, e), e.visit.repo))
  {
    hide HashSet, Printed, History, Next, Counts, Skips, AnyFails, NonMerges, ReachesHead;
    if e.visit.head.Some? { WalkCovers(g, w, e); }
    NextCounted(rules, staleness, w, e);
    NextState'(rules, staleness, w, e);
    HashSetAppend(Kept(w, e), Counts(e.force, StateOf(w, e.visit.repo), e.visit));
  }

  // ---- Nothing twice ----

  /** Every re-walked counted commit is still in the hash window. */
  ghost predicate WindowHolds(w: World, e: Event) {
    HashSet(Printed(e.visit.runs)) * HashSet(Kept(w, e)) <= Window(w, e)
  }

  /** A visit counts no commit twice exactly when the window still held every counted commit it walked again. */
  lemma DoubleCountExactly(rules: Rules, staleness: int, w: World, e: Event)
    requires Completes(staleness, w, e) && DistinctHashes(Printed(e.visit.runs)) && DistinctHashes(Kept(w, e))
    ensures DistinctHashes(Counted(Next(rules, staleness, w, e), e.visit.repo)) <==> WindowHolds(w, e)
  {
    NextCounted(rules, staleness, w, e);
    FreshHashes(Printed(e.visit.runs), Window(w, e));
    DistinctAppend(Kept(w, e), Counts(e.force, StateOf(w, e.visit.repo), e.visit));
    hide HashSet, DistinctHashes, Next, WalkSet;
  }

  // ---- Runs ----

  /** `p` holds at every completed visit of one repository. */
  ghost predicate EachVisit(rules: Rules, staleness: int, es: seq<Event>, repo: string, p: (World, Event) -> bool) {
    es != [] ==>
      var front, e := es[..|es| - 1], es[|es| - 1];
      var w := Run(rules, staleness, front);
      && EachVisit(rules, staleness, front, repo, p)
      && (e.visit.repo == repo && Completes(staleness, w, e) ==> p(w, e))
  }

  /** What no loss needs. */
  ghost function Reaching(g: Graph): (World, Event) -> bool {
    (w: World, e: Event) => Anchored(w, e) && ReachesHead(g, w, e)
  }

  /** What no double count needs of git. */
  ghost function PrintingOnce(): (World, Event) -> bool {
    (w: World, e: Event) => DistinctHashes(Printed(e.visit.runs))
  }

  /** What no double count needs of the window. */
  ghost function WithinWindow(): (World, Event) -> bool {
    (w: World, e: Event) => WindowHolds(w, e)
  }

  /** Git prints the graph's own commits. */
  ghost function Genuine(g: Graph): (World, Event) -> bool {
    (w: World, e: Event) => FromGraph(g, Printed(e.visit.runs))
  }

  /** The visit clears the repository first. */
  predicate Resets(e: Event, repo: string) {
    e.force && e.visit.repo == repo && e.visit.pathExists
  }

  /** A visit of the repository that does not complete changes nothing for it, or clears it. */
  lemma IncompleteVisit(rules: Rules, staleness: int, w: World, e: Event)
    requires !Completes(staleness, w, e)
    ensures var after, repo := Next(rules, staleness, w, e), e.visit.repo;
            if Resets(e, repo) then StateOf(after, repo).None? && Counted(after, repo) == []
            else StateOf(after, repo) == StateOf(w, repo) && Counted(after, repo) == Counted(w, repo)
  {
    hide Subtracted, Merged, Overlay, IsStale, AnyFails;
  }

  /** No loss, whatever happens to the window: over any run of such visits the saved tip's history stays counted. */
  lemma {:induction false} RunCovered(rules: Rules, staleness: int, g: Graph, es: seq<Event>, repo: string)
    requires EachVisit(rules, staleness, es, repo, Reaching(g))
    ensures Covered(g, Run(rules, staleness, es), repo)
  {
    if es != [] {
      var front, e := es[..|es| - 1], es[|es| - 1];
      var w := Run(rules, staleness, front);
      RunCovered(rules, staleness, g, front, repo);
      hide Next, Completes, ReachesHead, Anchored;
      if e.visit.repo != repo {
        OtherRepoUntouched(rules, staleness, w, e, repo);
      } else if Completes(staleness, w, e) {
        assert Reaching(g)(w, e);
        NextCovered(rules, staleness, g, w, e);
      } else {
        IncompleteVisit(rules, staleness, w, e);
      }
    }
  }

  /** Counted commits stay counted until the repository is cleared. */
  lemma CountedStay(rules: Rules, staleness: int, w: World, e: Event, repo: string)
    requires !Resets(e, repo)
    ensures HashSet(Counted(w, repo)) <= HashSet(Counted(Next(rules, staleness, w, e), repo))
  {
    hide Next, HashSet, Printed, AnyFails, IsStale;
    if e.visit.repo != repo {
      OtherRepoUntouched(rules, staleness, w, e, repo);
    } else if Completes(staleness, w, e) {
      NextCounted(rules, staleness, w, e);
    } else {
      IncompleteVisit(rules, staleness, w, e);
    }
  }

  /** The i-th event completed a visit that resolved a head, and nothing cleared the repository since. */
  ghost predicate ScannedHead(rules: Rules, staleness: int, es: seq<Event>, repo: string, i: nat) {
    && i < |es| && es[i].visit.repo == repo && es[i].visit.head.Some?
    && Completes(staleness, Run(rules, staleness, es[..i]), es[i])
    && forall j :: i < j < |es| ==> !Resets(es[j], repo)
  }

  /** Every head ever scanned stays counted, also when it is rewritten away later. */
  lemma {:induction false} ScannedHeadsStayCounted(rules: Rules, staleness: int, g: Graph, es: seq<Event>, repo: string, i: nat)
    requires EachVisit(rules, staleness, es, repo, Reaching(g)) && ScannedHead(rules, staleness, es, repo, i)
    ensures NonMerges(g, History(g, es[i].visit.head.value)) <= HashSet(Counted(Run(rules, staleness, es), repo))
    decreases |es|
  {
    hide Next, Completes, ReachesHead, Anchored, HashSet, NonMerges, History;
    var front, e := es[..|es| - 1], es[|es| - 1];
    var w := Run(rules, staleness, front);
    if i == |es| - 1 {
      RunCovered(rules, staleness, g, front, repo);
      assert Reaching(g)(w, e);
      NextCovered(rules, staleness, g, w, e);
    } else {
      assert front[..i] == es[..i];
      ScannedHeadsStayCounted(rules, staleness, g, front, repo, i);
      assert !Resets(es[|es| - 1], repo);
      CountedStay(rules, staleness, w, e, repo);
    }
  }

  /** No commit was ever counted twice, at any point of the run. */
  ghost predicate NeverTwice(rules: Rules, staleness: int, es: seq<Event>, repo: string) {
    && DistinctHashes(Counted(Run(rules, staleness, es), repo))
    && (es != [] ==> NeverTwice(rules, staleness, es[..|es| - 1], repo))
  }

  /** Over whole runs: nothing is counted twice exactly when the window always held what was walked again. */
  lemma {:induction false} NeverTwiceExactly(rules: Rules, staleness: int, es: seq<Event>, repo: string)
    requires EachVisit(rules, staleness, es, repo, PrintingOnce())
    ensures NeverTwice(rules, staleness, es, repo) <==> EachVisit(rules, staleness, es, repo, WithinWindow())
  {
    if es != [] {
      var front, e := es[..|es| - 1], es[|es| - 1];
      var w := Run(rules, staleness, front);
      NeverTwiceExactly(rules, staleness, front, repo);
      NextTwice(rules, staleness, w, e, repo);
      hide Next, Completes, DistinctHashes, WindowHolds;
      assert e.visit.repo == repo && Completes(staleness, w, e) ==> PrintingOnce()(w, e);
      assert WithinWindow()(w, e) <==> WindowHolds(w, e);
      assert NeverTwice(rules, staleness, front, repo) ==> DistinctHashes(Counted(w, repo));
    }
  }

  lemma NextTwice(rules: Rules, staleness: int, w: World, e: Event, repo: string)
    requires e.visit.repo == repo && Completes(staleness, w, e) ==> DistinctHashes(Printed(e.visit.runs))
    ensures DistinctHashes(Counted(w, repo)) ==>
      (DistinctHashes(Counted(Next(rules, staleness, w, e), repo)) <==>
        (e.visit.repo == repo && Completes(staleness, w, e) ==> WindowHolds(w, e)))
  {
    hide Next, Completes, WindowHolds;
    if e.visit.repo != repo {
      OtherRepoUntouched(rules, staleness, w, e, repo);
    } else if Completes(staleness, w, e) {
      if DistinctHashes(Counted(w, repo)) { DoubleCountExactly(rules, staleness, w, e); }
    } else {
      IncompleteVisit(rules, staleness, w, e);
    }
  }

  lemma {:induction false} RunGenuine(rules: Rules, staleness: int, g: Graph, es: seq<Event>, repo: string)
    requires EachVisit(rules, staleness, es, repo, Genuine(g))
    ensures FromGraph(g, Counted(Run(rules, staleness, es), repo))
  {
    if es != [] {
      var front, e := es[..|es| - 1], es[|es| - 1];
      var w := Run(rules, staleness, front);
      RunGenuine(rules, staleness, g, front, repo);
      hide Next, Completes, FromGraph;
      assert e.visit.repo == repo && Completes(staleness, w, e) ==> Genuine(g)(w, e);
      NextGenuine(rules, staleness, g, w, e, repo);
    }
  }

  lemma NextGenuine(rules: Rules, staleness: int, g: Graph, w: World, e: Event, repo: string)
    requires FromGraph(g, Counted(w, repo))
    requires e.visit.repo == repo && Completes(staleness, w, e) ==> FromGraph(g, Printed(e.visit.runs))
    ensures FromGraph(g, Counted(Next(rules, staleness, w, e), repo))
  {
    hide Next, Completes, Printed, Fresh, HashSet;
    if e.visit.repo != repo {
      OtherRepoUntouched(rules, staleness, w, e, repo);
    } else if Completes(staleness, w, e) {
      NextCounted(rules, staleness, w, e);
      FreshFromGraph(g, Printed(e.visit.runs), Window(w, e));
    } else {
      IncompleteVisit(rules, staleness, w, e);
    }
  }

  lemma FreshFromGraph(g: Graph, commits: seq<Commit>, recent: set<string>)
    requires FromGraph(g, commits)
    ensures FromGraph(g, Fresh(commits, recent))
  {
    if commits != [] { FreshFromGraph(g, commits[..|commits| - 1], recent); }
  }

  /**
   * Exactly once over whole runs: every non-merge commit reachable from any head that was scanned, and not
   * cleared since, is among the counted commits; none is counted twice; and each record is the fold of those
   * commits, whatever list they are taken in.
   */
  lemma EachCommitOnce(rules: Rules, staleness: int, g: Graph, es: seq<Event>, repo: string, list: seq<Commit>, k: Key)
    requires EachVisit(rules, staleness, es, repo, Reaching(g)) && EachVisit(rules, staleness, es, repo, Genuine(g))
    requires EachVisit(rules, staleness, es, repo, PrintingOnce()) && EachVisit(rules, staleness, es, repo, WithinWindow())
    requires repo == k.repo && forall i :: 0 <= i < |es| ==> PostPassOnly(es[i])
    requires FromGraph(g, list) && DistinctHashes(list) && HashSet(list) == HashSet(Counted(Run(rules, staleness, es), repo))
    ensures var w := Run(rules, staleness, es);
            && (forall i: nat :: ScannedHead(rules, staleness, es, repo, i) ==>
                  NonMerges(g, History(g, es[i].visit.head.value)) <= HashSet(Counted(w, repo)))
            && DistinctHashes(Counted(w, repo))
            && CommitColumns(MeasureAt(w.tables.records, k)) == SumOf(list, PartOf(rules, k))
  {
    hide *;
    var counted := Counted(Run(rules, staleness, es), repo);
    forall i: nat | ScannedHead(rules, staleness, es, repo, i)
      ensures i < |es| && es[i].visit.head.Some?
        && NonMerges(g, History(g, es[i].visit.head.value)) <= HashSet(counted)
    {
      ScannedInRange(rules, staleness, es, repo, i);
      ScannedHeadsStayCounted(rules, staleness, g, es, repo, i);
    }
    NeverTwiceExactly(rules, staleness, es, repo);
    NotTwiceNow(rules, staleness, es, repo);
    RunGenuine(rules, staleness, g, es, repo);
    FoldOfList(rules, staleness, g, es, list, k);
  }

  lemma ScannedInRange(rules: Rules, staleness: int, es: seq<Event>, repo: string, i: nat)
    requires ScannedHead(rules, staleness, es, repo, i)
    ensures i < |es| && es[i].visit.head.Some?
  {
  }

  lemma NotTwiceNow(rules: Rules, staleness: int, es: seq<Event>, repo: string)
    requires NeverTwice(rules, staleness, es, repo)
    ensures DistinctHashes(Counted(Run(rules, staleness, es), repo))
  {
  }

  lemma FoldOfList(rules: Rules, staleness: int, g: Graph, es: seq<Event>, list: seq<Commit>, k: Key)
    requires forall i :: 0 <= i < |es| ==> PostPassOnly(es[i])
    requires var counted := Counted(Run(rules, staleness, es), k.repo);
             && FromGraph(g, list) && DistinctHashes(list) && HashSet(list) == HashSet(counted)
             && FromGraph(g, counted) && DistinctHashes(counted)
    ensures CommitColumns(MeasureAt(Run(rules, staleness, es).tables.records, k)) == SumOf(list, PartOf(rules, k))
  {
    hide Run, PartOf, FromGraph, DistinctHashes, HashSet;
    var counted := Counted(Run(rules, staleness, es), k.repo);
    RecordsAgree(rules, staleness, es, k);
    SameCommitsSameBag(g, list, counted);
    SumOfPermutes(list, counted, PartOf(rules, k));
  }

  // ---- The window, while a repository is small ----

  /** The window remembers every counted commit, and no more entries than commits were counted. */
  ghost predicate Remembered(w: World, repo: string) {
    var counted := Counted(w, repo);
    match StateOf(w, repo)
    case None => counted == []
    case Some(s) => |s.recentHashes| == |counted| && forall h :: h in HashSet(counted) ==> h in s.recentHashes
  }

  /** As long as no more than MAX_RECENT_HASHES commits have been counted, at any point of the run. */
  ghost predicate StaysSmall(rules: Rules, staleness: int, es: seq<Event>, repo: string) {
    && |Counted(Run(rules, staleness, es), repo)| <= MAX_RECENT_HASHES
    && (es != [] ==> StaysSmall(rules, staleness, es[..|es| - 1], repo))
  }

  lemma {:induction false} NewestFirstLength(runs: seq<GitRun>, dedup: set<string>)
    ensures |NewestFirst(runs, dedup)| == |Fresh(Printed(runs), dedup)|
  {
    if runs != [] {
      NewestFirstLength(runs[..|runs| - 1], dedup);
      FreshAppend(Printed(runs[..|runs| - 1]), runs[|runs| - 1].commits, dedup);
    }
  }

  lemma NextWindow(rules: Rules, staleness: int, w: World, e: Event)
    requires Completes(staleness, w, e)
    ensures var after, hashes := StateOf(Next(rules, staleness, w, e), e.visit.repo), NewestFirst(e.visit.runs, Window(w, e));
            && after.Some?
            && after.value.recentHashes ==
                 Slice(hashes + if !e.force && StateOf(w, e.visit.repo).Some? then StateOf(w, e.visit.repo).value.recentHashes else [],
                       MAX_RECENT_HASHES)
  {
    hide Skips, Merged, Overlay, HashSet, Subtracted, NewestFirst, Slice;
    var hashes := NewestFirst(e.visit.runs, Window(w, e));
    assert hashes + [] == hashes;
  }

  lemma NextRemembered(rules: Rules, staleness: int, w: World, e: Event)
    requires Completes(staleness, w, e) && Remembered(w, e.visit.repo)
    requires |Counted(Next(rules, staleness, w, e), e.visit.repo)| <= MAX_RECENT_HASHES
    ensures Remembered(Next(rules, staleness, w, e), e.visit.repo)
  {
    hide Next, Completes, HashSet, NewestFirst, Fresh, Printed;
    var repo := e.visit.repo;
    var hashes, counts := NewestFirst(e.visit.runs, Window(w, e)), Counts(e.force, StateOf(w, repo), e.visit);
    NextCounted(rules, staleness, w, e);
    NextWindow(rules, staleness, w, e);
    NewestFirstLength(e.visit.runs, Window(w, e));
    HashSetAppend(Kept(w, e), counts);
    NoHashes();
    forall h | h in HashSet(counts) ensures h in hashes {
      NewestFirstHashes(e.visit.runs, Window(w, e), h);
    }
  }

  lemma NoHashes()
    ensures HashSet([]) == {}
  {
  }

  lemma {:induction false} SmallRunsRemember(rules: Rules, staleness: int, es: seq<Event>, repo: string)
    requires StaysSmall(rules, staleness, es, repo)
    ensures Remembered(Run(rules, staleness, es), repo)
    ensures EachVisit(rules, staleness, es, repo, WithinWindow())
  {
    if es == [] {
      NoHashes();
    } else {
      var front, e := es[..|es| - 1], es[|es| - 1];
      var w := Run(rules, staleness, front);
      SmallRunsRemember(rules, staleness, front, repo);
      if e.visit.repo == repo { RememberedIsWithin(w, e); }
      hide Next, Completes, HashSet, WindowHolds, Remembered;
      assert WithinWindow()(w, e) <==> WindowHolds(w, e);
      if e.visit.repo != repo {
        OtherRepoUntouched(rules, staleness, w, e, repo);
      } else if Completes(staleness, w, e) {
        NextRemembered(rules, staleness, w, e);
      } else {
        IncompleteVisit(rules, staleness, w, e);
      }
    }
  }

  lemma RememberedIsWithin(w: World, e: Event)
    requires Remembered(w, e.visit.repo)
    ensures WindowHolds(w, e)
  {
    hide Printed;
    NoHashes();
    hide HashSet;
  }

  /** Rewritten history or not: a repository that has counted no more commits than the window holds counts none twice. */
  lemma SmallRepositoriesNeverTwice(rules: Rules, staleness: int, es: seq<Event>, repo: string)
    requires StaysSmall(rules, staleness, es, repo) && EachVisit(rules, staleness, es, repo, PrintingOnce())
    ensures NeverTwice(rules, staleness, es, repo)
  {
    hide *;
    SmallRunsRemember(rules, staleness, es, repo);
    NeverTwiceExactly(rules, staleness, es, repo);
  }
}
