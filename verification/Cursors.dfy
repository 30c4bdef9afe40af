/** When a repository is visited again, and what the cursor a visit saves says, in terms of the events alone. */
module Cursors {
  import opened Text
  import opened IsoWeek
  import opened Commits
  import opened CommitCounts
  import opened Collector
  import opened CommitGraph
  import opened Records
  import opened MergeByKey
  import opened AuthorRegistry
  import opened ScanState
  import opened ScanRuns
  import opened ExactlyOnce

  // ---- When a repository is visited ----

  /**
   * When the last scan of a repository finished that is still remembered: an ordinary visit within the
   * staleness of it scans nothing, a failed one leaves it, a failed forced one forgets it.
   */
  ghost function LastFinish(staleness: int, es: seq<Event>, repo: string): Option<int> {
    if es == [] then None
    else
      FinishAfter(staleness, LastFinish(staleness, es[..|es| - 1], repo), es[|es| - 1], repo)
  }

  ghost function FinishAfter(staleness: int, before: Option<int>, e: Event, repo: string): Option<int> {
    if e.visit.repo != repo || !e.visit.pathExists || !Due(staleness, before, e) then before
    else if exists i :: 0 <= i < |e.visit.runs| && DiesSilently(e.visit.runs[i]) then if e.force then None else before
    else Some(e.visit.finished)
  }

  predicate DiesSilently(run: GitRun) {
    run.exitCode != 0 && run.commits == [] && run.severity != Expected
  }

  /** Asked for by force, never scanned, or more than `staleness` minutes after the last finish. */
  predicate Due(staleness: int, last: Option<int>, e: Event) {
    e.force || last.None? || e.visit.now - last.value > staleness * 60_000
  }

  /** The saved cursor remembers exactly that time. */
  lemma {:induction false} FinishRemembered(rules: Rules, staleness: int, es: seq<Event>, repo: string)
    ensures LastFinish(staleness, es, repo) == FinishIn(Run(rules, staleness, es), repo)
  {
    hide Next, FinishAfter;
    if es != [] {
      FinishRemembered(rules, staleness, es[..|es| - 1], repo);
      NextFinish(rules, staleness, Run(rules, staleness, es[..|es| - 1]), es[|es| - 1], repo);
    }
  }

  ghost function FinishIn(w: World, repo: string): Option<int> {
    if StateOf(w, repo).Some? then Some(StateOf(w, repo).value.lastScanDate) else None
  }

  lemma NextFinish(rules: Rules, staleness: int, w: World, e: Event, repo: string)
    ensures FinishIn(Next(rules, staleness, w, e), repo) == FinishAfter(staleness, FinishIn(w, repo), e, repo)
  {
    FailsExactly(e.visit.runs);
    hide ScanTable, Overlay, FileExtras, Merged, Subtracted, TakeAll, NewestFirst, Counts, AnyFails, DiesSilently;
  }

  lemma FailsExactly(runs: seq<GitRun>)
    ensures AnyFails(runs) <==> exists i :: 0 <= i < |runs| && DiesSilently(runs[i])
  {
    assert forall i :: 0 <= i < |runs| ==> Fails(runs[i]) == DiesSilently(runs[i]);
  }

  /**
   * The next visit after any run scans exactly when the path exists and the repository is due; a visit
   * that does not scan leaves the world as it was.
   */
  lemma ScansExactlyWhenDue(rules: Rules, staleness: int, es: seq<Event>, e: Event)
    ensures var w := Run(rules, staleness, es);
            var scans := e.visit.pathExists && Due(staleness, LastFinish(staleness, es, e.visit.repo), e);
            && (!scans ==> Run(rules, staleness, es + [e]) == w)
            && (Completes(staleness, w, e) <==> scans && !AnyFails(e.visit.runs))
  {
    FinishRemembered(rules, staleness, es, e.visit.repo);
    NextInRun(rules, staleness, es, e);
    hide LastFinish, AnyFails, Run, Completed, Reset, Counts;
    assert FinishIn(Run(rules, staleness, es), e.visit.repo) == LastFinish(staleness, es, e.visit.repo);
  }

  lemma NextInRun(rules: Rules, staleness: int, es: seq<Event>, e: Event)
    ensures Run(rules, staleness, es + [e]) == Next(rules, staleness, Run(rules, staleness, es), e)
  {
    hide Next;
    assert (es + [e])[..|es|] == es;
  }

  /**
   * After a completed scan, an ordinary visit of the repository changes nothing until `staleness`
   * minutes have passed since it finished, and from then on scans again unless a git run fails.
   */
  lemma ScannedAgainExactly(rules: Rules, staleness: int, es: seq<Event>, e: Event, f: Event)
    requires Completes(staleness, Run(rules, staleness, es), e)
    requires !f.force && f.visit.repo == e.visit.repo && f.visit.pathExists
    ensures var w := Run(rules, staleness, es + [e]);
            var due := f.visit.now - e.visit.finished > staleness * 60_000;
            && (!due ==> Run(rules, staleness, es + [e, f]) == w)
            && (due && !AnyFails(f.visit.runs) ==>
                 var after := StateOf(Run(rules, staleness, es + [e, f]), f.visit.repo);
                 Completes(staleness, w, f) && after.Some? && after.value.lastScanDate == f.visit.finished)
  {
    assert es + [e, f] == es + [e] + [f];
    NextInRun(rules, staleness, es, e);
    NextInRun(rules, staleness, es + [e], f);
    hide AnyFails, Run, ScanTable, Overlay, FileExtras, Merged, Subtracted, TakeAll, NewestFirst, Counts;
  }

  /** A repository without a cursor is scanned by any visit that finds its path. */
  lemma UnknownIsScanned(rules: Rules, staleness: int, es: seq<Event>, e: Event)
    requires StateOf(Run(rules, staleness, es), e.visit.repo).None? && e.visit.pathExists && !AnyFails(e.visit.runs)
    ensures Completes(staleness, Run(rules, staleness, es), e)
  {
    hide AnyFails, Run;
  }

  // ---- What is saved ----

  /** The keys for which a scan makes a record. */
  ghost function KeysFed(rules: Rules, repo: string, counted: seq<Commit>): set<Key> {
    set i | 0 <= i < |counted| && IsMeasured(rules, counted[i]) :: KeyOf(rules, repo, counted[i])
  }

  lemma TableKeys(rules: Rules, repo: string, group: string, counted: seq<Commit>)
    ensures ScanTable(rules, repo, group, counted).Keys == KeysFed(rules, repo, counted)
  {
    hide ScanTable, TakeAll, KeyOf, IsMeasured, IgnoredOnly;
    FinalKeys(rules, repo, group, counted);
    forall k: Key ensures k in ScanTable(rules, repo, group, counted) <==> k in KeysFed(rules, repo, counted) {
      AccDays(rules, repo, group, counted, k);
      KeyFed(rules, repo, counted, k);
    }
  }

  lemma KeyFed(rules: Rules, repo: string, counted: seq<Commit>, k: Key)
    ensures k in KeysFed(rules, repo, counted) <==> k.repo == repo && FedBy(rules, counted, k)
  {
    hide IsMeasured, IgnoredOnly, AuthorOf, UtcDay, DateToISOWeek;
    forall i | 0 <= i < |counted|
      ensures IsMeasured(rules, counted[i]) <==> !IgnoredOnly(rules, counted[i])
    {
      IgnoredOnlyExactly(rules, counted[i]);
    }
  }

  ghost function OldHashes(force: bool, state: Option<RepoState>): seq<string> {
    if force || state.None? then [] else state.value.recentHashes
  }

  ghost function OldPrHashes(force: bool, state: Option<RepoState>): seq<string> {
    if force || state.None? then [] else state.value.recentPrHashes
  }

  /** The first 5000 of a list. */
  ghost predicate Newest5000(kept: seq<string>, all: seq<string>) {
    kept <= all && |kept| == if |all| < 5000 then |all| else 5000
  }

  /** The windows, tips and counts of a saved cursor, given the hashes of the commits counted and the number of records. */
  ghost predicate Saves(after: RepoState, force: bool, old': Option<RepoState>, v: Visit, hashes: seq<string>, records: nat) {
    && after.lastScanDate == v.finished
    && Newest5000(after.recentHashes, hashes + OldHashes(force, old'))
    && Newest5000(after.recentPrHashes, v.prHashes + OldPrHashes(force, old'))
    && after.recordCount == (if force || old'.None? then 0 else old'.value.recordCount) + records
    && after.lastTip == (if v.head.Some? then v.head else if old'.Some? then old'.value.lastTip else None)
    && after.lastPrTip == (if v.prTip.Some? then v.prTip else if old'.Some? then old'.value.lastPrTip else None)
    && (v.head.Some? ==> after.lastHash == v.head.value)
    && (v.head.None? && hashes == [] ==> after.lastHash == if old'.Some? then old'.value.lastHash else "")
    && (v.head.None? && hashes != [] ==> after.lastHash == hashes[0])
  }

  lemma NextSaves(force: bool, old': Option<RepoState>, v: Visit, hashes: seq<string>, records: nat)
    ensures Saves(NextState(force, old', v, hashes, records), force, old', v, hashes, records)
  {
    assert v.prHashes + [] == v.prHashes && hashes + [] == hashes;
  }

  lemma NextCursor(rules: Rules, staleness: int, w: World, e: Event)
    requires Completes(staleness, w, e)
    ensures var v, old' := e.visit, StateOf(w, e.visit.repo);
            StateOf(Next(rules, staleness, w, e), v.repo)
            == Some(NextState(e.force, old', v, NewestFirst(v.runs, RecentSet(e.force, old')),
                              |ScanTable(rules, v.repo, v.group, Counts(e.force, old', v))|))
  {
    hide ScanTable, Overlay, FileExtras, Merged, Subtracted, TakeAll, NewestFirst, AnyFails, NextState, Counts;
  }

  /**
   * A completed visit saves the windows, tips and counts of what it saw, and starts them afresh when forced;
   * the hashes are those of the commits counted, and the records one for each key these feed.
   */
  lemma CursorSaved(rules: Rules, staleness: int, w: World, e: Event)
    requires Completes(staleness, w, e)
    ensures var v, old' := e.visit, StateOf(w, e.visit.repo);
            var counted, hashes := Counts(e.force, old', v), NewestFirst(v.runs, RecentSet(e.force, old'));
            var after := StateOf(Next(rules, staleness, w, e), v.repo);
            && after.Some? && Saves(after.value, e.force, old', v, hashes, |KeysFed(rules, v.repo, counted)|)
            && (hashes == [] <==> counted == [])
            && (forall h :: h in hashes <==> h in HashSet(counted))
  {
    var v, old' := e.visit, StateOf(w, e.visit.repo);
    var counted, hashes := Counts(e.force, old', v), NewestFirst(v.runs, RecentSet(e.force, old'));
    var scanned := ScanTable(rules, v.repo, v.group, counted);
    TableKeys(rules, v.repo, v.group, counted);
    SomeHash(v.runs, RecentSet(e.force, old'));
    assert |scanned| == |scanned.Keys|;
    hide ScanTable, NextState, NewestFirst, KeysFed, HashSet, Saves, Next, Completes;
    NextCursor(rules, staleness, w, e);
    NextSaves(e.force, old', v, hashes, |scanned|);
  }

  lemma SomeHash(runs: seq<GitRun>, dedup: set<string>)
    ensures var hashes, counted := NewestFirst(runs, dedup), Fresh(Printed(runs), dedup);
            && (hashes == [] <==> counted == [])
            && (forall h :: h in hashes <==> h in HashSet(counted))
  {
    var hashes, counted := NewestFirst(runs, dedup), Fresh(Printed(runs), dedup);
    forall h ensures h in hashes <==> h in HashSet(counted) { NewestFirstHashes(runs, dedup, h); }
    hide NewestFirst, Fresh, Printed;
    if hashes != [] { assert hashes[0] in hashes; }
    if counted != [] { assert counted[0].hash in HashSet(counted); }
  }

  // ---- Where the walk starts ----

  /** Git's answer to whether the saved tip is an ancestor of the head. */
  ghost predicate AnswersTruly(g: Graph, w: World, e: Event, head: string) {
    var state := StateOf(w, e.visit.repo);
    state.Some? && state.value.lastTip.Some? ==> (e.visit.tipIsAncestor <==> state.value.lastTip.value in History(g, head))
  }

  /**
   * A walk that runs to its end lists the head's whole non-merge history, less that of the saved tip when
   * the tip is part of it, and only a cursor without a tip goes by date, from a day before the last scan.
   * Either way it meets what the run theorems ask of a walk.
   */
  lemma WalkExactly(g: Graph, w: World, e: Event, head: string)
    requires e.visit.head == Some(head) && head in g && AnswersTruly(g, w, e, head)
    requires PrintsWalk(g, head, CursorOf(w, e), e.visit.runs)
    ensures WalkedFrom(g, w, e, head)
    ensures var state, listed := StateOf(w, e.visit.repo), HashSet(Printed(e.visit.runs));
            if e.force || state.None? then listed == NonMerges(g, History(g, head))
            else if state.value.lastTip.None? then
              listed == set h | h in NonMerges(g, History(g, head)) && g[h].committedAt >= state.value.lastScanDate - 86_400_000
            else
              var tip := state.value.lastTip.value;
              listed == NonMerges(g, if tip in History(g, head) then History(g, head) - History(g, tip) else History(g, head))
  {
    HeadInHistory(g, head);
    hide History, NonMerges, HashSet, Printed;
  }
}
