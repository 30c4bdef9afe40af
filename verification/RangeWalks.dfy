/**
 * One `git log` per range, and what a whole scan gets from them: which exit codes lose commits, and what the
 * chunks of a first scan cover.
 */
module RangeWalks {
  import opened Text
  import opened Commits
  import opened Collector
  import opened CommitGraph
  import opened DateChunks
  import opened ScanState
  import opened ScanRuns
  import opened ExactlyOnce
  import opened IncrementalScan

  /** What git selects for a range; `--since` and `--until` both include their instant. */
  ghost function RangeSet(g: Graph, head: string, r: Range): set<string> {
    var all := NonMerges(g, History(g, head));
    match r
    case SinceRef(tip) => NonMerges(g, History(g, head) - History(g, tip))
    case Open(None) => all
    case Open(Some(ms)) => set h | h in all && g[h].committedAt >= ms
    case Dated(c) => set h | h in all && c.since <= g[h].committedAt <= c.until
  }

  /** The ranges a scan with this cursor walks. */
  ghost predicate RangesOf(cursor: Cursor, chunkMonths: nat, now: int, ranges: seq<Range>) {
    RangesFor(if cursor.SinceDate? then Some(cursor.ms) else None, if cursor.SinceTip? then Some(cursor.tip) else None,
              chunkMonths, now, ranges)
  }

  /**
   * What git does with one range: it prints some of its commits, each once, and all of them when it exits
   * with 0; an expected failure that printed nothing had nothing to print.
   */
  ghost predicate GitRuns(g: Graph, head: string, r: Range, run: GitRun) {
    && FromGraph(g, run.commits) && DistinctHashes(run.commits)
    && HashSet(run.commits) <= RangeSet(g, head, r)
    && (run.exitCode == 0 ==> HashSet(run.commits) == RangeSet(g, head, r))
    && (run.exitCode != 0 && run.commits == [] && run.severity == Expected ==> RangeSet(g, head, r) == {})
  }

  /** HEAD is on `heads[i]` while range i is walked. */
  ghost predicate GitRunsAll(g: Graph, heads: seq<string>, ranges: seq<Range>, runs: seq<GitRun>) {
    |heads| == |ranges| == |runs| && forall i :: 0 <= i < |runs| ==> GitRuns(g, heads[i], ranges[i], runs[i])
  }

  /** Git died after it had printed something. */
  predicate DiedPrinting(run: GitRun) {
    run.exitCode != 0 && run.commits != []
  }

  predicate NoneDiedPrinting(runs: seq<GitRun>) {
    forall i :: 0 <= i < |runs| ==> !DiedPrinting(runs[i])
  }

  /** A run that neither fails the scan nor died printing printed its whole range. */
  lemma WholeRange(g: Graph, head: string, r: Range, run: GitRun)
    requires GitRuns(g, head, r, run) && !Fails(run) && !DiedPrinting(run)
    ensures HashSet(run.commits) == RangeSet(g, head, r)
  {
    NoHashes();
  }

  // ---- All runs together ----

  lemma {:induction false} PrintedHashes(runs: seq<GitRun>, h: string)
    ensures h in HashSet(Printed(runs)) <==> exists i :: 0 <= i < |runs| && h in HashSet(runs[i].commits)
  {
    hide HashSet;
    if runs == [] {
      NoHashes();
    } else {
      var front, last := runs[..|runs| - 1], runs[|runs| - 1];
      PrintedHashes(front, h);
      HashSetAppend(Printed(front), last.commits);
      if i :| 0 <= i < |front| && h in HashSet(front[i].commits) {
        assert h in HashSet(runs[i].commits);
      }
      if i :| 0 <= i < |runs| && h in HashSet(runs[i].commits) {
        assert i < |front| ==> h in HashSet(front[i].commits);
      }
    }
  }

  lemma {:induction false} PrintedFromGraph(g: Graph, runs: seq<GitRun>)
    requires forall i :: 0 <= i < |runs| ==> FromGraph(g, runs[i].commits)
    ensures FromGraph(g, Printed(runs))
  {
    if runs != [] { PrintedFromGraph(g, runs[..|runs| - 1]); }
  }

  /** All output together lists no commit twice exactly when no two ranges print the same one. */
  lemma {:induction false} PrintedDistinct(runs: seq<GitRun>)
    requires forall i :: 0 <= i < |runs| ==> DistinctHashes(runs[i].commits)
    ensures DistinctHashes(Printed(runs)) <==>
      forall i, j :: 0 <= i < j < |runs| ==> HashSet(runs[i].commits) !! HashSet(runs[j].commits)
  {
    hide HashSet, DistinctHashes;
    if runs == [] {
      NoneDistinct();
    } else {
      var front, last := runs[..|runs| - 1], runs[|runs| - 1];
      PrintedDistinct(front);
      DistinctAppend(Printed(front), last.commits);
      forall h ensures h in HashSet(Printed(front)) <==> exists i :: 0 <= i < |front| && h in HashSet(front[i].commits) {
        PrintedHashes(front, h);
      }
      LastApart(runs);
    }
  }

  lemma NoneDistinct()
    ensures DistinctHashes([])
  {
  }

  lemma LastApart(runs: seq<GitRun>)
    requires runs != []
    ensures (forall i, j :: 0 <= i < j < |runs| ==> HashSet(runs[i].commits) !! HashSet(runs[j].commits)) <==>
      && (forall i, j :: 0 <= i < j < |runs| - 1 ==> HashSet(runs[i].commits) !! HashSet(runs[j].commits))
      && (forall i :: 0 <= i < |runs| - 1 ==> HashSet(runs[i].commits) !! HashSet(runs[|runs| - 1].commits))
  {
    hide HashSet;
  }

  // ---- What the ranges cover ----

  /** The dates a chunked scan reaches; other scans have no such limit. */
  ghost predicate Dateable(g: Graph, head: string, cursor: Cursor, chunkMonths: nat, now: int) {
    cursor.Everything? && chunkMonths > 0 ==>
      forall h :: h in NonMerges(g, History(g, head)) ==> FirstInstant(now) <= g[h].committedAt <= now
  }

  /** Some range of the scan selects the commit. */
  ghost predicate Selected(g: Graph, head: string, ranges: seq<Range>, h: string) {
    exists i :: 0 <= i < |ranges| && h in RangeSet(g, head, ranges[i])
  }

  /** An instant of the chunked span, its end included, lies in some chunk. */
  lemma ChunkFor(chunks: seq<Chunk>, first: int, last: int, months: nat, t: int)
    requires Tiles(chunks, first, last, months)
    ensures first <= t <= last <==> exists i :: 0 <= i < |chunks| && chunks[i].since <= t <= chunks[i].until
  {
    hide AddMonths;
    ChunkOfInstant(chunks, first, last, months, t);
    if t == last { assert chunks[|chunks| - 1].until == t; }
    if i :| 0 <= i < |chunks| && Holds(chunks[i], t) {
      assert chunks[i].since <= t <= chunks[i].until;
    }
    forall i | 0 <= i < |chunks| && chunks[i].since <= t <= chunks[i].until ensures first <= t <= last {
      if i > 0 { ChunksIncrease(chunks, first, last, months, 0, i); }
      if i < |chunks| - 1 { ChunksIncrease(chunks, first, last, months, i, |chunks| - 1); }
    }
  }

  lemma ChunksOf(chunkMonths: nat, now: int, ranges: seq<Range>) returns (chunks: seq<Chunk>)
    requires chunkMonths > 0 && RangesOf(Everything, chunkMonths, now, ranges)
    ensures ranges == DatedAll(chunks) && Tiles(chunks, FirstInstant(now), now, chunkMonths)
  {
    chunks :| ranges == DatedAll(chunks) && Tiles(chunks, FirstInstant(now), now, chunkMonths);
  }

  /** The ranges select what the cursor asks for, except that chunks select only what is dated within the last ten years. */
  lemma RangesSelect(g: Graph, head: string, cursor: Cursor, chunkMonths: nat, now: int, ranges: seq<Range>, h: string)
    requires RangesOf(cursor, chunkMonths, now, ranges)
    ensures Selected(g, head, ranges, h) <==>
      h in WalkSet(g, head, cursor)
      && (cursor.Everything? && chunkMonths > 0 ==> FirstInstant(now) <= g[h].committedAt <= now)
  {
    hide History, Tiles, TenYearsBefore, Midnight, FirstInstant;
    if cursor.Everything? && chunkMonths > 0 {
      var chunks := ChunksOf(chunkMonths, now, ranges);
      if h in NonMerges(g, History(g, head)) {
        ChunkFor(chunks, FirstInstant(now), now, chunkMonths, g[h].committedAt);
        if i :| 0 <= i < |chunks| && chunks[i].since <= g[h].committedAt <= chunks[i].until {
          assert h in RangeSet(g, head, ranges[i]);
        }
        forall i | 0 <= i < |ranges| && h in RangeSet(g, head, ranges[i])
          ensures chunks[i].since <= g[h].committedAt <= chunks[i].until
        {
          assert ranges[i] == Dated(chunks[i]);
        }
      }
    } else {
      assert |ranges| == 1;
      assert Selected(g, head, ranges, h) <==> h in RangeSet(g, head, ranges[0]);
    }
  }

  lemma RangeGrows(g: Graph, head: string, now: string, r: Range)
    requires head in History(g, now)
    ensures RangeSet(g, head, r) <= RangeSet(g, now, r)
  {
    HistoryNests(g, head, now);
    hide History;
  }

  // ---- No loss ----

  /**
   * A scan in which no git run failed or died printing gives the run theorems what they ask for, also while
   * HEAD moves on from one range to the next.
   */
  lemma WholeRangesReach(g: Graph, w: World, e: Event, heads: seq<string>, ranges: seq<Range>, chunkMonths: nat, now: int)
    requires RangesOf(CursorOf(w, e), chunkMonths, now, ranges) && GitRunsAll(g, heads, ranges, e.visit.runs)
    requires !AnyFails(e.visit.runs) && NoneDiedPrinting(e.visit.runs) && e.visit.head.Some?
    requires forall i :: 0 <= i < |heads| ==> e.visit.head.value in History(g, heads[i])
    requires Dateable(g, e.visit.head.value, CursorOf(w, e), chunkMonths, now)
    requires CursorOf(w, e).SinceTip? ==> CursorOf(w, e).tip in History(g, e.visit.head.value)
    ensures ReachesHead(g, w, e) && FromGraph(g, Printed(e.visit.runs))
  {
    hide History, HashSet, Printed, RangesOf, FromGraph, RangeSet, Fails, DiedPrinting, WalkSet, DistinctHashes, FirstInstant;
    var runs, head, cursor := e.visit.runs, e.visit.head.value, CursorOf(w, e);
    forall i | 0 <= i < |runs| ensures FromGraph(g, runs[i].commits) { assert GitRuns(g, heads[i], ranges[i], runs[i]); }
    PrintedFromGraph(g, runs);
    forall h | h in WalkSet(g, head, cursor) ensures h in HashSet(Printed(runs)) {
      WalkedIsReachable(g, head, cursor, h);
      RangesSelect(g, head, cursor, chunkMonths, now, ranges, h);
      var i :| 0 <= i < |ranges| && h in RangeSet(g, head, ranges[i]);
      RangeGrows(g, head, heads[i], ranges[i]);
      assert GitRuns(g, heads[i], ranges[i], runs[i]) && !Fails(runs[i]);
      WholeRange(g, heads[i], ranges[i], runs[i]);
      PrintedHashes(runs, h);
    }
  }

  lemma WalkedIsReachable(g: Graph, head: string, cursor: Cursor, h: string)
    requires h in WalkSet(g, head, cursor)
    ensures h in NonMerges(g, History(g, head))
  {
  }

  /**
   * While HEAD stays put, a completed visit leaves everything reachable from it counted exactly when each run
   * that died printing had already printed, or the store already counted, its whole range.
   */
  lemma LossExactly(rules: Rules, staleness: int, g: Graph, w: World, e: Event, ranges: seq<Range>, chunkMonths: nat, now: int)
    requires Completes(staleness, w, e) && Covered(g, w, e.visit.repo) && e.visit.head.Some?
    requires CursorOf(w, e).SinceTip? ==> CursorOf(w, e).tip in History(g, e.visit.head.value)
    requires RangesOf(CursorOf(w, e), chunkMonths, now, ranges)
    requires GitRunsAll(g, Still(e.visit.head.value, |ranges|), ranges, e.visit.runs)
    requires Dateable(g, e.visit.head.value, CursorOf(w, e), chunkMonths, now)
    ensures Lossless(rules, staleness, g, w, e) <==>
      forall i :: 0 <= i < |ranges| && DiedPrinting(e.visit.runs[i]) ==>
        RangeSet(g, e.visit.head.value, ranges[i]) <= HashSet(Printed(e.visit.runs)) + HashSet(Kept(w, e))
  {
    hide History, HashSet, Printed, RangesOf, FromGraph, RangeSet, DistinctHashes, FirstInstant, Next, WalkSet, Kept, Skips;
    var runs, head, cursor := e.visit.runs, e.visit.head.value, CursorOf(w, e);
    CoveredCursor(w, e, g);
    CountedGrows(rules, staleness, g, w, e);
    RestOfHistory(g, head, cursor);
    forall h ensures h in WalkSet(g, head, cursor) <==> Selected(g, head, ranges, h) {
      if h in WalkSet(g, head, cursor) { WalkedIsReachable(g, head, cursor, h); }
      RangesSelect(g, head, cursor, chunkMonths, now, ranges, h);
    }
    forall i | 0 <= i < |ranges| && !DiedPrinting(runs[i])
      ensures RangeSet(g, head, ranges[i]) <= HashSet(Printed(runs))
    {
      assert GitRuns(g, Still(head, |ranges|)[i], ranges[i], runs[i]) && !Fails(runs[i]);
      WholeRange(g, head, ranges[i], runs[i]);
      forall h | h in RangeSet(g, head, ranges[i]) ensures h in HashSet(Printed(runs)) { PrintedHashes(runs, h); }
    }
    if Lossless(rules, staleness, g, w, e) {
      forall i | 0 <= i < |ranges| ensures RangeSet(g, head, ranges[i]) <= HashSet(Printed(runs)) + HashSet(Kept(w, e)) {
        forall h | h in RangeSet(g, head, ranges[i]) ensures h in NonMerges(g, History(g, head)) {
          assert Selected(g, head, ranges, h);
          WalkedIsReachable(g, head, cursor, h);
        }
      }
    }
  }

  function Still(head: string, n: nat): seq<string> {
    seq(n, _ => head)
  }

  /** Everything reachable from the head the visit resolved is counted afterwards. */
  ghost predicate Lossless(rules: Rules, staleness: int, g: Graph, w: World, e: Event)
    requires e.visit.head.Some?
  {
    NonMerges(g, History(g, e.visit.head.value)) <= HashSet(Counted(Next(rules, staleness, w, e), e.visit.repo))
  }

  lemma CoveredCursor(w: World, e: Event, g: Graph)
    requires Covered(g, w, e.visit.repo)
    ensures !CursorOf(w, e).SinceDate?
  {
  }

  // ---- Which ranges a dying git can hurt ----

  ghost predicate Consistent(g: Graph) {
    forall h :: h in g ==> g[h].commit.hash == h
  }

  /** Some list of exactly these commits. */
  lemma {:induction false} ListOf(g: Graph, s: set<string>) returns (list: seq<Commit>)
    requires Consistent(g) && forall h :: h in s ==> h in g
    ensures FromGraph(g, list) && DistinctHashes(list) && HashSet(list) == s
    decreases |s|
  {
    if s == {} {
      NoHashes();
      list := [];
    } else {
      var h :| h in s;
      var rest := ListOf(g, s - {h});
      HashSetStep(rest, g[h].commit);
      DistinctStep(rest, g[h].commit);
      list := rest + [g[h].commit];
    }
  }

  function WithRun(e: Event, run: GitRun): Event {
    e.(visit := e.visit.(runs := [run]))
  }

  /**
   * For a scan of one range, and whatever a git that dies printing may have printed: every such visit is
   * lossless exactly when the whole range was already counted or holds at most one commit.
   */
  lemma DyingGitIsHarmlessExactly(rules: Rules, staleness: int, g: Graph, w: World, e: Event, r: Range)
    requires Consistent(g) && Covered(g, w, e.visit.repo) && e.visit.head.Some?
    requires !Skips(e.force, staleness, StateOf(w, e.visit.repo), e.visit)
    requires CursorOf(w, e).SinceTip? ==> CursorOf(w, e).tip in History(g, e.visit.head.value)
    requires RangesOf(CursorOf(w, e), 0, 0, [r])
    ensures (forall run :: DiedPrinting(run) && GitRuns(g, e.visit.head.value, r, run)
               ==> Lossless(rules, staleness, g, w, WithRun(e, run)))
       <==> RangeSet(g, e.visit.head.value, r) <= HashSet(Kept(w, e)) || |RangeSet(g, e.visit.head.value, r)| <= 1
  {
    hide History, HashSet, RangesOf, RangeSet, FromGraph, DistinctHashes, Next, Kept, Skips, Lossless, Covered;
    var head, range, kept := e.visit.head.value, RangeSet(g, e.visit.head.value, r), HashSet(Kept(w, e));
    forall run | DiedPrinting(run) && GitRuns(g, head, r, run)
      ensures Lossless(rules, staleness, g, w, WithRun(e, run)) <==> range <= HashSet(run.commits) + kept
    {
      OneDyingRun(rules, staleness, g, w, e, r, run);
    }
    if range <= kept {
    } else if |range| <= 1 {
      forall run | DiedPrinting(run) && GitRuns(g, head, r, run) ensures range <= HashSet(run.commits) {
        PrintedOne(run);
        OnlyOne(range, HashSet(run.commits));
      }
    } else {
      var h :| h in range && h !in kept;
      RangeInGraph(g, head, r);
      var list := ListOf(g, range - {h});
      var run := GitRun(list, 1, Fatal);
      NoHashes();
      assert range != {h} && list != [];
      assert DiedPrinting(run) && GitRuns(g, head, r, run);
      assert !(range <= HashSet(run.commits) + kept);
    }
  }

  lemma OneDyingRun(rules: Rules, staleness: int, g: Graph, w: World, e: Event, r: Range, run: GitRun)
    requires Covered(g, w, e.visit.repo) && e.visit.head.Some?
    requires !Skips(e.force, staleness, StateOf(w, e.visit.repo), e.visit)
    requires CursorOf(w, e).SinceTip? ==> CursorOf(w, e).tip in History(g, e.visit.head.value)
    requires RangesOf(CursorOf(w, e), 0, 0, [r]) && DiedPrinting(run) && GitRuns(g, e.visit.head.value, r, run)
    ensures Lossless(rules, staleness, g, w, WithRun(e, run))
       <==> RangeSet(g, e.visit.head.value, r) <= HashSet(run.commits) + HashSet(Kept(w, e))
  {
    hide History, HashSet, RangesOf, RangeSet, FromGraph, DistinctHashes, Next, Printed, Lossless, Covered;
    var e' := WithRun(e, run);
    PrintedOnce(run);
    assert CursorOf(w, e') == CursorOf(w, e) && Kept(w, e') == Kept(w, e);
    assert Completes(staleness, w, e');
    assert Still(e.visit.head.value, 1)[0] == e.visit.head.value;
    assert GitRunsAll(g, Still(e.visit.head.value, 1), [r], [run]);
    LossExactly(rules, staleness, g, w, e', [r], 0, 0);
  }

  lemma PrintedOne(run: GitRun)
    requires run.commits != []
    ensures HashSet(run.commits) != {}
  {
    assert run.commits[0].hash in HashSet(run.commits);
  }

  lemma OnlyOne(s: set<string>, t: set<string>)
    requires |s| <= 1 && t <= s && t != {}
    ensures s == t
  {
    var h :| h in t;
    assert h in s && |s - {h}| == |s| - 1;
    assert s - {h} == {};
  }

  lemma RangeInGraph(g: Graph, head: string, r: Range)
    ensures forall h :: h in RangeSet(g, head, r) ==> h in g
  {
  }

  // ---- First scans in chunks ----

  /**
   * A first scan in chunks, git well and HEAD still: it reaches the whole history exactly when every commit is
   * dated within the last ten years, and lists no commit twice exactly when none is dated on a boundary
   * between two chunks.
   */
  lemma FirstScanExactly(g: Graph, head: string, chunks: seq<Chunk>, chunkMonths: nat, now: int, runs: seq<GitRun>)
    requires chunkMonths > 0 && Tiles(chunks, FirstInstant(now), now, chunkMonths)
    requires GitRunsAll(g, Still(head, |chunks|), DatedAll(chunks), runs) && !AnyFails(runs) && NoneDiedPrinting(runs)
    ensures NonMerges(g, History(g, head)) <= HashSet(Printed(runs)) <==>
      forall h :: h in NonMerges(g, History(g, head)) ==> FirstInstant(now) <= g[h].committedAt <= now
    ensures DistinctHashes(Printed(runs)) <==>
      forall h, i :: h in NonMerges(g, History(g, head)) && 0 <= i < |chunks| - 1 ==> g[h].committedAt != chunks[i].until
  {
    hide History, HashSet, Printed, Tiles, FirstInstant, Fails, DistinctHashes, FromGraph;
    var ranges := DatedAll(chunks);
    assert RangesOf(Everything, chunkMonths, now, ranges);
    forall i | 0 <= i < |runs|
      ensures HashSet(runs[i].commits) == RangeSet(g, head, ranges[i]) && DistinctHashes(runs[i].commits)
    {
      assert GitRuns(g, Still(head, |chunks|)[i], ranges[i], runs[i]) && !Fails(runs[i]);
      WholeRange(g, head, ranges[i], runs[i]);
    }
    FirstScanReaches(g, head, chunks, chunkMonths, now, runs);
    PrintedDistinct(runs);
    BoundaryCommits(g, head, chunks, FirstInstant(now), now, chunkMonths);
    assert forall i, j :: 0 <= i < j < |runs| ==>
      (HashSet(runs[i].commits) !! HashSet(runs[j].commits) <==> RangeSet(g, head, ranges[i]) !! RangeSet(g, head, ranges[j]));
  }

  lemma {:induction false} FirstScanReaches(g: Graph, head: string, chunks: seq<Chunk>, chunkMonths: nat, now: int, runs: seq<GitRun>)
    requires chunkMonths > 0 && RangesOf(Everything, chunkMonths, now, DatedAll(chunks)) && |runs| == |chunks|
    requires forall i :: 0 <= i < |runs| ==> HashSet(runs[i].commits) == RangeSet(g, head, DatedAll(chunks)[i])
    ensures NonMerges(g, History(g, head)) <= HashSet(Printed(runs)) <==>
      forall h :: h in NonMerges(g, History(g, head)) ==> FirstInstant(now) <= g[h].committedAt <= now
  {
    hide History, HashSet, Printed, FirstInstant, RangeSet, RangesOf;
    var ranges := DatedAll(chunks);
    forall h | h in NonMerges(g, History(g, head))
      ensures h in HashSet(Printed(runs)) <==> FirstInstant(now) <= g[h].committedAt <= now
    {
      RangesSelect(g, head, Everything, chunkMonths, now, ranges, h);
      PrintedHashes(runs, h);
      if i :| 0 <= i < |runs| && h in HashSet(runs[i].commits) { assert h in RangeSet(g, head, ranges[i]); }
      if i :| 0 <= i < |ranges| && h in RangeSet(g, head, ranges[i]) { assert h in HashSet(runs[i].commits); }
    }
  }

  lemma BoundaryCommits(g: Graph, head: string, chunks: seq<Chunk>, first: int, last: int, months: nat)
    requires Tiles(chunks, first, last, months)
    ensures (forall i, j :: 0 <= i < j < |chunks| ==>
               RangeSet(g, head, DatedAll(chunks)[i]) !! RangeSet(g, head, DatedAll(chunks)[j])) <==>
      forall h, i :: h in NonMerges(g, History(g, head)) && 0 <= i < |chunks| - 1 ==> g[h].committedAt != chunks[i].until
  {
    hide History, AddMonths;
    var ranges := DatedAll(chunks);
    if forall i, j :: 0 <= i < j < |chunks| ==> RangeSet(g, head, ranges[i]) !! RangeSet(g, head, ranges[j]) {
      forall h, i | h in NonMerges(g, History(g, head)) && 0 <= i < |chunks| - 1 ensures g[h].committedAt != chunks[i].until {
        assert RangeSet(g, head, ranges[i]) !! RangeSet(g, head, ranges[i + 1]);
        assert h !in RangeSet(g, head, ranges[i]) || h !in RangeSet(g, head, ranges[i + 1]);
        assert chunks[i].since < chunks[i].until == chunks[i + 1].since < chunks[i + 1].until;
      }
    }
    forall i, j, h | 0 <= i < j < |chunks| && h in RangeSet(g, head, ranges[i]) && h in RangeSet(g, head, ranges[j])
      ensures i < |chunks| - 1 && h in NonMerges(g, History(g, head)) && g[h].committedAt == chunks[i].until
    {
      ChunksIncrease(chunks, first, last, months, i, j);
    }
  }
}
