/** Per-repo scan cursors, store/scan-state.ts, and the cursor choice of collector/index.ts. */
module ScanState {
  import opened Text
  import opened Calendar
  import opened Commits
  import opened Collector
  import opened CommitGraph

  const MAX_RECENT_HASHES := 5000

  datatype RepoState = RepoState(
    lastHash: string, lastScanDate: int, recentHashes: seq<string>, recordCount: nat,
    recentPrHashes: seq<string>, lastTip: Option<string>, lastPrTip: Option<string>)

  /** `s.slice(0, n)`. */
  function Slice<T>(s: seq<T>, n: nat): seq<T> {
    if |s| <= n then s else s[..n]
  }

  /** New hashes go in front; the window keeps the first MAX_RECENT_HASHES. */
  function RotateHashes(recent: seq<string>, new': seq<string>): seq<string> {
    Slice(new' + recent, MAX_RECENT_HASHES)
  }

  predicate IsStale(state: Option<RepoState>, stalenessMinutes: int, now: int) {
    state.None? || now - state.value.lastScanDate > stalenessMinutes * 60 * 1000
  }

  /** Where the next walk starts. */
  function ChooseCursor(force: bool, state: Option<RepoState>, head: Option<string>, tipIsAncestor: bool): Cursor {
    if force || state.None? then Everything
    else if state.value.lastTip.Some? then
      if head.Some? && tipIsAncestor then SinceTip(state.value.lastTip.value) else Everything
    else SinceDate(state.value.lastScanDate - MS_PER_DAY)
  }

  /** The dedup set, empty for a forced scan. */
  function RecentSet(force: bool, state: Option<RepoState>): set<string> {
    if force || state.None? then {} else set h | h in state.value.recentHashes
  }

  /**
   * After a chunked scan the window never drops a newer range's hash while it keeps one of an older
   * range: if it holds anything older than the ranges from j on, it holds all of theirs.
   */
  lemma WindowKeepsNewestRanges(runs: seq<GitRun>, dedup: set<string>, recent: seq<string>, j: nat)
    requires j <= |runs|
    ensures var newer := NewestFirst(runs[j..], dedup);
            var window := RotateHashes(recent, NewestFirst(runs, dedup));
            && NewestFirst(runs, dedup) == newer + NewestFirst(runs[..j], dedup)
            && (newer <= window || (window <= newer && |window| == MAX_RECENT_HASHES))
  {
    NewestFirstSplits(runs, dedup, j);
  }

  lemma {:induction false} NewestFirstSplits(runs: seq<GitRun>, dedup: set<string>, j: nat)
    requires j <= |runs|
    ensures NewestFirst(runs, dedup) == NewestFirst(runs[j..], dedup) + NewestFirst(runs[..j], dedup)
  {
    hide Fresh, Hashes;
    if j == |runs| {
      assert runs[..j] == runs && runs[j..] == [];
    } else {
      var front, last := runs[..|runs| - 1], runs[|runs| - 1];
      NewestFirstSplits(front, dedup, j);
      assert front[..j] == runs[..j] && runs[j..][..|runs[j..]| - 1] == front[j..];
      Regroup(Hashes(Fresh(last.commits, dedup)), NewestFirst(front[j..], dedup), NewestFirst(runs[..j], dedup));
    }
  }

  lemma Regroup<T>(a: seq<T>, b: seq<T>, c: seq<T>)
    ensures a + (b + c) == a + b + c
  {
  }

  /** Without truncation the window remembers exactly the hashes of the commits just counted and the old window. */
  lemma {:induction false} NewestFirstHashes(runs: seq<GitRun>, dedup: set<string>, h: string)
    ensures h in NewestFirst(runs, dedup) <==> h in HashSet(Fresh(Printed(runs), dedup))
  {
    if runs != [] {
      var front, last := runs[..|runs| - 1], runs[|runs| - 1];
      NewestFirstHashes(front, dedup, h);
      FreshAppend(Printed(front), last.commits, dedup);
      HashSetAppend(Fresh(Printed(front), dedup), Fresh(last.commits, dedup));
      HashesListed(Fresh(last.commits, dedup), h);
    }
  }

  lemma HashesListed(commits: seq<Commit>, h: string)
    ensures h in Hashes(commits) <==> h in HashSet(commits)
  {
    assert forall i :: 0 <= i < |commits| ==> Hashes(commits)[i] == commits[i].hash;
  }
}
