/** Git's commit graph as the scanner sees it: reachability, ranges and what `git log` prints for them. */
module CommitGraph {
  import opened Commits
  import opened Collector

  datatype Node = Node(parents: seq<string>, commit: Commit, committedAt: int)

  type Graph = map<string, Node>

  ghost predicate Path(g: Graph, p: seq<string>) {
    && |p| > 0
    && (forall i :: 0 <= i < |p| ==> p[i] in g)
    && (forall i :: 0 <= i < |p| - 1 ==> p[i + 1] in g[p[i]].parents)
  }

  ghost predicate PathBetween(g: Graph, from: string, to: string, p: seq<string>) {
    Path(g, p) && p[0] == from && p[|p| - 1] == to
  }

  ghost predicate Reaches(g: Graph, from: string, to: string) {
    exists p :: PathBetween(g, from, to, p)
  }

  /** Everything reachable from a commit, itself included. */
  ghost function History(g: Graph, head: string): set<string> {
    set h | h in g && Reaches(g, head, h)
  }

  lemma HeadInHistory(g: Graph, head: string)
    requires head in g
    ensures head in History(g, head)
  {
    assert PathBetween(g, head, head, [head]);
  }

  lemma ReachesTransitive(g: Graph, a: string, b: string, c: string)
    requires Reaches(g, a, b) && Reaches(g, b, c)
    ensures Reaches(g, a, c)
  {
    var p :| PathBetween(g, a, b, p);
    var q :| PathBetween(g, b, c, q);
    assert PathBetween(g, a, c, p + q[1..]);
  }

  lemma HistoryNests(g: Graph, ancestor: string, head: string)
    requires ancestor in History(g, head)
    ensures History(g, ancestor) <= History(g, head)
  {
    forall h | h in History(g, ancestor)
      ensures h in History(g, head)
    {
      ReachesTransitive(g, head, ancestor, h);
    }
  }

  ghost predicate Closed(g: Graph) {
    forall h, p :: h in g && p in g[h].parents ==> p in g
  }

  /** Commits are immutable: new commits never change what an existing one reaches. */
  lemma GrowthKeepsHistory(g: Graph, bigger: Graph, head: string)
    requires Closed(g) && head in g && forall h :: h in g ==> h in bigger && bigger[h] == g[h]
    ensures History(bigger, head) == History(g, head)
  {
    forall h | h in History(g, head)
      ensures h in History(bigger, head)
    {
      var p :| PathBetween(g, head, h, p);
      assert PathBetween(bigger, head, h, p);
    }
    forall h | h in History(bigger, head)
      ensures h in History(g, head)
    {
      var p :| PathBetween(bigger, head, h, p);
      StaysInside(g, bigger, p, |p| - 1);
      assert PathBetween(g, head, h, p);
    }
  }

  lemma {:induction false} StaysInside(g: Graph, bigger: Graph, p: seq<string>, n: nat)
    requires Closed(g) && Path(bigger, p) && p[0] in g && n < |p|
    requires forall h :: h in g ==> h in bigger && bigger[h] == g[h]
    ensures forall i :: 0 <= i <= n ==> p[i] in g
  {
    if n > 0 {
      StaysInside(g, bigger, p, n - 1);
      assert p[n - 1 + 1] in bigger[p[n - 1]].parents;
    }
  }

  /** `--no-merges`. */
  ghost function NonMerges(g: Graph, s: set<string>): set<string> {
    set h | h in s && h in g && |g[h].parents| < 2
  }

  /** Where a walk starts from. */
  datatype Cursor = Everything | SinceTip(tip: string) | SinceDate(ms: int)

  /** The commits a walk from `head` covers: `HEAD`, `HEAD ^tip`, or `HEAD --since`. */
  ghost function WalkSet(g: Graph, head: string, cursor: Cursor): set<string> {
    match cursor
    case Everything => NonMerges(g, History(g, head))
    case SinceTip(tip) => NonMerges(g, History(g, head) - History(g, tip))
    case SinceDate(ms) => set h | h in NonMerges(g, History(g, head)) && g[h].committedAt >= ms
  }

  ghost function HashSet(commits: seq<Commit>): set<string> {
    set i | 0 <= i < |commits| :: commits[i].hash
  }

  ghost predicate DistinctHashes(commits: seq<Commit>) {
    forall i, j :: 0 <= i < j < |commits| ==> commits[i].hash != commits[j].hash
  }

  /** Every commit printed is the graph's own. */
  ghost predicate FromGraph(g: Graph, commits: seq<Commit>) {
    forall i :: 0 <= i < |commits| ==> commits[i].hash in g && commits[i] == g[commits[i].hash].commit
  }

  /** The output of a walk that ran to its end: each commit of the range once, over all date ranges together. */
  ghost predicate PrintsWalk(g: Graph, head: string, cursor: Cursor, runs: seq<GitRun>) {
    && FromGraph(g, Printed(runs))
    && DistinctHashes(Printed(runs))
    && HashSet(Printed(runs)) == WalkSet(g, head, cursor)
  }

  lemma {:induction false} FreshHashes(commits: seq<Commit>, recent: set<string>)
    ensures HashSet(Fresh(commits, recent)) == HashSet(commits) - recent
    ensures DistinctHashes(commits) ==> DistinctHashes(Fresh(commits, recent))
  {
    if commits != [] {
      hide HashSet, DistinctHashes;
      var front, last := commits[..|commits| - 1], commits[|commits| - 1];
      FreshHashes(front, recent);
      assert commits == front + [last];
      HashSetStep(front, last);
      HashSetStep(Fresh(front, recent), last);
      DistinctStep(front, last);
      DistinctStep(Fresh(front, recent), last);
    }
  }

  lemma HashSetStep(front: seq<Commit>, last: Commit)
    ensures HashSet(front + [last]) == HashSet(front) + {last.hash}
  {
    var all := front + [last];
    assert all[|front|] == last && forall i :: 0 <= i < |front| ==> all[i] == front[i];
  }

  lemma DistinctStep(front: seq<Commit>, last: Commit)
    ensures DistinctHashes(front + [last]) <==> DistinctHashes(front) && last.hash !in HashSet(front)
  {
    var all := front + [last];
    assert all[|front|] == last && forall i :: 0 <= i < |front| ==> all[i] == front[i];
  }

  lemma HashSetAppend(a: seq<Commit>, b: seq<Commit>)
    ensures HashSet(a + b) == HashSet(a) + HashSet(b)
  {
    var all := a + b;
    assert forall i :: 0 <= i < |a| ==> all[i] == a[i];
    assert forall i :: 0 <= i < |b| ==> all[|a| + i] == b[i];
  }

  lemma DistinctAppend(a: seq<Commit>, b: seq<Commit>)
    ensures DistinctHashes(a + b) <==> DistinctHashes(a) && DistinctHashes(b) && HashSet(a) !! HashSet(b)
  {
    var all := a + b;
    assert forall i :: 0 <= i < |a| ==> all[i] == a[i];
    assert forall i :: 0 <= i < |b| ==> all[|a| + i] == b[i];
    if DistinctHashes(all) {
      assert forall i, j :: 0 <= i < j < |a| ==> all[i].hash != all[j].hash;
      forall i, j | 0 <= i < j < |b| ensures b[i].hash != b[j].hash {
        assert all[|a| + i].hash != all[|a| + j].hash;
      }
      forall i, j | 0 <= i < |a| && 0 <= j < |b| ensures a[i].hash != b[j].hash {
        assert all[i].hash != all[|a| + j].hash;
      }
    }
    if DistinctHashes(a) && DistinctHashes(b) && HashSet(a) !! HashSet(b) {
      forall i, j | 0 <= i < j < |all|
        ensures all[i].hash != all[j].hash
      {
        if i < |a| <= j {
          assert a[i].hash in HashSet(a) && b[j - |a|].hash in HashSet(b);
        }
      }
    }
  }

  /** Two lists of the same commits, each once, are permutations of each other. */
  lemma {:induction false} SameCommitsSameBag(g: Graph, a: seq<Commit>, b: seq<Commit>)
    requires FromGraph(g, a) && FromGraph(g, b) && DistinctHashes(a) && DistinctHashes(b)
    requires HashSet(a) == HashSet(b)
    ensures multiset(a) == multiset(b)
  {
    forall c
      ensures multiset(a)[c] == multiset(b)[c]
    {
      OnceEach(a, c);
      OnceEach(b, c);
      if c in a {
        assert c.hash in HashSet(b);
        var j :| 0 <= j < |b| && b[j].hash == c.hash;
        assert b[j] == c;
      }
      if c in b {
        assert c.hash in HashSet(a);
        var j :| 0 <= j < |a| && a[j].hash == c.hash;
        assert a[j] == c;
      }
    }
  }

  lemma {:induction false} OnceEach(a: seq<Commit>, c: Commit)
    requires DistinctHashes(a)
    ensures multiset(a)[c] == if c in a then 1 else 0
  {
    if a != [] {
      var front, last := a[..|a| - 1], a[|a| - 1];
      assert a == front + [last];
      OnceEach(front, c);
      DistinctStep(front, last);
      assert forall i :: 0 <= i < |front| ==> front[i].hash in HashSet(front);
    }
  }
}
