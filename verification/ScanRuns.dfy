/**
 * Scanning as a state machine over the three tables: what one visit of `scanAllRepos` to a repo does to
 * them, and what every run of visits keeps. The ghost part of a world lists, per repo, the commits
 * counted since the repo's records were last cleared.
 */
module ScanRuns {
  import opened Text
  import opened MapSums
  import opened WeekMask
  import opened Measures
  import opened Records
  import opened MergeByKey
  import opened Commits
  import opened Collector
  import opened AuthorRegistry
  import opened ScanState

  datatype Tables = Tables(records: Table, scan: map<string, RepoState>, authors: Registry)

  const EMPTY_TABLES := Tables(map[], map[], map[])

  /** What the outside world answers while one repo is visited. */
  datatype Visit = Visit(
    repo: string, group: string, pathExists: bool, now: int, finished: int,
    head: Option<string>, tipIsAncestor: bool, runs: seq<GitRun>,
    extra: seq<Record>, prHashes: seq<string>, prTip: Option<string>)

  function Find<T>(m: map<string, T>, k: string): Option<T> {
    if k in m then Some(m[k]) else None
  }

  function GetOr<T>(o: Option<T>, default: T): T {
    if o.Some? then o.value else default
  }

  predicate Skips(force: bool, staleness: int, state: Option<RepoState>, v: Visit) {
    (!force && !IsStale(state, staleness, v.now)) || !v.pathExists
  }

  /** `onRepoReset`: records and cursor gone, author shares given back. */
  function Reset(t: Tables, repo: string): Tables {
    Tables(map k | k in t.records && k.repo != repo :: t.records[k], t.scan - {repo}, Subtracted(t.authors, repo))
  }

  function NextState(force: bool, state: Option<RepoState>, v: Visit, hashes: seq<string>, records: nat): RepoState {
    var recentHashes := if state.Some? then state.value.recentHashes else [];
    var recentPrHashes := if state.Some? then state.value.recentPrHashes else [];
    var lastTip := if state.Some? then state.value.lastTip else None;
    var lastPrTip := if state.Some? then state.value.lastPrTip else None;
    RepoState(
      GetOr(v.head, if hashes != [] then hashes[0] else if state.Some? then state.value.lastHash else ""),
      v.finished,
      if force then Slice(hashes, MAX_RECENT_HASHES) else RotateHashes(recentHashes, hashes),
      (if force || state.None? then 0 else state.value.recordCount) + records,
      if force then Slice(v.prHashes, MAX_RECENT_HASHES) else RotateHashes(recentPrHashes, v.prHashes),
      AuthorRegistry.Or(v.head, lastTip),
      AuthorRegistry.Or(v.prTip, lastPrTip))
  }

  /** The commits a visit counts. */
  function Counts(force: bool, state: Option<RepoState>, v: Visit): seq<Commit> {
    Fresh(Printed(v.runs), RecentSet(force, state))
  }

  /** A visit whose git runs all succeeded. `state` is the scan state read before any reset. */
  ghost function Completed(rules: Rules, t: Tables, force: bool, state: Option<RepoState>, v: Visit): Tables {
    var counted := Counts(force, state, v);
    var scanned := ScanTable(rules, v.repo, v.group, counted);
    Tables(
      Overlay(t.records, FileExtras(scanned, v.extra)),
      t.scan[v.repo := NextState(force, state, v, NewestFirst(v.runs, RecentSet(force, state)), |scanned|)],
      Merged(t.authors, rules, v.repo, TakeAll(EMPTY_ACC, rules, v.repo, v.group, counted).authors))
  }

  ghost function Visited(rules: Rules, staleness: int, t: Tables, force: bool, state: Option<RepoState>, v: Visit): Tables {
    if Skips(force, staleness, state, v) then t
    else
      var base := if force then Reset(t, v.repo) else t;
      if AnyFails(v.runs) then base else Completed(rules, base, force, state, v)
  }

  // ---- Worlds ----

  datatype World = World(tables: Tables, counted: map<string, seq<Commit>>)

  datatype Event = Event(force: bool, visit: Visit)

  const EMPTY_WORLD := World(EMPTY_TABLES, map[])

  function Counted(w: World, repo: string): seq<Commit> {
    if repo in w.counted then w.counted[repo] else []
  }

  function StateOf(w: World, repo: string): Option<RepoState> {
    Find(w.tables.scan, repo)
  }

  ghost function Next(rules: Rules, staleness: int, w: World, e: Event): World {
    var v, state := e.visit, StateOf(w, e.visit.repo);
    World(
      Visited(rules, staleness, w.tables, e.force, state, v),
      if Skips(e.force, staleness, state, v) then w.counted
      else
        var kept := if e.force then [] else Counted(w, v.repo);
        w.counted[v.repo := if AnyFails(v.runs) then kept else kept + Counts(e.force, state, v)])
  }

  ghost function Run(rules: Rules, staleness: int, es: seq<Event>): World {
    if es == [] then EMPTY_WORLD else Next(rules, staleness, Run(rules, staleness, es[..|es| - 1]), es[|es| - 1])
  }

  ghost predicate Completes(staleness: int, w: World, e: Event) {
    !Skips(e.force, staleness, StateOf(w, e.visit.repo), e.visit) && !AnyFails(e.visit.runs)
  }

  /** A failed ordinary visit and a skipped one leave every table as it was. */
  lemma FailedVisitStutters(rules: Rules, staleness: int, w: World, e: Event)
    requires !e.force && !Completes(staleness, w, e)
    ensures Next(rules, staleness, w, e).tables == w.tables
    ensures forall r :: Counted(Next(rules, staleness, w, e), r) == Counted(w, r)
  {
  }

  // ---- Records agree with the counted commits ----

  ghost function CommitColumns(m: Measure): Measure {
    m.(post := NO_POST)
  }

  ghost predicate RecordAgrees(rules: Rules, w: World, k: Key) {
    && CommitColumns(MeasureAt(w.tables.records, k)) == SumOf(Counted(w, k.repo), PartOf(rules, k))
    && MaskedAt(w.tables.records, k)
  }

  /** A scan's table holds, per key, the sum of its commits, with the day count of the mask. */
  lemma ScanTableAgrees(rules: Rules, repo: string, group: string, counted: seq<Commit>, k: Key)
    ensures var t := ScanTable(rules, repo, group, counted);
            && (k.repo == repo ==> MeasureAt(t, k) == SumOf(counted, PartOf(rules, k)))
            && (k.repo != repo ==> k !in t)
            && (k in t ==> t[k].Masked() && t[k].measure.post == NO_POST && t[k].activeDays == |DatesAt(rules, counted, k)|)
  {
    hide TakeAll, PartOf, Mask.Popcount;
    FinalKeys(rules, repo, group, counted);
    AccDays(rules, repo, group, counted, k);
    SumHasNoPost(rules, counted, k);
    if k.repo == repo {
      AccRecords(rules, repo, group, counted, k);
      SumMask(rules, counted, k);
      PopcountIsDates(rules, counted, k);
      MaskFromDays(SumOf(counted, PartOf(rules, k)).mask, MaskOf(WeekdaysOf(DatesAt(rules, counted, k))));
      if k !in TakeAll(EMPTY_ACC, rules, repo, group, counted).records {
        NotFedNothing(rules, counted, k);
      }
    }
  }

  lemma {:induction false} SumHasNoPost(rules: Rules, counted: seq<Commit>, k: Key)
    ensures SumOf(counted, PartOf(rules, k)).post == NO_POST
  {
    hide Work.Plus, Post.Plus, Mask.Or, NO_POST, PartOf, Measure.Join;
    if counted == [] {
      NothingHasNoPost();
    } else {
      SumHasNoPost(rules, counted[..|counted| - 1], k);
      PartHasNoPost(rules, counted[|counted| - 1], k);
      JoinHasNoPost(SumOf(counted[..|counted| - 1], PartOf(rules, k)), PartOf(rules, k)(counted[|counted| - 1]));
    }
  }

  lemma NothingHasNoPost()
    ensures NOTHING.post == NO_POST
  {
  }

  lemma PartHasNoPost(rules: Rules, c: Commit, k: Key)
    ensures PartOf(rules, k)(c).post == NO_POST
  {
    hide Feeds, SingleDay, UtcDay, CountedFiles, FilesMeasure;
  }

  lemma JoinHasNoPost(a: Measure, b: Measure)
    requires a.post == NO_POST && b.post == NO_POST
    ensures a.Join(b).post == NO_POST
  {
    hide Work.Plus, Post.Plus, Mask.Or, NO_POST;
    NoPostPlus();
  }

  lemma {:induction false} NotFedNothing(rules: Rules, counted: seq<Commit>, k: Key)
    requires !FedBy(rules, counted, k)
    ensures SumOf(counted, PartOf(rules, k)) == NOTHING
  {
    hide Feeds, CommitMeasure, Measure.Join;
    if counted != [] {
      var front := counted[..|counted| - 1];
      assert forall i :: 0 <= i < |front| ==> front[i] == counted[i];
      NotFedNothing(rules, front, k);
      assert !Feeds(rules, counted[|counted| - 1], k);
      JoinNothing(NOTHING);
    }
  }

  lemma OverlayMeasure(t: Table, m: Table, k: Key)
    ensures MeasureAt(Overlay(t, m), k) == MeasureAt(t, k).Join(MeasureAt(m, k))
  {
    JoinNothing(MeasureAt(t, k));
    JoinNothing(MeasureAt(m, k));
    hide Measure.Join, MergeActiveDays;
  }

  ghost predicate MaskedAt(t: Table, k: Key) {
    k in t ==> t[k].Masked()
  }

  lemma OverlayMasked(t: Table, m: Table, k: Key)
    requires MaskedAt(t, k) && MaskedAt(m, k)
    ensures MaskedAt(Overlay(t, m), k)
  {
    hide Merge;
    if k in t && k in m { MergeKeepsMask(t[k], m[k]); }
  }

  lemma FileExtraKeeps(m: Table, e: Record, k: Key)
    requires PostOnly(e.row)
    ensures CommitColumns(MeasureAt(FileExtra(m, e), k)) == CommitColumns(MeasureAt(m, k))
    ensures MaskedAt(m, k) ==> MaskedAt(FileExtra(m, e), k)
  {
    hide Post.Plus;
  }

  /** Post-pass records leave the commit columns and the day counts alone. */
  lemma {:induction false} ExtrasKeepCommitColumns(m: Table, extra: seq<Record>, k: Key)
    requires forall i :: 0 <= i < |extra| ==> PostOnly(extra[i].row)
    ensures CommitColumns(MeasureAt(FileExtras(m, extra), k)) == CommitColumns(MeasureAt(m, k))
    ensures MaskedAt(m, k) ==> MaskedAt(FileExtras(m, extra), k)
  {
    hide FileExtra, CommitColumns, MeasureAt, MaskedAt;
    if extra != [] {
      var front := extra[..|extra| - 1];
      ExtrasKeepCommitColumns(m, front, k);
      FileExtraKeeps(FileExtras(m, front), extra[|extra| - 1], k);
    }
  }

  lemma CommitColumnsJoin(a: Measure, b: Measure)
    ensures CommitColumns(a.Join(b)) == CommitColumns(a).Join(CommitColumns(b))
  {
    NoPostPlus();
    hide Work.Plus, Post.Plus, Mask.Or, NO_POST;
  }

  ghost predicate PostPassOnly(e: Event) {
    forall i :: 0 <= i < |e.visit.extra| ==> PostOnly(e.visit.extra[i].row)
  }

  lemma CompletedRecord(rules: Rules, t: Tables, force: bool, state: Option<RepoState>, v: Visit, k: Key)
    requires PostPassOnly(Event(force, v)) && MaskedAt(t.records, k)
    ensures var after, counted := Completed(rules, t, force, state, v).records, Counts(force, state, v);
            && (k.repo == v.repo ==>
                 CommitColumns(MeasureAt(after, k)) == CommitColumns(MeasureAt(t.records, k)).Join(SumOf(counted, PartOf(rules, k))))
            && (k.repo != v.repo ==> CommitColumns(MeasureAt(after, k)) == CommitColumns(MeasureAt(t.records, k)))
            && MaskedAt(after, k)
  {
    var counted := Counts(force, state, v);
    var scanned := ScanTable(rules, v.repo, v.group, counted);
    ScanTableAgrees(rules, v.repo, v.group, counted, k);
    hide Measure.Join, ScanTable, Overlay, FileExtras, Row.Masked, PartOf, Counts, NextState, Merged, TakeAll;
    ExtrasKeepCommitColumns(scanned, v.extra, k);
    var filed := FileExtras(scanned, v.extra);
    OverlayMeasure(t.records, filed, k);
    OverlayMasked(t.records, filed, k);
    CommitColumnsJoin(MeasureAt(t.records, k), MeasureAt(filed, k));
    JoinNothing(CommitColumns(MeasureAt(t.records, k)));
  }

  lemma NextRecordAgrees(rules: Rules, staleness: int, w: World, e: Event, k: Key)
    requires PostPassOnly(e) && RecordAgrees(rules, w, k)
    ensures RecordAgrees(rules, Next(rules, staleness, w, e), k)
  {
    hide Measure.Join, ScanTable, Overlay, FileExtras, Row.Masked, PartOf, Subtracted, Completed, Counts, Skips;
    var v, state := e.visit, StateOf(w, e.visit.repo);
    if !Skips(e.force, staleness, state, v) && !AnyFails(v.runs) {
      var base := if e.force then Reset(w.tables, v.repo) else w.tables;
      CompletedRecord(rules, base, e.force, state, v, k);
      if k.repo == v.repo {
        SumOfAppend(if e.force then [] else Counted(w, v.repo), Counts(e.force, state, v), PartOf(rules, k));
      }
    }
  }

  /** In every reachable state each record is the fold of the commits counted for its repo. */
  lemma {:induction false} RecordsAgree(rules: Rules, staleness: int, es: seq<Event>, k: Key)
    requires forall i :: 0 <= i < |es| ==> PostPassOnly(es[i])
    ensures RecordAgrees(rules, Run(rules, staleness, es), k)
  {
    if es != [] {
      RecordsAgree(rules, staleness, es[..|es| - 1], k);
      NextRecordAgrees(rules, staleness, Run(rules, staleness, es[..|es| - 1]), es[|es| - 1], k);
    }
  }

  /** Active days in the store are distinct UTC dates over all merged batches. */
  lemma ActiveDaysAreDates(rules: Rules, staleness: int, es: seq<Event>, k: Key)
    requires forall i :: 0 <= i < |es| ==> PostPassOnly(es[i])
    requires k in Run(rules, staleness, es).tables.records
    ensures var w := Run(rules, staleness, es);
            w.tables.records[k].activeDays == |DatesAt(rules, Counted(w, k.repo), k)| == w.tables.records[k].measure.mask.Popcount()
  {
    var w := Run(rules, staleness, es);
    RecordsAgree(rules, staleness, es, k);
    hide Run, DatesAt, PartOf, Mask.Popcount;
    PopcountIsDates(rules, Counted(w, k.repo), k);
  }

  // ---- Author shares agree with the counted commits ----

  ghost function ShareIn(reg: Registry, author: string, repo: string): nat {
    if author in reg then Share(reg[author], repo) else 0
  }

  ghost predicate AuthorAgrees(rules: Rules, w: World, author: string, repo: string) {
    && ShareIn(w.tables.authors, author, repo) == CountBy(rules, Counted(w, repo), author)
    && BalancedAt(w.tables.authors, author)
  }

  ghost predicate BalancedAt(reg: Registry, author: string) {
    author in reg ==> Balanced(reg[author])
  }

  lemma {:induction false} CountByAppend(rules: Rules, a: seq<Commit>, b: seq<Commit>, author: string)
    ensures CountBy(rules, a + b, author) == CountBy(rules, a, author) + CountBy(rules, b, author)
  {
    if b == [] {
      assert a + b == a;
    } else {
      assert (a + b)[..|a + b| - 1] == a + b[..|b| - 1];
      CountByAppend(rules, a, b[..|b| - 1], author);
    }
  }

  lemma SubtractedShares(reg: Registry, repo: string, author: string, other: string)
    requires BalancedAt(reg, author)
    ensures BalancedAt(Subtracted(reg, repo), author)
    ensures ShareIn(Subtracted(reg, repo), author, other) == if other == repo then 0 else ShareIn(reg, author, other)
  {
    hide Balanced, Share, WithoutShare;
    if author in reg { WithoutShareBalances(reg[author], repo, other); }
  }

  lemma MergedShares(rules: Rules, reg: Registry, repo: string, raw: map<string, RawAuthor>, author: string, other: string)
    requires BalancedAt(reg, author)
    ensures BalancedAt(Merged(reg, rules, repo, raw), author)
    ensures ShareIn(Merged(reg, rules, repo, raw), author, other)
         == ShareIn(reg, author, other) + if other == repo then RawCount(raw, author) else 0
  {
    hide Balanced, Share, SeenAgain, NewAuthor;
    if author in raw {
      if author in reg { SeenAgainBalances(reg[author], rules, repo, raw[author], other); }
      NewAuthorBalances(rules, repo, raw[author], other);
    }
  }

  lemma NextAuthorAgrees(rules: Rules, staleness: int, w: World, e: Event, author: string, repo: string)
    requires AuthorAgrees(rules, w, author, repo)
    ensures AuthorAgrees(rules, Next(rules, staleness, w, e), author, repo)
  {
    hide Balanced, Share, ScanTable, Overlay, FileExtras, Subtracted, Merged, NextState, TakeAll, Counts, Skips;
    var v, state := e.visit, StateOf(w, e.visit.repo);
    if !Skips(e.force, staleness, state, v) {
      if e.force { SubtractedShares(w.tables.authors, v.repo, author, repo); }
      if !AnyFails(v.runs) {
        var reg := if e.force then Subtracted(w.tables.authors, v.repo) else w.tables.authors;
        var counted := Counts(e.force, state, v);
        MergedShares(rules, reg, v.repo, TakeAll(EMPTY_ACC, rules, v.repo, v.group, counted).authors, author, repo);
        AccAuthors(rules, v.repo, v.group, counted, author);
        CountByAppend(rules, if e.force then [] else Counted(w, v.repo), counted, author);
      }
    }
  }

  /** In every reachable state each author's share of a repo is the number of that repo's counted commits they wrote. */
  lemma {:induction false} AuthorsAgree(rules: Rules, staleness: int, es: seq<Event>, author: string, repo: string)
    ensures AuthorAgrees(rules, Run(rules, staleness, es), author, repo)
  {
    if es != [] {
      AuthorsAgree(rules, staleness, es[..|es| - 1], author, repo);
      NextAuthorAgrees(rules, staleness, Run(rules, staleness, es[..|es| - 1]), es[|es| - 1], author, repo);
    }
  }

  // ---- The three tables together ----

  ghost function InRepo(repo: string): Key -> bool {
    (k: Key) => k.repo == repo
  }

  /** What a commit adds to its repo as a whole. */
  ghost function Measured(rules: Rules): Commit -> Measure {
    (c: Commit) => if IgnoredOnly(rules, c) then NOTHING else CommitMeasure(rules, c)
  }

  ghost function ShareMap(reg: Registry, repo: string): map<string, nat> {
    map a | a in reg :: Share(reg[a], repo)
  }

  ghost predicate Tallies(rules: Rules, m: map<string, nat>, commits: seq<Commit>) {
    forall a :: (a in m ==> m[a] == CountBy(rules, commits, a)) && (a !in m ==> CountBy(rules, commits, a) == 0)
  }

  lemma {:induction false} TallySum(rules: Rules, m: map<string, nat>, commits: seq<Commit>)
    requires Tallies(rules, m, commits)
    ensures SumValues(m) == |commits|
    decreases |commits|
  {
    if commits == [] {
      ZeroSum(m);
    } else {
      var front, a := commits[..|commits| - 1], rules.lower(commits[|commits| - 1].email);
      assert CountBy(rules, commits, a) > 0;
      TallySum(rules, m[a := m[a] - 1], front);
      SumWrite(m, a, m[a] - 1);
    }
  }

  ghost predicate FoldsTo(rules: Rules, t: Table, repo: string, commits: seq<Commit>) {
    forall k: Key :: k.repo == repo ==> MeasureAt(t, k) == SumOf(commits, PartOf(rules, k))
  }

  lemma {:induction false} NothingTotal(t: Table, sel: Key -> bool)
    requires forall k :: k in t && sel(k) ==> t[k].measure == NOTHING
    ensures Total(t, sel) == NOTHING
    decreases |t|
  {
    hide Measure.Join;
    JoinNothing(NOTHING);
    if t != map[] {
      NothingTotal(t - {PickKey(t)}, sel);
    }
  }

  /** Summing a repo's rows is summing its commits. */
  lemma {:induction false} FoldTotal(rules: Rules, t: Table, repo: string, commits: seq<Commit>)
    requires FoldsTo(rules, t, repo, commits)
    ensures Total(t, InRepo(repo)) == SumOf(commits, Measured(rules))
    decreases |commits|
  {
    hide Measure.Join, CommitMeasure, IgnoredOnly, AuthorOf, UtcDay;
    if commits == [] {
      assert forall k :: k in t && InRepo(repo)(k) ==> t[k].measure == MeasureAt(t, k);
      NothingTotal(t, InRepo(repo));
    } else {
      var front, c := commits[..|commits| - 1], commits[|commits| - 1];
      var k := KeyOf(rules, repo, c);
      if IgnoredOnly(rules, c) {
        OthersUntouched(rules, t, repo, commits, k);
        FoldTotal(rules, t, repo, front);
        JoinNothing(SumOf(front, Measured(rules)));
      } else {
        KeyHasRow(rules, t, repo, commits);
        var before := t[k := t[k].(measure := SumOf(front, PartOf(rules, k)))];
        OthersUntouched(rules, t, repo, commits, k);
        FoldTotal(rules, before, repo, front);
        assert MeasureAt(t, k) == SumOf(front, PartOf(rules, k)).Join(CommitMeasure(rules, c));
        TotalWrite(before, InRepo(repo), k, t[k], CommitMeasure(rules, c));
        assert before[k := t[k]] == t;
      }
    }
  }

  lemma OthersUntouched(rules: Rules, t: Table, repo: string, commits: seq<Commit>, key: Key)
    requires FoldsTo(rules, t, repo, commits) && commits != [] && key == KeyOf(rules, repo, commits[|commits| - 1])
    ensures forall k: Key :: k.repo == repo && (k != key || IgnoredOnly(rules, commits[|commits| - 1]))
              ==> MeasureAt(t, k) == SumOf(commits[..|commits| - 1], PartOf(rules, k))
  {
    hide Measure.Join, CommitMeasure, IgnoredOnly, KeyOf;
    forall k: Key | k.repo == repo && (k != key || IgnoredOnly(rules, commits[|commits| - 1]))
      ensures MeasureAt(t, k) == SumOf(commits[..|commits| - 1], PartOf(rules, k))
    {
      JoinNothing(SumOf(commits[..|commits| - 1], PartOf(rules, k)));
    }
  }

  lemma KeyHasRow(rules: Rules, t: Table, repo: string, commits: seq<Commit>)
    requires FoldsTo(rules, t, repo, commits) && commits != [] && !IgnoredOnly(rules, commits[|commits| - 1])
    ensures KeyOf(rules, repo, commits[|commits| - 1]) in t
  {
    var front, c := commits[..|commits| - 1], commits[|commits| - 1];
    var k := KeyOf(rules, repo, c);
    assert MeasureAt(t, k) == SumOf(front, PartOf(rules, k)).Join(PartOf(rules, k)(c));
    assert MeasureAt(t, k).work.commits >= 1;
  }

  ghost function Stripped(t: Table): Table {
    map k | k in t :: t[k].(measure := CommitColumns(t[k].measure))
  }

  lemma {:induction false} StrippedTotal(t: Table, sel: Key -> bool)
    ensures Total(Stripped(t), sel) == CommitColumns(Total(t, sel))
    decreases |t|
  {
    hide Measure.Join, CommitColumns;
    NothingStripped();
    if t == map[] {
      assert Stripped(t) == map[];
    } else {
      var k := PickKey(t);
      StrippedTotal(t - {k}, sel);
      TotalWithout(Stripped(t), sel, k);
      assert Stripped(t) - {k} == Stripped(t - {k});
      CommitColumnsJoin(Total(t - {k}, sel), Part(t, sel, k));
    }
  }

  lemma NothingStripped()
    ensures CommitColumns(NOTHING) == NOTHING
  {
  }

  lemma {:induction false} MeasuredCommits(rules: Rules, commits: seq<Commit>)
    ensures SumOf(commits, Measured(rules)).work.commits + IgnoredCount(rules, commits) == |commits|
  {
    if commits != [] {
      MeasuredCommits(rules, commits[..|commits| - 1]);
      hide IgnoredOnly, FilesMeasure, CountedFiles, SingleDay;
    }
  }

  /**
   * From an empty store, under any mix of completed, failed, skipped, ordinary and forced visits: a repo's
   * summed record commits plus its ignored-only commits, its summed author shares and its counted commits
   * are the same number, its summed records are the sum of those commits, and every author's commit
   * count is the sum of their shares.
   */
  lemma ThreeTablesAgree(rules: Rules, staleness: int, es: seq<Event>, repo: string)
    requires forall i :: 0 <= i < |es| ==> PostPassOnly(es[i])
    ensures var w := Run(rules, staleness, es);
            && CommitColumns(Total(w.tables.records, InRepo(repo))) == SumOf(Counted(w, repo), Measured(rules))
            && Total(w.tables.records, InRepo(repo)).work.commits + IgnoredCount(rules, Counted(w, repo)) == |Counted(w, repo)|
            && SumValues(ShareMap(w.tables.authors, repo)) == |Counted(w, repo)|
            && (forall a :: a in w.tables.authors ==> Balanced(w.tables.authors[a]))
  {
    hide Measure.Join, PartOf, Run, Balanced, Share;
    var w := Run(rules, staleness, es);
    forall k: Key | k.repo == repo
      ensures MeasureAt(Stripped(w.tables.records), k) == SumOf(Counted(w, repo), PartOf(rules, k))
    {
      RecordsAgree(rules, staleness, es, k);
      NothingStripped();
    }
    FoldTotal(rules, Stripped(w.tables.records), repo, Counted(w, repo));
    StrippedTotal(w.tables.records, InRepo(repo));
    MeasuredCommits(rules, Counted(w, repo));
    var reg := w.tables.authors;
    forall a
      ensures ShareIn(reg, a, repo) == CountBy(rules, Counted(w, repo), a)
      ensures a in reg ==> Balanced(reg[a])
    {
      AuthorsAgree(rules, staleness, es, a, repo);
    }
    assert Tallies(rules, ShareMap(reg, repo), Counted(w, repo)) by {
      forall a
        ensures a in reg ==> ShareMap(reg, repo)[a] == CountBy(rules, Counted(w, repo), a)
        ensures a !in reg ==> CountBy(rules, Counted(w, repo), a) == 0
      {
        assert ShareIn(reg, a, repo) == CountBy(rules, Counted(w, repo), a);
      }
    }
    TallySum(rules, ShareMap(reg, repo), Counted(w, repo));
  }
}
