/** Folding the commits of one repository into records, collector/git.ts `processCommitBatch` and `scanRepo`. */
module Collector {
  import opened Text
  import opened IsoWeek
  import opened WeekMask
  import opened Permutations
  import opened Measures
  import opened Columns
  import opened Records
  import opened MergeByKey
  import opened Commits
  import opened CommitCounts

  datatype RawAuthor = RawAuthor(email: string, name: string, commitCount: nat, lastDate: string)

  /** The accumulators shared by all ranges of one scan. */
  datatype Acc = Acc(records: Table, days: map<Key, set<int>>, hashes: seq<string>, authors: map<string, RawAuthor>)

  const EMPTY_ACC := Acc(map[], map[], [], map[])

  /** The commits not in the dedup window. */
  function Fresh(commits: seq<Commit>, recent: set<string>): seq<Commit> {
    if commits == [] then []
    else
      var front, last := Fresh(commits[..|commits| - 1], recent), commits[|commits| - 1];
      if last.hash in recent then front else front + [last]
  }

  /** A discovered author gains one commit; the most recent name is kept. */
  function NoteAuthor(a: RawAuthor, c: Commit): RawAuthor {
    var counted := a.(commitCount := a.commitCount + 1);
    if Less(a.lastDate, c.date) then counted.(lastDate := c.date, name := c.name) else counted
  }

  function Discover(authors: map<string, RawAuthor>, rules: Rules, c: Commit): map<string, RawAuthor> {
    var key := rules.lower(c.email);
    authors[key := if key in authors then NoteAuthor(authors[key], c) else RawAuthor(c.email, c.name, 1, c.date)]
  }

  function EmptyRow(a: Author, group: string): Row {
    Row(Identity(a.email, a.org, a.orgType, a.team, a.tag, group), NOTHING, 0)
  }

  /** Account for one commit outside the dedup window. */
  function Take(acc: Acc, rules: Rules, repo: string, group: string, c: Commit): Acc {
    var seen := acc.(hashes := acc.hashes + [c.hash], authors := Discover(acc.authors, rules, c));
    if IgnoredOnly(rules, c) then seen
    else
      var key := KeyOf(rules, repo, c);
      var row := if key in acc.records then acc.records[key] else EmptyRow(AuthorOf(rules, c), group);
      var days := if key in acc.days then acc.days[key] else {};
      seen.(
        records := acc.records[key := row.(measure := row.measure.Join(CommitMeasure(rules, c).(mask := NO_DAYS)))],
        days := acc.days[key := days + {UtcDay(rules, c)}])
  }

  function TakeAll(acc: Acc, rules: Rules, repo: string, group: string, commits: seq<Commit>): Acc {
    if commits == [] then acc
    else Take(TakeAll(acc, rules, repo, group, commits[..|commits| - 1]), rules, repo, group, commits[|commits| - 1])
  }

  lemma {:induction false} TakeAllAppend(acc: Acc, rules: Rules, repo: string, group: string, a: seq<Commit>, b: seq<Commit>)
    ensures TakeAll(acc, rules, repo, group, a + b) == TakeAll(TakeAll(acc, rules, repo, group, a), rules, repo, group, b)
  {
    if b == [] {
      assert a + b == a;
    } else {
      assert (a + b)[..|a + b| - 1] == a + b[..|b| - 1];
      TakeAllAppend(acc, rules, repo, group, a, b[..|b| - 1]);
    }
  }

  lemma {:induction false} FreshAppend(a: seq<Commit>, b: seq<Commit>, recent: set<string>)
    ensures Fresh(a + b, recent) == Fresh(a, recent) + Fresh(b, recent)
  {
    if b == [] {
      assert a + b == a;
    } else {
      assert (a + b)[..|a + b| - 1] == a + b[..|b| - 1];
      FreshAppend(a, b[..|b| - 1], recent);
    }
  }

  function IgnoredCount(rules: Rules, commits: seq<Commit>): nat {
    if commits == [] then 0
    else IgnoredCount(rules, commits[..|commits| - 1]) + if IgnoredOnly(rules, commits[|commits| - 1]) then 1 else 0
  }

  function Hashes(commits: seq<Commit>): seq<string> {
    seq(|commits|, i requires 0 <= i < |commits| => commits[i].hash)
  }

  // ---- What the accumulators hold ----

  ghost function DaysAt(acc: Acc, k: Key): set<int> {
    if k in acc.days then acc.days[k] else {}
  }

  ghost predicate FedBy(rules: Rules, commits: seq<Commit>, k: Key) {
    exists i :: 0 <= i < |commits| && Feeds(rules, commits[i], k)
  }

  lemma JoinMask0(a: Measure, b: Measure)
    ensures a.(mask := NO_DAYS).Join(b.(mask := NO_DAYS)) == a.Join(b).(mask := NO_DAYS)
  {
  }

  lemma TakeRecord(acc: Acc, rules: Rules, repo: string, group: string, c: Commit, k: Key)
    requires k.repo == repo
    ensures MeasureAt(Take(acc, rules, repo, group, c).records, k)
         == MeasureAt(acc.records, k).Join(PartOf(rules, k)(c).(mask := NO_DAYS))
  {
    hide Measure.Join, CommitMeasure, IgnoredOnly, KeyOf, Discover;
    JoinNothing(MeasureAt(acc.records, k));
    JoinNothing(CommitMeasure(rules, c).(mask := NO_DAYS));
  }

  /** Each record holds the summed measures of its commits. */
  lemma {:induction false} AccRecords(rules: Rules, repo: string, group: string, commits: seq<Commit>, k: Key)
    requires k.repo == repo
    ensures MeasureAt(TakeAll(EMPTY_ACC, rules, repo, group, commits).records, k)
         == SumOf(commits, PartOf(rules, k)).(mask := NO_DAYS)
  {
    if commits != [] {
      hide Take, Measure.Join, MeasureAt, PartOf;
      var front, c := commits[..|commits| - 1], commits[|commits| - 1];
      AccRecords(rules, repo, group, front, k);
      TakeRecord(TakeAll(EMPTY_ACC, rules, repo, group, front), rules, repo, group, c, k);
      JoinMask0(SumOf(front, PartOf(rules, k)), PartOf(rules, k)(c));
    }
  }

  lemma TakeAdds(acc: Acc, rules: Rules, repo: string, group: string, c: Commit, k: Key, col: Column)
    requires k.repo == repo
    ensures Value(MeasureAt(Take(acc, rules, repo, group, c).records, k), col)
         == Value(MeasureAt(acc.records, k), col) + Adds(rules, k, col)(c)
  {
    hide Take, MeasureAt, PartOf, Adds, Measure.Join;
    TakeRecord(acc, rules, repo, group, c, k);
    JoinAdds(MeasureAt(acc.records, k), PartOf(rules, k)(c).(mask := NO_DAYS), col);
    PartAdds(rules, c, k, col);
  }

  /** Whatever the accumulators held, a batch adds to each counter of a key the sum over the batch's commits. */
  lemma {:induction false} TakeAllAdds(acc: Acc, rules: Rules, repo: string, group: string, commits: seq<Commit>, k: Key, col: Column)
    requires k.repo == repo
    ensures Value(MeasureAt(TakeAll(acc, rules, repo, group, commits).records, k), col)
         == Value(MeasureAt(acc.records, k), col) + SumNat(commits, Adds(rules, k, col))
  {
    hide Take, MeasureAt, Value, Adds;
    if commits != [] {
      TakeAllAdds(acc, rules, repo, group, commits[..|commits| - 1], k, col);
      TakeAdds(TakeAll(acc, rules, repo, group, commits[..|commits| - 1]), rules, repo, group, commits[|commits| - 1], k, col);
    }
  }

  /** Each day set holds the UTC dates of its commits, and exactly the fed keys have a record and a day set. */
  lemma {:induction false} AccDays(rules: Rules, repo: string, group: string, commits: seq<Commit>, k: Key)
    ensures var acc := TakeAll(EMPTY_ACC, rules, repo, group, commits);
            && (k.repo == repo ==> DaysAt(acc, k) == DatesAt(rules, commits, k))
            && (k in acc.records <==> k in acc.days)
            && (k in acc.records <==> k.repo == repo && FedBy(rules, commits, k))
  {
    if commits != [] {
      var front, c := commits[..|commits| - 1], commits[|commits| - 1];
      assert commits == front + [c];
      AccDays(rules, repo, group, front, k);
      DatesAtStep(rules, front, c, k);
      FedByStep(rules, front, c, k);
      hide DatesAt, FedBy, CommitMeasure, IgnoredOnly, UtcDay, Discover;
    }
  }

  lemma FedByStep(rules: Rules, front: seq<Commit>, c: Commit, k: Key)
    ensures FedBy(rules, front + [c], k) <==> FedBy(rules, front, k) || Feeds(rules, c, k)
  {
    var all := front + [c];
    assert all[|front|] == c && forall i :: 0 <= i < |front| ==> all[i] == front[i];
  }

  function CountBy(rules: Rules, commits: seq<Commit>, author: string): nat {
    if commits == [] then 0
    else CountBy(rules, commits[..|commits| - 1], author) + if rules.lower(commits[|commits| - 1].email) == author then 1 else 0
  }

  function RawCount(authors: map<string, RawAuthor>, author: string): nat {
    if author in authors then authors[author].commitCount else 0
  }

  /** Every fresh commit is credited to its author once, ignored-only commits included, and its hash is remembered. */
  lemma {:induction false} AccAuthors(rules: Rules, repo: string, group: string, commits: seq<Commit>, author: string)
    ensures var acc := TakeAll(EMPTY_ACC, rules, repo, group, commits);
            && RawCount(acc.authors, author) == CountBy(rules, commits, author)
            && (author in acc.authors <==> CountBy(rules, commits, author) > 0)
            && (author in acc.authors ==> rules.lower(acc.authors[author].email) == author)
            && acc.hashes == Hashes(commits)
  {
    if commits != [] {
      hide Take;
      var front, c := commits[..|commits| - 1], commits[|commits| - 1];
      AccAuthors(rules, repo, group, front, author);
      TakeAuthor(TakeAll(EMPTY_ACC, rules, repo, group, front), rules, repo, group, c);
    }
  }

  lemma TakeAuthor(acc: Acc, rules: Rules, repo: string, group: string, c: Commit)
    ensures Take(acc, rules, repo, group, c).authors == Discover(acc.authors, rules, c)
    ensures Take(acc, rules, repo, group, c).hashes == acc.hashes + [c.hash]
  {
    hide IgnoredOnly, CommitMeasure, KeyOf, UtcDay, Discover, Measure.Join;
  }

  /** The commit at i is the first of an author's commits with the latest date. */
  ghost predicate Newest(rules: Rules, commits: seq<Commit>, author: string, i: nat) {
    && i < |commits| && rules.lower(commits[i].email) == author
    && (forall j :: 0 <= j < i && rules.lower(commits[j].email) == author ==> Less(commits[j].date, commits[i].date))
    && (forall j :: i < j < |commits| && rules.lower(commits[j].email) == author ==> !Less(commits[i].date, commits[j].date))
  }

  /** A discovered author carries the date and the name of the newest commit. */
  lemma {:induction false} AccNewest(rules: Rules, repo: string, group: string, commits: seq<Commit>, author: string) returns (i: nat)
    requires author in TakeAll(EMPTY_ACC, rules, repo, group, commits).authors
    ensures var a := TakeAll(EMPTY_ACC, rules, repo, group, commits).authors[author];
            i < |commits| && Newest(rules, commits, author, i) && a.lastDate == commits[i].date && a.name == commits[i].name
  {
    hide Take, Newest;
    var front, c := commits[..|commits| - 1], commits[|commits| - 1];
    var before := TakeAll(EMPTY_ACC, rules, repo, group, front);
    TakeAuthor(before, rules, repo, group, c);
    AccAuthors(rules, repo, group, front, author);
    assert commits == front + [c];
    if author in before.authors {
      i := AccNewest(rules, repo, group, front, author);
      if rules.lower(c.email) == author && Less(before.authors[author].lastDate, c.date) {
        NewestLast(rules, front, c, i);
        i := |front|;
      } else {
        NewestStays(rules, front, c, author, i);
      }
    } else {
      i := |front|;
      FirstIsNewest(rules, front, c);
    }
  }

  lemma NewestLast(rules: Rules, front: seq<Commit>, c: Commit, i: nat)
    requires Newest(rules, front, rules.lower(c.email), i) && Less(front[i].date, c.date)
    ensures Newest(rules, front + [c], rules.lower(c.email), |front|)
  {
    forall j | 0 <= j < |front| && rules.lower(front[j].email) == rules.lower(c.email)
      ensures Less(front[j].date, c.date)
    {
      LessTotal(front[i].date, front[j].date);
      if j != i && Less(front[j].date, front[i].date) { LessTransitive(front[j].date, front[i].date, c.date); }
    }
  }

  lemma NewestStays(rules: Rules, front: seq<Commit>, c: Commit, author: string, i: nat)
    requires Newest(rules, front, author, i) && (rules.lower(c.email) == author ==> !Less(front[i].date, c.date))
    ensures Newest(rules, front + [c], author, i)
  {
  }

  lemma {:induction false} FirstIsNewest(rules: Rules, front: seq<Commit>, c: Commit)
    requires CountBy(rules, front, rules.lower(c.email)) == 0
    ensures Newest(rules, front + [c], rules.lower(c.email), |front|)
  {
    forall j | 0 <= j < |front| ensures rules.lower(front[j].email) != rules.lower(c.email) {
      NotCounted(rules, front, rules.lower(c.email), j);
    }
  }

  lemma {:induction false} NotCounted(rules: Rules, commits: seq<Commit>, author: string, j: nat)
    requires CountBy(rules, commits, author) == 0 && j < |commits|
    ensures rules.lower(commits[j].email) != author
  {
    if j < |commits| - 1 { NotCounted(rules, commits[..|commits| - 1], author, j); }
  }

  // ---- The batch loop ----

  class Accumulators {
    var recordMap: Table
    var activeDays: map<Key, set<int>>
    var newHashes: seq<string>
    var rawAuthors: map<string, RawAuthor>

    constructor ()
      ensures State() == EMPTY_ACC
    {
      recordMap, activeDays, newHashes, rawAuthors := map[], map[], [], map[];
    }

    function State(): Acc
      reads this
    {
      Acc(recordMap, activeDays, newHashes, rawAuthors)
    }

    method ProcessCommitBatch(commits: seq<Commit>, rules: Rules, repo: string, group: string, recent: set<string>)
      returns (skipped: nat, ignored: nat)
      modifies this
      ensures State() == TakeAll(old(State()), rules, repo, group, Fresh(commits, recent))
      ensures skipped == |commits| - |Fresh(commits, recent)|
      ensures ignored == IgnoredCount(rules, Fresh(commits, recent))
      ensures forall k: Key, col :: k.repo == repo ==>
        Value(MeasureAt(recordMap, k), col)
        == Value(MeasureAt(old(recordMap), k), col) + SumNat(Fresh(commits, recent), Adds(rules, k, col))
    {
      hide Value, MeasureAt, Adds, SumNat, Take, IgnoredOnly, IsMeasured;
      skipped, ignored := 0, 0;
      for i := 0 to |commits|
        invariant State() == TakeAll(old(State()), rules, repo, group, Fresh(commits[..i], recent))
        invariant skipped == i - |Fresh(commits[..i], recent)|
        invariant ignored == IgnoredCount(rules, Fresh(commits[..i], recent))
      {
        var c := commits[i];
        assert commits[..i + 1][..i] == commits[..i];
        ghost var before := Fresh(commits[..i], recent);
        assert c.hash !in recent ==> Fresh(commits[..i + 1], recent) == before + [c] && (before + [c])[..|before|] == before;
        if c.hash in recent {
          skipped := skipped + 1;
        } else {
          var taken := TakeCommit(c, rules, repo, group);
          if !taken { ignored := ignored + 1; }
        }
      }
      assert commits[..|commits|] == commits;
      BatchAdds(old(State()), rules, repo, group, Fresh(commits, recent));
    }

    static lemma BatchAdds(acc: Acc, rules: Rules, repo: string, group: string, commits: seq<Commit>)
      ensures forall k: Key, col :: k.repo == repo ==>
        Value(MeasureAt(TakeAll(acc, rules, repo, group, commits).records, k), col)
        == Value(MeasureAt(acc.records, k), col) + SumNat(commits, Adds(rules, k, col))
    {
      hide TakeAll, MeasureAt, Value, Adds, SumNat;
      forall k: Key, col | k.repo == repo
        ensures Value(MeasureAt(TakeAll(acc, rules, repo, group, commits).records, k), col)
             == Value(MeasureAt(acc.records, k), col) + SumNat(commits, Adds(rules, k, col))
      {
        TakeAllAdds(acc, rules, repo, group, commits, k, col);
      }
    }

    method TakeCommit(c: Commit, rules: Rules, repo: string, group: string) returns (measured: bool)
      modifies this
      ensures State() == Take(old(State()), rules, repo, group, c)
      ensures measured == !IgnoredOnly(rules, c)
      ensures measured <==> IsMeasured(rules, c)
    {
      IgnoredOnlyExactly(rules, c);
      hide IsMeasured;
      newHashes := newHashes + [c.hash];
      rawAuthors := NoteRawAuthor(rawAuthors, rules, c);
      var countedFiles := CountedFiles(rules, c.files);
      if |c.files| > 0 && |countedFiles| == 0 {
        return false;
      }
      hide CountedFiles, Discover;
      AddMeasured(c, countedFiles, rules, repo, group);
      return true;
    }

    method AddMeasured(c: Commit, countedFiles: seq<FileChange>, rules: Rules, repo: string, group: string)
      requires !IgnoredOnly(rules, c) && countedFiles == CountedFiles(rules, c.files)
      modifies this`recordMap, this`activeDays
      ensures State() == Take(old(State()), rules, repo, group, c).(hashes := newHashes, authors := rawAuthors)
    {
      hide CommitMeasure, Measure.Join, Discover, UtcDay, AuthorOf, DateToISOWeek;
      var author := AuthorOf(rules, c);
      var day := UtcDay(rules, c);
      var key := Key(author.member, DateToISOWeek(day), repo);
      if key !in activeDays { activeDays := activeDays[key := {}]; }
      activeDays := activeDays[key := activeDays[key] + {day}];
      if key !in recordMap { recordMap := recordMap[key := EmptyRow(author, group)]; }
      var m := AddCommit(recordMap[key].measure, rules, c, countedFiles);
      recordMap := recordMap[key := recordMap[key].(measure := m)];
    }

    static method NoteRawAuthor(authors: map<string, RawAuthor>, rules: Rules, c: Commit) returns (noted: map<string, RawAuthor>)
      ensures noted == Discover(authors, rules, c)
    {
      var authorKey := rules.lower(c.email);
      if authorKey in authors {
        var existing := authors[authorKey];
        existing := existing.(commitCount := existing.commitCount + 1);
        if Less(existing.lastDate, c.date) {
          existing := existing.(lastDate := c.date, name := c.name);
        }
        return authors[authorKey := existing];
      }
      return authors[authorKey := RawAuthor(c.email, c.name, 1, c.date)];
    }

    static method AddCommit(start: Measure, rules: Rules, c: Commit, countedFiles: seq<FileChange>) returns (m: Measure)
      requires countedFiles == CountedFiles(rules, c.files)
      ensures m == start.Join(CommitMeasure(rules, c).(mask := NO_DAYS))
    {
      hide CommitMeasure, CountedFiles, FilesMeasure, Measure.Join;
      m := start;
      var parsed := rules.conventional(c.subject);
      m := m.(work := m.work.(commits := m.work.commits + 1, intents := m.work.intents.Bump(parsed.intent)));
      if parsed.breaking {
        m := m.(work := m.work.(breaking := m.work.breaking + 1));
      }
      if parsed.scope.Some? && parsed.scope.value !in m.scopes {
        m := m.(scopes := m.scopes + {parsed.scope.value});
      }
      var filetypes := AddFiles(m.work.filetypes, rules, countedFiles);
      m := m.(work := m.work.(filetypes := filetypes));
      JoinCommit(start, rules, c);
    }

    static lemma JoinCommit(start: Measure, rules: Rules, c: Commit)
      ensures var parsed := rules.conventional(c.subject);
              start.Join(CommitMeasure(rules, c).(mask := NO_DAYS)) ==
              Measure(
                Work(start.work.commits + 1, start.work.intents.Bump(parsed.intent),
                     start.work.breaking + (if parsed.breaking then 1 else 0),
                     start.work.filetypes.Plus(FilesMeasure(rules, CountedFiles(rules, c.files)))),
                start.post,
                start.scopes + (if parsed.scope.Some? then {parsed.scope.value} else {}),
                start.mask)
    {
      BumpIsPlus(start.work.intents, rules.conventional(c.subject).intent);
      hide FilesMeasure, CountedFiles, Filetypes.Plus, Intents.Plus, Intents.Bump, SingleDay, UtcDay;
      assert start.post.Plus(NO_POST) == start.post;
    }

    static method AddFiles(start: Filetypes, rules: Rules, files: seq<FileChange>) returns (filetypes: Filetypes)
      ensures filetypes == start.Plus(FilesMeasure(rules, files))
    {
      filetypes := start;
      for i := 0 to |files|
        invariant filetypes == start.Plus(FilesMeasure(rules, files[..i]))
      {
        var file := files[i];
        var category := rules.classify(file.path);
        var m := FileMetrics(1, 0, 0, 0, 0);
        if file.status == Added { m := m.(added := 1); }
        if file.status == Deleted { m := m.(deleted := 1); }
        m := m.(insertions := file.insertions, deletions := file.deletions);
        assert files[..i + 1][..i] == files[..i];
        FiletypesAdd(start, FilesMeasure(rules, files[..i]), category, m);
        filetypes := filetypes.Add(category, m);
      }
      assert files[..|files|] == files;
    }
  }

  // ---- Scanning the ranges of one repository ----

  /** `classifyGitError` on the output of a git run that printed nothing. */
  datatype Severity = Fatal | Expected | Transient

  /** One `git log` process: the commits parsed from its output and how it ended. */
  datatype GitRun = GitRun(commits: seq<Commit>, exitCode: int, severity: Severity)

  /** `streamGitLog` rejects only a failed run that printed no commit, and `scanRepo` swallows the expected errors. */
  predicate Fails(run: GitRun) {
    run.exitCode != 0 && run.commits == [] && run.severity != Expected
  }

  predicate AnyFails(runs: seq<GitRun>) {
    exists i :: 0 <= i < |runs| && Fails(runs[i])
  }

  /** All commits printed, in the order they were read. */
  function Printed(runs: seq<GitRun>): seq<Commit> {
    if runs == [] then [] else Printed(runs[..|runs| - 1]) + runs[|runs| - 1].commits
  }

  /** `hashesByRange.reverse().flat()`: ranges are walked oldest first, the hash list is newest first. */
  function NewestFirst(runs: seq<GitRun>, recent: set<string>): seq<string> {
    if runs == [] then []
    else Hashes(Fresh(runs[|runs| - 1].commits, recent)) + NewestFirst(runs[..|runs| - 1], recent)
  }

  datatype ScanResult =
    | Failed
    | Scanned(records: seq<Record>, hashes: seq<string>, tally: Tally, authors: map<string, RawAuthor>)

  /** `activeDays` and the mask, from the tracked dates. */
  ghost function Finalized(acc: Acc): Table
    requires acc.records.Keys <= acc.days.Keys
  {
    map k | k in acc.records :: FinalRow(acc.records[k], acc.days[k], MaskOf(WeekdaysOf(acc.days[k])))
  }

  /** The table of records a successful scan produces. */
  ghost function ScanTable(rules: Rules, repo: string, group: string, counted: seq<Commit>): Table {
    var acc := TakeAll(EMPTY_ACC, rules, repo, group, counted);
    assert acc.records.Keys <= acc.days.Keys by {
      forall k | k in acc.records ensures k in acc.days { AccDays(rules, repo, group, counted, k); }
    }
    Finalized(acc)
  }

  datatype Tally = Tally(commits: nat, skipped: nat, ignored: nat)

  function TallyOf(runs: seq<GitRun>, rules: Rules, recent: set<string>): Tally {
    var counted := Fresh(Printed(runs), recent);
    FreshLength(Printed(runs), recent);
    Tally(|Printed(runs)|, |Printed(runs)| - |counted|, IgnoredCount(rules, counted))
  }

  lemma {:induction false} FreshLength(commits: seq<Commit>, recent: set<string>)
    ensures |Fresh(commits, recent)| <= |commits|
  {
    if commits != [] { FreshLength(commits[..|commits| - 1], recent); }
  }

  method ScanRepo(runs: seq<GitRun>, rules: Rules, repo: string, group: string, recent: set<string>) returns (r: ScanResult)
    ensures r.Failed? <==> AnyFails(runs)
    ensures var counted := Fresh(Printed(runs), recent);
            r.Scanned? ==>
              && Lists(r.records, ScanTable(rules, repo, group, counted))
              && r.hashes == NewestFirst(runs, recent)
              && r.tally == TallyOf(runs, rules, recent)
              && r.authors == TakeAll(EMPTY_ACC, rules, repo, group, counted).authors
  {
    hide Take, TakeAll, Fresh, TallyOf, Lists, NewestFirst;
    var acc := new Accumulators();
    var ok, hashesByRange, tally := ScanRanges(acc, runs, rules, repo, group, recent);
    if !ok {
      return Failed;
    }
    var newHashes := ReverseFlat(hashesByRange, runs, recent);
    var records := Finish(acc, rules, repo, group, Fresh(Printed(runs), recent));
    return Scanned(records, newHashes, tally, acc.rawAuthors);
  }

  ghost function RangeHashes(runs: seq<GitRun>, recent: set<string>): seq<seq<string>> {
    seq(|runs|, j requires 0 <= j < |runs| => Hashes(Fresh(runs[j].commits, recent)))
  }

  ghost function Outcome(runs: seq<GitRun>, rules: Rules, repo: string, group: string, recent: set<string>): Acc {
    TakeAll(EMPTY_ACC, rules, repo, group, Fresh(Printed(runs), recent)).(hashes := [])
  }

  method ScanRanges(acc: Accumulators, runs: seq<GitRun>, rules: Rules, repo: string, group: string, recent: set<string>)
    returns (ok: bool, hashesByRange: seq<seq<string>>, tally: Tally)
    requires acc.State() == EMPTY_ACC
    modifies acc
    ensures ok <==> !AnyFails(runs)
    ensures ok ==>
      && acc.State().(hashes := []) == Outcome(runs, rules, repo, group, recent)
      && hashesByRange == RangeHashes(runs, recent)
      && tally == TallyOf(runs, rules, recent)
  {
    hide Outcome, TallyOf, RangeHashes, TakeAll, Fresh, IgnoredCount;
    ok, hashesByRange, tally := true, [], Tally(0, 0, 0);
    NothingScanned(rules, repo, group, recent);
    assert runs[..0] == [];
    for i := 0 to |runs|
      invariant !AnyFails(runs[..i])
      invariant acc.State().(hashes := []) == Outcome(runs[..i], rules, repo, group, recent)
      invariant hashesByRange == RangeHashes(runs[..i], recent)
      invariant tally == TallyOf(runs[..i], rules, recent)
    {
      var run := runs[i];
      if run.exitCode != 0 && |run.commits| == 0 && run.severity != Expected {
        ok := false;
        return;
      }
      ScanStep(runs, i, rules, repo, group, recent, acc.State());
      acc.newHashes := [];
      var s, ig := acc.ProcessCommitBatch(run.commits, rules, repo, group, recent);
      hashesByRange := hashesByRange + [acc.newHashes];
      tally := Tally(tally.commits + |run.commits|, tally.skipped + s, tally.ignored + ig);
    }
    assert runs[..|runs|] == runs;
  }

  lemma NothingScanned(rules: Rules, repo: string, group: string, recent: set<string>)
    ensures Outcome([], rules, repo, group, recent) == EMPTY_ACC
    ensures RangeHashes([], recent) == [] && TallyOf([], rules, recent) == Tally(0, 0, 0)
  {
  }

  /** Reading one more range, starting from accumulators that agree so far. */
  lemma ScanStep(runs: seq<GitRun>, i: nat, rules: Rules, repo: string, group: string, recent: set<string>, acc: Acc)
    requires i < |runs| && acc.(hashes := []) == Outcome(runs[..i], rules, repo, group, recent)
    ensures var more := Fresh(runs[i].commits, recent);
            var next := TakeAll(acc.(hashes := []), rules, repo, group, more);
            && next.(hashes := []) == Outcome(runs[..i + 1], rules, repo, group, recent)
            && RangeHashes(runs[..i + 1], recent) == RangeHashes(runs[..i], recent) + [next.hashes]
            && var t, u := TallyOf(runs[..i], rules, recent), TallyOf(runs[..i + 1], rules, recent);
               && u.commits == t.commits + |runs[i].commits|
               && u.skipped == t.skipped + |runs[i].commits| - |more|
               && u.ignored == t.ignored + IgnoredCount(rules, more)
  {
    hide Take, IgnoredOnly;
    var before, more := Fresh(Printed(runs[..i]), recent), Fresh(runs[i].commits, recent);
    assert runs[..i + 1][..i] == runs[..i];
    assert Printed(runs[..i + 1]) == Printed(runs[..i]) + runs[i].commits;
    FreshAppend(Printed(runs[..i]), runs[i].commits, recent);
    hide Fresh, Printed;
    TakeAllAppend(EMPTY_ACC, rules, repo, group, before, more);
    IgnoredAppend(rules, before, more);
    TakeAllFrom(acc.(hashes := []), TakeAll(EMPTY_ACC, rules, repo, group, before), rules, repo, group, more);
    TakeAllHashes(acc.(hashes := []), rules, repo, group, more);
    assert [] + Hashes(more) == Hashes(more);
  }

  method ReverseFlat(hashesByRange: seq<seq<string>>, ghost runs: seq<GitRun>, ghost recent: set<string>) returns (flat: seq<string>)
    requires hashesByRange == RangeHashes(runs, recent)
    ensures flat == NewestFirst(runs, recent)
  {
    flat := [];
    for i := 0 to |hashesByRange|
      invariant flat == NewestFirst(runs[..i], recent)
    {
      assert runs[..i + 1][..i] == runs[..i];
      flat := hashesByRange[i] + flat;
    }
    assert runs[..|runs|] == runs;
  }

  method Finish(acc: Accumulators, rules: Rules, repo: string, group: string, ghost accepted: seq<Commit>) returns (records: seq<Record>)
    requires acc.recordMap == TakeAll(EMPTY_ACC, rules, repo, group, accepted).records
    requires acc.activeDays == TakeAll(EMPTY_ACC, rules, repo, group, accepted).days
    ensures Lists(records, ScanTable(rules, repo, group, accepted))
  {
    assert Lists([], map[]);
    hide Take, TakeAll, Lists, ScanTable, FedBy, WeekdaysOf;
    ghost var expected := ScanTable(rules, repo, group, accepted);
    FinalKeys(rules, repo, group, accepted);
    var done: Table := map[];
    records := [];
    var rest := acc.recordMap.Keys;
    while rest != {}
      invariant rest <= expected.Keys && done.Keys == expected.Keys - rest
      invariant forall k :: k in done ==> done[k] == expected[k]
      invariant Lists(records, done)
      decreases |rest|
    {
      var k :| k in rest;
      var mask := ToActiveDayMask(acc.activeDays[k]);
      var row := FinalRow(acc.recordMap[k], acc.activeDays[k], mask);
      FinalRowExpected(rules, repo, group, accepted, k, mask);
      ListsAppend(records, done, Record(k, row));
      records, done, rest := records + [Record(k, row)], done[k := row], rest - {k};
    }
    assert done == expected;
  }

  function FinalRow(row: Row, days: set<int>, mask: Mask): Row {
    row.(activeDays := Min(|days|, 7), measure := row.measure.(mask := mask))
  }

  lemma FinalKeys(rules: Rules, repo: string, group: string, counted: seq<Commit>)
    ensures ScanTable(rules, repo, group, counted).Keys == TakeAll(EMPTY_ACC, rules, repo, group, counted).records.Keys
    ensures ScanTable(rules, repo, group, counted).Keys <= TakeAll(EMPTY_ACC, rules, repo, group, counted).days.Keys
  {
    hide TakeAll, MaskOf;
    forall k | k in ScanTable(rules, repo, group, counted)
      ensures k in TakeAll(EMPTY_ACC, rules, repo, group, counted).days
    {
      AccDays(rules, repo, group, counted, k);
    }
  }

  lemma FinalRowExpected(rules: Rules, repo: string, group: string, counted: seq<Commit>, k: Key, mask: Mask)
    requires var acc := TakeAll(EMPTY_ACC, rules, repo, group, counted);
             k in acc.records && k in acc.days && mask.Days() == WeekdaysOf(acc.days[k])
    ensures var acc := TakeAll(EMPTY_ACC, rules, repo, group, counted);
            && k in ScanTable(rules, repo, group, counted)
            && ScanTable(rules, repo, group, counted)[k] == FinalRow(acc.records[k], acc.days[k], mask)
  {
    hide TakeAll;
    MaskFromDays(mask, MaskOf(WeekdaysOf(TakeAll(EMPTY_ACC, rules, repo, group, counted).days[k])));
  }

  lemma ListsAppend(rs: seq<Record>, t: Table, r: Record)
    requires Lists(rs, t) && r.key !in t
    ensures Lists(rs + [r], t[r.key := r.row])
  {
    assert (rs + [r])[..|rs|] == rs;
    forall i | 0 <= i < |rs| ensures rs[i].key != r.key { ListedKey(rs, i); }
  }

  lemma {:induction false} ListedKey(rs: seq<Record>, i: nat)
    requires i < |rs|
    ensures rs[i].key in ByKey(rs)
  {
    if i < |rs| - 1 { ListedKey(rs[..|rs| - 1], i); }
  }

  lemma {:induction false} IgnoredAppend(rules: Rules, a: seq<Commit>, b: seq<Commit>)
    ensures IgnoredCount(rules, a + b) == IgnoredCount(rules, a) + IgnoredCount(rules, b)
  {
    if b == [] {
      assert a + b == a;
    } else {
      assert (a + b)[..|a + b| - 1] == a + b[..|b| - 1];
      IgnoredAppend(rules, a, b[..|b| - 1]);
    }
  }

  /** The hash list does not influence the other accumulators. */
  lemma {:induction false} TakeAllFrom(a: Acc, b: Acc, rules: Rules, repo: string, group: string, commits: seq<Commit>)
    requires a.(hashes := []) == b.(hashes := [])
    ensures TakeAll(a, rules, repo, group, commits).(hashes := []) == TakeAll(b, rules, repo, group, commits).(hashes := [])
  {
    if commits != [] {
      TakeAllFrom(a, b, rules, repo, group, commits[..|commits| - 1]);
    }
  }

  lemma {:induction false} TakeAllHashes(acc: Acc, rules: Rules, repo: string, group: string, commits: seq<Commit>)
    ensures TakeAll(acc, rules, repo, group, commits).hashes == acc.hashes + Hashes(commits)
  {
    hide Take;
    if commits == [] {
      assert acc.hashes + Hashes(commits) == acc.hashes;
    } else {
      var front, c := commits[..|commits| - 1], commits[|commits| - 1];
      TakeAllHashes(acc, rules, repo, group, front);
      TakeAuthor(TakeAll(acc, rules, repo, group, front), rules, repo, group, c);
      assert Hashes(commits) == Hashes(front) + [c.hash];
      hide Hashes;
    }
  }
}
