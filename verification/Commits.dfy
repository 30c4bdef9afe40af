/** Parsed commits and what one commit adds to a record, collector/git.ts `processCommitBatch`. */
module Commits {
  import opened Text
  import opened Calendar
  import opened IsoWeek
  import opened WeekMask
  import opened Measures
  import opened Records

  datatype FileStatus = Added | Modified | Deleted | RenamedFile | Copied | TypeChanged | Unknown

  datatype FileChange = FileChange(insertions: nat, deletions: nat, path: string, status: FileStatus)

  datatype Commit = Commit(hash: string, email: string, name: string, date: string, subject: string, files: seq<FileChange>)

  datatype Author = Author(member: string, email: string, org: string, orgType: string, team: string, tag: string)

  datatype Conventional = Conventional(intent: Intent, scope: Option<string>, breaking: bool)

  /** The regex- and configuration-driven functions the collector is handed; git stores no instant before 1970. */
  datatype Rules = Rules(
    conventional: string -> Conventional,
    instant: string -> nat,
    ignored: string -> bool,
    classify: string -> Category,
    resolve: (string, string) -> Option<Author>,
    lower: string -> string,
    identifier: string -> Option<string>)

  function CountedFiles(rules: Rules, files: seq<FileChange>): seq<FileChange> {
    if files == [] then []
    else
      var front, last := CountedFiles(rules, files[..|files| - 1]), files[|files| - 1];
      if rules.ignored(last.path) then front else front + [last]
  }

  /** Every file of the commit is ignored: remembered for dedup, otherwise not measured. */
  predicate IgnoredOnly(rules: Rules, c: Commit) {
    c.files != [] && CountedFiles(rules, c.files) == []
  }

  function UtcDay(rules: Rules, c: Commit): int {
    DayOf(rules.instant(c.date))
  }

  /** The configured author, or the fallback `unassignedAuthor`. */
  function AuthorOf(rules: Rules, c: Commit): Author {
    match rules.resolve(c.email, c.name)
    case Some(a) => a
    case None => Author(c.name, c.email, "unassigned", "core", "unassigned", "default")
  }

  function KeyOf(rules: Rules, repo: string, c: Commit): Key {
    Key(AuthorOf(rules, c).member, DateToISOWeek(UtcDay(rules, c)), repo)
  }

  function FileMeasure(f: FileChange): FileMetrics {
    FileMetrics(1, if f.status == Added then 1 else 0, if f.status == Deleted then 1 else 0, f.insertions, f.deletions)
  }

  function FilesMeasure(rules: Rules, files: seq<FileChange>): Filetypes {
    if files == [] then NO_FILETYPES
    else
      var last := files[|files| - 1];
      FilesMeasure(rules, files[..|files| - 1]).Add(rules.classify(last.path), FileMeasure(last))
  }

  /** What one measured commit adds to the record of its key. */
  function CommitMeasure(rules: Rules, c: Commit): Measure {
    var parsed := rules.conventional(c.subject);
    Measure(
      Work(1, NO_INTENTS.Bump(parsed.intent), if parsed.breaking then 1 else 0,
           FilesMeasure(rules, CountedFiles(rules, c.files))),
      NO_POST,
      if parsed.scope.Some? then {parsed.scope.value} else {},
      SingleDay(WeekdayIndex(UtcDay(rules, c))))
  }

  ghost predicate Feeds(rules: Rules, c: Commit, k: Key) {
    !IgnoredOnly(rules, c) && KeyOf(rules, k.repo, c) == k
  }

  /** The part of a commit that belongs to key `k`. */
  ghost function PartOf(rules: Rules, k: Key): Commit -> Measure {
    (c: Commit) => if Feeds(rules, c, k) then CommitMeasure(rules, c) else NOTHING
  }

  /** The UTC dates on which the commits of key `k` were authored. */
  ghost function DatesAt(rules: Rules, commits: seq<Commit>, k: Key): set<int> {
    set i | 0 <= i < |commits| && Feeds(rules, commits[i], k) :: UtcDay(rules, commits[i])
  }

  lemma DatesAtStep(rules: Rules, front: seq<Commit>, c: Commit, k: Key)
    ensures DatesAt(rules, front + [c], k) == DatesAt(rules, front, k) + if Feeds(rules, c, k) then {UtcDay(rules, c)} else {}
  {
    var all := front + [c];
    assert all[|front|] == c && forall i :: 0 <= i < |front| ==> all[i] == front[i];
  }

  lemma PartMask(rules: Rules, c: Commit, k: Key)
    ensures PartOf(rules, k)(c).mask.Days() == WeekdaysOf(if Feeds(rules, c, k) then {UtcDay(rules, c)} else {})
  {
    hide Feeds, UtcDay, FilesMeasure, WeekdayIndex;
  }

  lemma WeekdaysUnion(a: set<int>, b: set<int>)
    ensures WeekdaysOf(a + b) == WeekdaysOf(a) + WeekdaysOf(b)
  {
  }

  /** The mask of the summed measures is the set of weekdays of those dates. */
  lemma {:induction false} SumMask(rules: Rules, commits: seq<Commit>, k: Key)
    ensures SumOf(commits, PartOf(rules, k)).mask.Days() == WeekdaysOf(DatesAt(rules, commits, k))
  {
    if commits == [] {
      } else {
      var front, c := commits[..|commits| - 1], commits[|commits| - 1];
      SumMask(rules, front, k);
      PartMask(rules, c, k);
      DatesAtStep(rules, front, c, k);
      assert commits == front + [c];
      hide Feeds, UtcDay, PartOf, WeekdaysOf, DatesAt, Mask.Days;
      WeekdaysUnion(DatesAt(rules, front, k), if Feeds(rules, c, k) then {UtcDay(rules, c)} else {});
      OrUnitesDays(SumOf(front, PartOf(rules, k)).mask, PartOf(rules, k)(c).mask);
    }
  }

  lemma DatesInOneWeek(rules: Rules, commits: seq<Commit>, k: Key)
    ensures OneWeek(DatesAt(rules, commits, k))
  {
    hide WeekOf, AuthorOf, DateToISOWeek, Regular;
    var days := DatesAt(rules, commits, k);
    forall a, b | a in days && b in days
      ensures WeekOf(a) == WeekOf(b)
    {
      RegularDates(a);
      RegularDates(b);
      SameStringSameWeek(a, b);
    }
  }

  /** A key's popcount is its number of distinct UTC dates. */
  lemma PopcountIsDates(rules: Rules, commits: seq<Commit>, k: Key)
    ensures SumOf(commits, PartOf(rules, k)).mask.Popcount() == |DatesAt(rules, commits, k)| <= 7
  {
    SumMask(rules, commits, k);
    PopcountIsCardinality(SumOf(commits, PartOf(rules, k)).mask);
    DatesInOneWeek(rules, commits, k);
    MaskCountsDates(DatesAt(rules, commits, k));
  }
}
