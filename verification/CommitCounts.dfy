/**
 * What commits add to the record of their key, counted out commit by commit and file by file,
 * collector/git.ts `processCommitBatch`.
 */
module CommitCounts {
  import opened Text
  import opened IsoWeek
  import opened Permutations
  import opened WeekMask
  import opened Measures
  import opened Columns
  import opened Records
  import opened Commits

  /** The commit has no files, or one that is not ignored. */
  ghost predicate IsMeasured(rules: Rules, c: Commit) {
    c.files == [] || exists i :: 0 <= i < |c.files| && !rules.ignored(c.files[i].path)
  }

  lemma {:induction false} NoneCounted(rules: Rules, files: seq<FileChange>)
    ensures CountedFiles(rules, files) == [] <==> forall i :: 0 <= i < |files| ==> rules.ignored(files[i].path)
  {
    if files != [] {
      NoneCounted(rules, files[..|files| - 1]);
      assert forall i :: 0 <= i < |files| - 1 ==> files[..|files| - 1][i] == files[i];
    }
  }

  /** A commit is set aside exactly when it has files and all of them are ignored. */
  lemma IgnoredOnlyExactly(rules: Rules, c: Commit)
    ensures IgnoredOnly(rules, c) <==> !IsMeasured(rules, c)
  {
    NoneCounted(rules, c.files);
  }

  // ---- One file ----

  function FileNumberOf(f: FileChange, counter: FileCounter): nat {
    match counter
    case Changed => 1
    case NewFiles => if f.status == Added then 1 else 0
    case RemovedFiles => if f.status == Deleted then 1 else 0
    case Insertions => f.insertions
    case Deletions => f.deletions
  }

  function FileAddsTo(rules: Rules, f: FileChange, category: Category, counter: FileCounter): nat {
    if !rules.ignored(f.path) && rules.classify(f.path) == category then FileNumberOf(f, counter) else 0
  }

  function FileAdds(rules: Rules, category: Category, counter: FileCounter): FileChange -> nat {
    (f: FileChange) => FileAddsTo(rules, f, category, counter)
  }

  /** The counters of a commit's files are sums over the files that are not ignored, each under its category. */
  lemma {:induction false} FilesAdd(rules: Rules, files: seq<FileChange>, category: Category, counter: FileCounter)
    ensures FileNumber(FilesOf(FilesMeasure(rules, CountedFiles(rules, files)), category), counter)
         == SumNat(files, FileAdds(rules, category, counter))
  {
    if files != [] {
      var front, last := files[..|files| - 1], files[|files| - 1];
      FilesAdd(rules, front, category, counter);
      var counted := CountedFiles(rules, front);
      assert (counted + [last])[..|counted|] == counted;
      FileAdded(FilesMeasure(rules, counted), rules.classify(last.path), last, category, counter);
    }
  }

  lemma FileAdded(f: Filetypes, at: Category, file: FileChange, category: Category, counter: FileCounter)
    ensures FileNumber(FilesOf(f.Add(at, FileMeasure(file)), category), counter)
         == FileNumber(FilesOf(f, category), counter) + if at == category then FileNumberOf(file, counter) else 0
  {
  }

  // ---- One commit ----

  /** The member and UTC week of a commit, and that it is measured at all. */
  ghost predicate Keyed(rules: Rules, c: Commit, k: Key) {
    var author := rules.resolve(c.email, c.name);
    && IsMeasured(rules, c)
    && k.member == (if author.Some? then author.value.member else c.name)
    && k.week == DateToISOWeek(rules.instant(c.date) / 86_400_000)
  }

  lemma FeedsExactly(rules: Rules, c: Commit, k: Key)
    ensures Feeds(rules, c, k) <==> Keyed(rules, c, k)
  {
    hide DateToISOWeek;
    IgnoredOnlyExactly(rules, c);
  }

  ghost function CommitAdds(rules: Rules, c: Commit, col: Column): nat {
    match col
    case CommitCount => 1
    case IntentCount(i) => if rules.conventional(c.subject).intent == i then 1 else 0
    case BreakingCount => if rules.conventional(c.subject).breaking then 1 else 0
    case FileCount(category, counter) => SumNat(c.files, FileAdds(rules, category, counter))
    case _ => 0
  }

  ghost function Adds(rules: Rules, k: Key, col: Column): Commit -> nat {
    (c: Commit) => if Keyed(rules, c, k) then CommitAdds(rules, c, col) else 0
  }

  lemma MeasureAdds(rules: Rules, c: Commit, col: Column)
    ensures Value(CommitMeasure(rules, c), col) == CommitAdds(rules, c, col)
  {
    hide FilesMeasure, CountedFiles, UtcDay;
    if col.FileCount? { FilesAdd(rules, c.files, col.category, col.counter); }
  }

  lemma PartAdds(rules: Rules, c: Commit, k: Key, col: Column)
    ensures Value(PartOf(rules, k)(c), col) == Adds(rules, k, col)(c)
  {
    hide Value, CommitMeasure, Keyed, Feeds, CommitAdds;
    FeedsExactly(rules, c, k);
    MeasureAdds(rules, c, col);
    NothingIsZero(col);
  }

  // ---- Many commits ----

  /** Each counter of a fold of commits is the sum, over the measured commits of the key, of what each one adds. */
  lemma SumCounts(rules: Rules, commits: seq<Commit>, k: Key, col: Column)
    ensures Value(SumOf(commits, PartOf(rules, k)), col) == SumNat(commits, Adds(rules, k, col))
  {
    hide Value, PartOf, Adds, SumOf;
    SumOfAdds(commits, PartOf(rules, k), col);
    forall i | 0 <= i < |commits| ensures PartValue(PartOf(rules, k), col)(commits[i]) == Adds(rules, k, col)(commits[i]) {
      PartAdds(rules, commits[i], k, col);
    }
    SumNatSame(commits, PartValue(PartOf(rules, k), col), Adds(rules, k, col));
  }

  ghost predicate Scoped(rules: Rules, commits: seq<Commit>, k: Key, scope: string) {
    exists i :: 0 <= i < |commits| && Keyed(rules, commits[i], k) && rules.conventional(commits[i].subject).scope == Some(scope)
  }

  lemma ScopedStep(rules: Rules, front: seq<Commit>, c: Commit, k: Key, scope: string)
    ensures Scoped(rules, front + [c], k, scope)
       <==> Scoped(rules, front, k, scope) || (Keyed(rules, c, k) && rules.conventional(c.subject).scope == Some(scope))
  {
    hide Keyed;
    var all := front + [c];
    assert all[|front|] == c && forall i :: 0 <= i < |front| ==> all[i] == front[i];
  }

  lemma PartScopes(rules: Rules, c: Commit, k: Key, scope: string)
    ensures scope in PartOf(rules, k)(c).scopes <==> Keyed(rules, c, k) && rules.conventional(c.subject).scope == Some(scope)
  {
    FeedsExactly(rules, c, k);
    NothingHasNoScope(scope);
    hide Keyed, Feeds, UtcDay, FilesMeasure, CountedFiles, NOTHING;
  }

  lemma JoinScopes(a: Measure, b: Measure, scope: string)
    ensures scope in a.Join(b).scopes <==> scope in a.scopes || scope in b.scopes
  {
    hide Work.Plus, Post.Plus, Mask.Or;
  }

  /** The scopes of a fold of commits are those its measured commits name. */
  lemma {:induction false} SumScopes(rules: Rules, commits: seq<Commit>, k: Key, scope: string)
    ensures scope in SumOf(commits, PartOf(rules, k)).scopes <==> Scoped(rules, commits, k, scope)
  {
    hide Keyed, PartOf, Scoped, NOTHING, Measure.Join;
    if commits == [] {
      NothingHasNoScope(scope);
      NoneScoped(rules, k, scope);
    } else {
      var front, c := commits[..|commits| - 1], commits[|commits| - 1];
      SumScopes(rules, front, k, scope);
      PartScopes(rules, c, k, scope);
      ScopedStep(rules, front, c, k, scope);
      assert commits == front + [c];
      JoinScopes(SumOf(front, PartOf(rules, k)), PartOf(rules, k)(c), scope);
    }
  }

  lemma NoneScoped(rules: Rules, k: Key, scope: string)
    ensures !Scoped(rules, [], k, scope)
  {
  }
}
