/**
 * The counters of a record one by one, as plain numbers: what merging, batches of upserts and
 * reattribution do to each of them, in integer sums.
 */
module Columns {
  import opened Permutations
  import opened MapSums
  import opened WeekMask
  import opened Measures
  import opened Records
  import opened Reattribution

  datatype FileCounter = Changed | NewFiles | RemovedFiles | Insertions | Deletions

  /** The additive columns; PR sizes count once per size. */
  datatype Column =
    | CommitCount | IntentCount(intent: Intent) | BreakingCount | FileCount(category: Category, counter: FileCounter)
    | PrCount | PrsOfSize(size: nat) | ReworkCount | SelfReworkCount
  {
    /** Fed by commits, and not by the PR and rework passes. */
    predicate FromCommits() {
      CommitCount? || IntentCount? || BreakingCount? || FileCount?
    }
  }

  function FileNumber(f: FileMetrics, counter: FileCounter): nat {
    match counter
    case Changed => f.files
    case NewFiles => f.added
    case RemovedFiles => f.deleted
    case Insertions => f.insertions
    case Deletions => f.deletions
  }

  function FilesOf(f: Filetypes, c: Category): FileMetrics {
    match c
    case App => f.app
    case Test => f.test
    case Config => f.config
    case Storybook => f.storybook
    case Doc => f.doc
  }

  function IntentNumber(n: Intents, i: Intent): nat {
    match i
    case Feat => n.feat
    case Fix => n.fix
    case Refactor => n.refactor
    case Docs => n.docs
    case Tests => n.test
    case Chore => n.chore
    case Other => n.other
  }

  function Value(m: Measure, col: Column): nat {
    match col
    case CommitCount => m.work.commits
    case IntentCount(i) => IntentNumber(m.work.intents, i)
    case BreakingCount => m.work.breaking
    case FileCount(c, n) => FileNumber(FilesOf(m.work.filetypes, c), n)
    case PrCount => m.post.prsMerged
    case PrsOfSize(size) => m.post.prSizes[size]
    case ReworkCount => m.post.reworkLines
    case SelfReworkCount => m.post.reworkSelfLines
  }

  // ---- One merge ----

  lemma JoinAdds(a: Measure, b: Measure, col: Column)
    ensures Value(a.Join(b), col) == Value(a, col) + Value(b, col)
  {
  }

  lemma NothingIsZero(col: Column)
    ensures Value(NOTHING, col) == 0
  {
  }

  /** Two columns that agree everywhere hold the same counters. */
  lemma ColumnsDetermine(a: Measure, b: Measure)
    requires forall col :: Value(a, col) == Value(b, col)
    ensures a.work == b.work && a.post == b.post
  {
    forall c: Category ensures FilesOf(a.work.filetypes, c) == FilesOf(b.work.filetypes, c) {
      assert Value(a, FileCount(c, Changed)) == Value(b, FileCount(c, Changed));
      assert Value(a, FileCount(c, NewFiles)) == Value(b, FileCount(c, NewFiles));
      assert Value(a, FileCount(c, RemovedFiles)) == Value(b, FileCount(c, RemovedFiles));
      assert Value(a, FileCount(c, Insertions)) == Value(b, FileCount(c, Insertions));
      assert Value(a, FileCount(c, Deletions)) == Value(b, FileCount(c, Deletions));
    }
    SameFiles(a.work.filetypes, b.work.filetypes);
    forall i: Intent ensures IntentNumber(a.work.intents, i) == IntentNumber(b.work.intents, i) {
      assert Value(a, IntentCount(i)) == Value(b, IntentCount(i));
    }
    SameIntents(a.work.intents, b.work.intents);
    assert Value(a, CommitCount) == Value(b, CommitCount) && Value(a, BreakingCount) == Value(b, BreakingCount);
    SamePost(a, b);
  }

  lemma SamePost(a: Measure, b: Measure)
    requires forall col :: Value(a, col) == Value(b, col)
    ensures a.post == b.post
  {
    assert Value(a, PrCount) == Value(b, PrCount);
    assert Value(a, ReworkCount) == Value(b, ReworkCount) && Value(a, SelfReworkCount) == Value(b, SelfReworkCount);
    forall size: nat ensures a.post.prSizes[size] == b.post.prSizes[size] {
      assert Value(a, PrsOfSize(size)) == Value(b, PrsOfSize(size));
    }
    assert a.post.prSizes == b.post.prSizes;
  }

  lemma SameFiles(f: Filetypes, g: Filetypes)
    requires forall c: Category :: FilesOf(f, c) == FilesOf(g, c)
    ensures f == g
  {
    assert FilesOf(f, App) == FilesOf(g, App) && FilesOf(f, Test) == FilesOf(g, Test) && FilesOf(f, Config) == FilesOf(g, Config);
    assert FilesOf(f, Storybook) == FilesOf(g, Storybook) && FilesOf(f, Doc) == FilesOf(g, Doc);
  }

  lemma SameIntents(m: Intents, n: Intents)
    requires forall i: Intent :: IntentNumber(m, i) == IntentNumber(n, i)
    ensures m == n
  {
    assert IntentNumber(m, Feat) == IntentNumber(n, Feat) && IntentNumber(m, Fix) == IntentNumber(n, Fix);
    assert IntentNumber(m, Refactor) == IntentNumber(n, Refactor) && IntentNumber(m, Docs) == IntentNumber(n, Docs);
    assert IntentNumber(m, Tests) == IntentNumber(n, Tests) && IntentNumber(m, Chore) == IntentNumber(n, Chore);
    assert IntentNumber(m, Other) == IntentNumber(n, Other);
  }

  // ---- Lists ----

  ghost function PartValue<T(!new)>(part: T -> Measure, col: Column): T -> nat {
    (x: T) => Value(part(x), col)
  }

  lemma {:induction false} SumOfAdds<T(!new)>(s: seq<T>, part: T -> Measure, col: Column)
    ensures Value(SumOf(s, part), col) == SumNat(s, PartValue(part, col))
  {
    hide Value, Measure.Join;
    if s == [] {
      NothingIsZero(col);
    } else {
      SumOfAdds(s[..|s| - 1], part, col);
      JoinAdds(SumOf(s[..|s| - 1], part), part(s[|s| - 1]), col);
    }
  }

  lemma {:induction false} SumNatSame<T(!new)>(s: seq<T>, f: T -> nat, g: T -> nat)
    requires forall i :: 0 <= i < |s| ==> f(s[i]) == g(s[i])
    ensures SumNat(s, f) == SumNat(s, g)
  {
    if s != [] {
      var front := s[..|s| - 1];
      assert forall i :: 0 <= i < |front| ==> front[i] == s[i];
      SumNatSame(front, f, g);
    }
  }

  /** What a record brings to one column of one key. */
  ghost function Brings(k: Key, col: Column): Record -> nat {
    (r: Record) => if r.key == k then Value(r.row.measure, col) else 0
  }

  /** After any list of upserts each counter of a key is its old value plus the sum over the key's records. */
  lemma UpsertsAdd(t: Table, rs: seq<Record>, k: Key, col: Column)
    ensures Value(MeasureAt(UpsertAll(t, rs), k), col) == Value(MeasureAt(t, k), col) + SumNat(rs, Brings(k, col))
  {
    hide Value, Measure.Join, MeasureAt, UpsertAll;
    UpsertAllMeasures(t, rs, k);
    JoinAdds(MeasureAt(t, k), SumOf(rs, At(k)), col);
    SumOfAdds(rs, At(k), col);
    NothingIsZero(col);
    SumNatSame(rs, PartValue(At(k), col), Brings(k, col));
  }

  ghost predicate BringsScope(rs: seq<Record>, k: Key, scope: string) {
    exists i :: 0 <= i < |rs| && rs[i].key == k && scope in rs[i].row.measure.scopes
  }

  ghost predicate BringsDay(rs: seq<Record>, k: Key, d: nat) {
    exists i :: 0 <= i < |rs| && rs[i].key == k && rs[i].row.measure.mask.Has(d)
  }

  /** Scopes and weekdays are united: exactly those held before or brought by a record of the key. */
  lemma {:induction false} UpsertsUnite(t: Table, rs: seq<Record>, k: Key, scope: string, d: nat)
    ensures scope in MeasureAt(UpsertAll(t, rs), k).scopes <==> scope in MeasureAt(t, k).scopes || BringsScope(rs, k, scope)
    ensures MeasureAt(UpsertAll(t, rs), k).mask.Has(d) <==> MeasureAt(t, k).mask.Has(d) || BringsDay(rs, k, d)
  {
    if rs != [] {
      var front, last := rs[..|rs| - 1], rs[|rs| - 1];
      UpsertsUnite(t, front, k, scope, d);
      UpsertMeasure(UpsertAll(t, front), last, k);
      OrHas(MeasureAt(UpsertAll(t, front), k).mask, At(k)(last).mask, d);
      NothingHasNoDay(d);
      BringsStep(front, last, k, scope, d);
      assert rs == front + [last];
      hide MeasureAt, Upsert, UpsertAll, Mask.Or, Mask.Has, BringsScope, BringsDay, NOTHING;
      NothingHasNoScope(scope);
    }
  }

  lemma NothingHasNoDay(d: nat)
    ensures !NOTHING.mask.Has(d)
  {
  }

  lemma NothingHasNoScope(scope: string)
    ensures scope !in NOTHING.scopes
  {
  }

  lemma BringsStep(front: seq<Record>, last: Record, k: Key, scope: string, d: nat)
    ensures BringsScope(front + [last], k, scope)
       <==> BringsScope(front, k, scope) || (last.key == k && scope in last.row.measure.scopes)
    ensures BringsDay(front + [last], k, d) <==> BringsDay(front, k, d) || (last.key == k && last.row.measure.mask.Has(d))
  {
    var all := front + [last];
    assert all[|front|] == last && forall i :: 0 <= i < |front| ==> all[i] == front[i];
  }

  // ---- Tables ----

  /** One column summed over the selected rows. */
  ghost function ColumnSum(t: Table, sel: Key -> bool, col: Column): nat {
    SumValues(map k | k in t && sel(k) :: Value(t[k].measure, col))
  }

  lemma {:induction false} TotalAdds(t: Table, sel: Key -> bool, col: Column)
    ensures Value(Total(t, sel), col) == ColumnSum(t, sel, col)
    decreases |t|
  {
    hide Value, Measure.Join, ColumnSum;
    NothingIsZero(col);
    if t == map[] {
      EmptySum(sel, col);
    } else {
      var k := PickKey(t);
      TotalAdds(t - {k}, sel, col);
      JoinAdds(Total(t - {k}, sel), Part(t, sel, k), col);
      SumOneLess(t, sel, col, k);
    }
  }

  lemma EmptySum(sel: Key -> bool, col: Column)
    ensures ColumnSum(map[], sel, col) == 0
  {
  }

  lemma SumOneLess(t: Table, sel: Key -> bool, col: Column, k: Key)
    requires k in t
    ensures ColumnSum(t, sel, col) == ColumnSum(t - {k}, sel, col) + if sel(k) then Value(t[k].measure, col) else 0
  {
    hide Value, SumValues;
    var all := map j | j in t && sel(j) :: Value(t[j].measure, col);
    var rest := map j | j in t - {k} && sel(j) :: Value((t - {k})[j].measure, col);
    assert all - {k} == rest;
    if sel(k) { SumWithout(all, k); } else { assert all == rest; }
  }

  function ValueIf(chosen: bool, m: Measure, col: Column): nat {
    if chosen then Value(m, col) else 0
  }

  ghost function BringsTo(sel: Key -> bool, col: Column): Record -> nat {
    (r: Record) => ValueIf(sel(r.key), r.row.measure, col)
  }

  /** A batch adds its own sum to every counter of every selection of rows. */
  lemma UpsertsAddUp(t: Table, sel: Key -> bool, rs: seq<Record>, col: Column)
    ensures ColumnSum(UpsertAll(t, rs), sel, col) == ColumnSum(t, sel, col) + SumNat(rs, BringsTo(sel, col))
  {
    hide Value, Measure.Join, Total, UpsertAll, ColumnSum;
    TotalUpsertAll(t, sel, rs);
    TotalAdds(t, sel, col);
    TotalAdds(UpsertAll(t, rs), sel, col);
    JoinAdds(Total(t, sel), SumOf(rs, Selected(sel)), col);
    SumOfAdds(rs, Selected(sel), col);
    NothingIsZero(col);
    forall i | 0 <= i < |rs| ensures PartValue(Selected(sel), col)(rs[i]) == BringsTo(sel, col)(rs[i]) {
      if sel(rs[i].key) { assert Selected(sel)(rs[i]) == rs[i].row.measure; } else { assert Selected(sel)(rs[i]) == NOTHING; }
    }
    SumNatSame(rs, PartValue(Selected(sel), col), BringsTo(sel, col));
  }

  /** One column summed over the rows of a (week, repo). */
  ghost function SlotSum(t: Table, week: string, repo: string, col: Column): nat {
    SumValues(map k | k in t && k.week == week && k.repo == repo :: Value(t[k].measure, col))
  }

  ghost predicate SlotHasScope(t: Table, week: string, repo: string, scope: string) {
    exists k :: k in t && k.week == week && k.repo == repo && scope in t[k].measure.scopes
  }

  ghost predicate SlotHasDay(t: Table, week: string, repo: string, d: nat) {
    exists k :: k in t && k.week == week && k.repo == repo && t[k].measure.mask.Has(d)
  }

  lemma SlotTotal(t: Table, week: string, repo: string, col: Column)
    ensures Value(Total(t, Slot(week, repo)), col) == SlotSum(t, week, repo, col)
  {
    hide Value;
    TotalAdds(t, Slot(week, repo), col);
    assert (map k | k in t && Slot(week, repo)(k) :: Value(t[k].measure, col))
        == map k | k in t && k.week == week && k.repo == repo :: Value(t[k].measure, col);
  }

  lemma {:induction false} TotalUnites(t: Table, sel: Key -> bool, scope: string, d: nat)
    ensures scope in Total(t, sel).scopes <==> exists k :: k in t && sel(k) && scope in t[k].measure.scopes
    ensures Total(t, sel).mask.Has(d) <==> exists k :: k in t && sel(k) && t[k].measure.mask.Has(d)
    decreases |t|
  {
    NothingHasNoDay(d);
    NothingHasNoScope(scope);
    if t != map[] {
      var k := PickKey(t);
      var rest := t - {k};
      TotalUnites(rest, sel, scope, d);
      OrHas(Total(rest, sel).mask, Part(t, sel, k).mask, d);
      hide Mask.Or, Mask.Has, NOTHING;
      assert forall j :: j in rest ==> j in t && rest[j] == t[j];
      assert forall j :: j in t ==> j == k || j in rest;
    }
  }

  /** Any list of attribution updates leaves every counter of each (week, repo), its scopes and its weekdays unchanged. */
  lemma ReattributionKeepsSums(t: Table, us: seq<Update>, order: RowOrder, week: string, repo: string, col: Column, scope: string, d: nat)
    requires ListsEachOnce(order)
    ensures var after := ApplyUpdates(t, us, order);
            && SlotSum(after, week, repo, col) == SlotSum(t, week, repo, col)
            && (SlotHasScope(after, week, repo, scope) <==> SlotHasScope(t, week, repo, scope))
            && (SlotHasDay(after, week, repo, d) <==> SlotHasDay(t, week, repo, d))
  {
    hide Value, ApplyUpdates, Total, Mask.Has, ListsEachOnce;
    var after := ApplyUpdates(t, us, order);
    ReattributionConserves(t, us, order, week, repo);
    SlotTotal(t, week, repo, col);
    SlotTotal(after, week, repo, col);
    TotalUnites(t, Slot(week, repo), scope, d);
    TotalUnites(after, Slot(week, repo), scope, d);
  }
}
