/** Every column of every record in every reachable state, counted out from the commits and the post-pass records. */
module RecordCounts {
  import opened Text
  import opened Permutations
  import opened Measures
  import opened Columns
  import opened Records
  import opened MergeByKey
  import opened Commits
  import opened CommitCounts
  import opened Collector
  import opened AuthorRegistry
  import opened ScanState
  import opened ScanRuns

  // ---- One scan ----

  /** Each counter of a scan's record is the sum over the measured commits of its key; PR and rework counters are zero. */
  lemma ScanCounts(rules: Rules, repo: string, group: string, counted: seq<Commit>, k: Key, col: Column)
    requires k.repo == repo
    ensures Value(MeasureAt(ScanTable(rules, repo, group, counted), k), col) == SumNat(counted, Adds(rules, k, col))
  {
    hide Value, MeasureAt, ScanTable, PartOf, Adds, SumOf, SumNat;
    ScanTableAgrees(rules, repo, group, counted, k);
    SumCounts(rules, counted, k, col);
  }

  /** The identity columns the author of a commit gives a new record. */
  ghost function IdentityBy(rules: Rules, c: Commit, group: string): Identity {
    var a := rules.resolve(c.email, c.name);
    if a.Some? then Identity(a.value.email, a.value.org, a.value.orgType, a.value.team, a.value.tag, group)
    else Identity(c.email, "unassigned", "core", "unassigned", "default", group)
  }

  /** No commit before position i feeds the key, and the one at i does. */
  ghost predicate FirstOf(rules: Rules, commits: seq<Commit>, k: Key, i: nat) {
    i < |commits| && Keyed(rules, commits[i], k) && forall j :: 0 <= j < i ==> !Keyed(rules, commits[j], k)
  }

  /** A record is attributed by the first commit of its key. */
  lemma {:induction false} FirstAttributes(rules: Rules, repo: string, group: string, commits: seq<Commit>, k: Key, i: nat)
    requires k.repo == repo && FirstOf(rules, commits, k, i)
    ensures var t := TakeAll(EMPTY_ACC, rules, repo, group, commits).records;
            k in t && t[k].id == IdentityBy(rules, commits[i], group)
  {
    hide Keyed, Feeds, Take, IdentityBy;
    var front, c := commits[..|commits| - 1], commits[|commits| - 1];
    if i < |front| {
      assert FirstOf(rules, front, k, i);
      FirstAttributes(rules, repo, group, front, k, i);
    } else {
      NotFedYet(rules, repo, group, front, k);
      FeedsExactly(rules, c, k);
      AuthorIdentity(rules, c, group);
    }
    TakeKeepsIdentity(TakeAll(EMPTY_ACC, rules, repo, group, front), rules, repo, group, c, k);
  }

  lemma NotFedYet(rules: Rules, repo: string, group: string, front: seq<Commit>, k: Key)
    requires k.repo == repo && forall j :: 0 <= j < |front| ==> !Keyed(rules, front[j], k)
    ensures k !in TakeAll(EMPTY_ACC, rules, repo, group, front).records
  {
    hide Keyed, Feeds, TakeAll;
    AccDays(rules, repo, group, front, k);
    forall j | 0 <= j < |front| ensures !Feeds(rules, front[j], k) { FeedsExactly(rules, front[j], k); }
  }

  lemma AuthorIdentity(rules: Rules, c: Commit, group: string)
    ensures EmptyRow(AuthorOf(rules, c), group).id == IdentityBy(rules, c, group)
  {
  }

  lemma TakeKeepsIdentity(acc: Acc, rules: Rules, repo: string, group: string, c: Commit, k: Key)
    requires k.repo == repo
    ensures var t := Take(acc, rules, repo, group, c).records;
            && (k in acc.records ==> k in t && t[k].id == acc.records[k].id)
            && (k !in acc.records && Feeds(rules, c, k) ==> k in t && t[k].id == EmptyRow(AuthorOf(rules, c), group).id)
  {
    hide CommitMeasure, IgnoredOnly, UtcDay, Discover, Measure.Join, AuthorOf;
  }

  lemma ScanAttributes(rules: Rules, repo: string, group: string, counted: seq<Commit>, k: Key, i: nat)
    requires k.repo == repo && FirstOf(rules, counted, k, i)
    ensures var t := ScanTable(rules, repo, group, counted);
            k in t && t[k].id == IdentityBy(rules, counted[i], group)
  {
    FirstAttributes(rules, repo, group, counted, k, i);
    FinalKeys(rules, repo, group, counted);
    hide TakeAll, FirstOf, IdentityBy;
  }

  // ---- Every reachable state ----

  lemma CommitColumnsKeep(m: Measure, col: Column)
    requires col.FromCommits()
    ensures Value(CommitColumns(m), col) == Value(m, col)
  {
  }

  /** In every reachable state each commit counter of a record is the sum over the measured commits counted for its key. */
  lemma RecordsAreCounts(rules: Rules, staleness: int, es: seq<Event>, k: Key, col: Column)
    requires col.FromCommits() && forall i :: 0 <= i < |es| ==> PostPassOnly(es[i])
    ensures var w := Run(rules, staleness, es);
            Value(MeasureAt(w.tables.records, k), col) == SumNat(Counted(w, k.repo), Adds(rules, k, col))
  {
    hide Value, MeasureAt, Run, PartOf, Adds, SumOf, SumNat, CommitColumns, PostPassOnly;
    var w := Run(rules, staleness, es);
    RecordsAgree(rules, staleness, es, k);
    CommitColumnsKeep(MeasureAt(w.tables.records, k), col);
    SumCounts(rules, Counted(w, k.repo), k, col);
  }

  /** And its scopes are those the counted commits name. */
  lemma RecordScopes(rules: Rules, staleness: int, es: seq<Event>, k: Key, scope: string)
    requires forall i :: 0 <= i < |es| ==> PostPassOnly(es[i])
    ensures var w := Run(rules, staleness, es);
            scope in MeasureAt(w.tables.records, k).scopes <==> Scoped(rules, Counted(w, k.repo), k, scope)
  {
    hide MeasureAt, Run, PartOf, Scoped, SumOf, PostPassOnly;
    var w := Run(rules, staleness, es);
    RecordsAgree(rules, staleness, es, k);
    SumScopes(rules, Counted(w, k.repo), k, scope);
  }

  // ---- Authors ----

  /** What a known author never loses. */
  ghost predicate Kept(was: DiscoveredAuthor, now: DiscoveredAuthor) {
    && was.reposSeenIn <= now.reposSeenIn && was.firstSeen == now.firstSeen && !Less(now.lastSeen, was.lastSeen)
    && was.email == now.email && was.org == now.org && was.team == now.team
    && (was.identifier.Some? ==> now.identifier.Some?)
  }

  /** After a completed visit every author it counted carries the name of their newest commit, and has been seen in the repository. */
  lemma AuthorsNamed(rules: Rules, staleness: int, w: World, e: Event, author: string) returns (i: nat)
    requires Completes(staleness, w, e) && CountBy(rules, Counts(e.force, StateOf(w, e.visit.repo), e.visit), author) > 0
    ensures var counted := Counts(e.force, StateOf(w, e.visit.repo), e.visit);
            var authors := Next(rules, staleness, w, e).tables.authors;
            && i < |counted| && Newest(rules, counted, author, i)
            && author in authors && authors[author].name == counted[i].name
            && e.visit.repo in authors[author].reposSeenIn
            && !Less(authors[author].lastSeen, counted[i].date)
            && (author in w.tables.authors ==> Kept(w.tables.authors[author], authors[author]))
  {
    var v, counted := e.visit, Counts(e.force, StateOf(w, e.visit.repo), e.visit);
    AccAuthors(rules, v.repo, v.group, counted, author);
    i := AccNewest(rules, v.repo, v.group, counted, author);
    var raw := TakeAll(EMPTY_ACC, rules, v.repo, v.group, counted).authors;
    var reg := if e.force then Subtracted(w.tables.authors, v.repo) else w.tables.authors;
    MergedName(reg, rules, v.repo, raw, author);
    hide TakeAll, Merged, ScanTable, Overlay, FileExtras, NextState, AnyFails, IsStale, Newest, CountBy, Counts;
  }

  lemma MergedName(reg: AuthorRegistry.Registry, rules: Rules, repo: string, raw: map<string, RawAuthor>, author: string)
    requires author in raw
    ensures var a := Merged(reg, rules, repo, raw);
            && author in a && a[author].name == raw[author].name && repo in a[author].reposSeenIn
            && !Less(a[author].lastSeen, raw[author].lastDate)
            && (author in reg ==> Kept(reg[author], a[author]))
  {
    LessIrreflexive(raw[author].lastDate);
    if author in reg {
      LessIrreflexive(reg[author].lastSeen);
      LessTotal(reg[author].lastSeen, raw[author].lastDate);
    }
  }

  // ---- PR and rework columns ----

  /** What the PR and rework passes brought to a key since its repository was last cleared. */
  ghost function Brought(rules: Rules, staleness: int, es: seq<Event>, k: Key, col: Column): nat {
    if es == [] then 0
    else
      var front, e := es[..|es| - 1], es[|es| - 1];
      AfterPasses(staleness, Run(rules, staleness, front), e, k, col, Brought(rules, staleness, front, k, col))
  }

  lemma ExtraAdds(m: Table, e: Record, k: Key, col: Column)
    requires PostOnly(e.row) && !col.FromCommits()
    ensures Value(MeasureAt(FileExtra(m, e), k), col) == Value(MeasureAt(m, k), col) + Brings(k, col)(e)
  {
    hide Value;
    NothingIsZero(col);
    if e.key in m {
      AddPostJoins(m[e.key], e.row);
      JoinAdds(m[e.key].measure, e.row.measure, col);
    }
  }

  lemma {:induction false} ExtrasAdd(m: Table, extra: seq<Record>, k: Key, col: Column)
    requires !col.FromCommits() && forall i :: 0 <= i < |extra| ==> PostOnly(extra[i].row)
    ensures Value(MeasureAt(FileExtras(m, extra), k), col) == Value(MeasureAt(m, k), col) + SumNat(extra, Brings(k, col))
  {
    hide Value, MeasureAt, FileExtra, PostOnly, Brings;
    if extra != [] {
      var front, last := extra[..|extra| - 1], extra[|extra| - 1];
      assert forall i :: 0 <= i < |front| ==> front[i] == extra[i];
      ExtrasAdd(m, front, k, col);
      ExtraAdds(FileExtras(m, front), last, k, col);
    }
  }

  lemma NoPostColumns(m: Measure, col: Column)
    requires m.post == NO_POST && !col.FromCommits()
    ensures Value(m, col) == 0
  {
  }

  lemma CompletedAdds(rules: Rules, t: Tables, force: bool, state: Option<RepoState>, v: Visit, k: Key, col: Column)
    requires PostPassOnly(Event(force, v)) && !col.FromCommits()
    ensures Value(MeasureAt(Completed(rules, t, force, state, v).records, k), col)
         == Value(MeasureAt(t.records, k), col) + SumNat(v.extra, Brings(k, col))
  {
    var counted := Counts(force, state, v);
    var scanned := ScanTable(rules, v.repo, v.group, counted);
    ScanTableAgrees(rules, v.repo, v.group, counted, k);
    NoPostColumns(MeasureAt(scanned, k), col);
    hide ScanTable, Value, Overlay, FileExtras, MeasureAt, Counts, NextState, Merged, TakeAll, SumOf, PartOf, Row.Masked, DatesAt;
    ExtrasAdd(scanned, v.extra, k, col);
    OverlayMeasure(t.records, FileExtras(scanned, v.extra), k);
    JoinAdds(MeasureAt(t.records, k), MeasureAt(FileExtras(scanned, v.extra), k), col);
  }

  lemma ResetAt(t: Tables, repo: string, k: Key, col: Column)
    ensures Value(MeasureAt(Reset(t, repo).records, k), col) == if k.repo == repo then 0 else Value(MeasureAt(t.records, k), col)
  {
    hide Value, Subtracted;
    NothingIsZero(col);
  }

  /** What one event does to a PR or rework counter. */
  ghost function AfterPasses(staleness: int, w: World, e: Event, k: Key, col: Column, before: nat): nat {
    (if e.force && e.visit.pathExists && e.visit.repo == k.repo then 0 else before)
    + if Completes(staleness, w, e) then SumNat(e.visit.extra, Brings(k, col)) else 0
  }

  lemma NextBrings(rules: Rules, staleness: int, w: World, e: Event, k: Key, col: Column)
    requires PostPassOnly(e) && !col.FromCommits()
    ensures Value(MeasureAt(Next(rules, staleness, w, e).tables.records, k), col)
         == AfterPasses(staleness, w, e, k, col, Value(MeasureAt(w.tables.records, k), col))
  {
    hide Value, MeasureAt, Completed, Reset, AnyFails, IsStale, PostPassOnly, Brings, SumNat;
    var v, state := e.visit, StateOf(w, e.visit.repo);
    ResetAt(w.tables, v.repo, k, col);
    if Completes(staleness, w, e) {
      CompletedAdds(rules, if e.force then Reset(w.tables, v.repo) else w.tables, e.force, state, v, k, col);
    }
  }

  /** In every reachable state the PR and rework counters of a record are what its passes brought since it was last cleared. */
  lemma {:induction false} PostColumnsAreBrought(rules: Rules, staleness: int, es: seq<Event>, k: Key, col: Column)
    requires !col.FromCommits() && forall i :: 0 <= i < |es| ==> PostPassOnly(es[i])
    ensures Value(MeasureAt(Run(rules, staleness, es).tables.records, k), col) == Brought(rules, staleness, es, k, col)
  {
    hide Value, MeasureAt, Next, AfterPasses, PostPassOnly;
    if es == [] {
      NothingYet(k, col);
    } else {
      var front, e := es[..|es| - 1], es[|es| - 1];
      assert forall i :: 0 <= i < |front| ==> front[i] == es[i];
      PostColumnsAreBrought(rules, staleness, front, k, col);
      NextBrings(rules, staleness, Run(rules, staleness, front), e, k, col);
    }
  }

  lemma NothingYet(k: Key, col: Column)
    ensures Value(MeasureAt(EMPTY_WORLD.tables.records, k), col) == 0
  {
    NothingIsZero(col);
  }
}
