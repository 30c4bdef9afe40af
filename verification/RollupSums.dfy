/** What the columns of a rolled-up group are, in integer sums over the records of the group. */
module RollupSums {
  import opened Text
  import opened MapSums
  import opened WeekMask
  import opened Permutations
  import opened Measures
  import opened Columns
  import opened Records
  import opened Rollup

  /** One counter over the five categories. */
  function FiveCategories(f: Filetypes, n: FileCounter): nat {
    FileNumber(f.app, n) + FileNumber(f.test, n) + FileNumber(f.config, n) + FileNumber(f.storybook, n) + FileNumber(f.doc, n)
  }

  function FilesIn(n: FileCounter): Record -> nat {
    (r: Record) => FiveCategories(r.row.measure.work.filetypes, n)
  }

  function ColumnIn(col: Column): Record -> nat {
    (r: Record) => Value(r.row.measure, col)
  }

  lemma FilesAddUp(a: Filetypes, b: Filetypes, n: FileCounter)
    ensures FiveCategories(a.Plus(b), n) == FiveCategories(a, n) + FiveCategories(b, n)
  {
  }

  lemma {:induction false} FilesSummed(rs: seq<Record>, n: FileCounter)
    ensures FiveCategories(SumOf(rs, RowMeasure).work.filetypes, n) == SumNat(rs, FilesIn(n))
  {
    hide FiveCategories, Filetypes.Plus, Mask.Or, Post.Plus, Intents.Plus;
    if rs == [] {
      NoFiles(n);
    } else {
      var front, last := rs[..|rs| - 1], rs[|rs| - 1];
      FilesSummed(front, n);
      FilesAddUp(SumOf(front, RowMeasure).work.filetypes, last.row.measure.work.filetypes, n);
    }
  }

  lemma NoFiles(n: FileCounter)
    ensures FiveCategories(NOTHING.work.filetypes, n) == 0
  {
  }

  /** The sums a group must show, over the records given. */
  ghost predicate SumsUp(u: RolledUp, mine: seq<Record>) {
    && u.insertions == SumNat(mine, FilesIn(Insertions))
    && u.deletions == SumNat(mine, FilesIn(Deletions))
    && u.netLines == u.insertions - u.deletions
    && u.filesChanged == SumNat(mine, FilesIn(Changed))
    && u.filesAdded == SumNat(mine, FilesIn(NewFiles))
    && u.filesDeleted == SumNat(mine, FilesIn(RemovedFiles))
    && u.commits == SumNat(mine, ColumnIn(CommitCount))
    && u.breakingChanges == SumNat(mine, ColumnIn(BreakingCount))
    && u.prsMergedGit == SumNat(mine, ColumnIn(PrCount))
    && (forall size :: u.prSizes[size] == SumNat(mine, ColumnIn(PrsOfSize(size))))
    && u.reworkLines == SumNat(mine, ColumnIn(ReworkCount))
    && u.reworkSelfLines == SumNat(mine, ColumnIn(SelfReworkCount))
    && (forall c, n :: FileNumber(FilesOf(u.filetype, c), n) == SumNat(mine, ColumnIn(FileCount(c, n))))
  }

  lemma ColumnSummed(rs: seq<Record>, col: Column)
    ensures Value(SumOf(rs, RowMeasure), col) == SumNat(rs, ColumnIn(col))
  {
    hide Value, SumOf, SumNat;
    SumOfAdds(rs, RowMeasure, col);
    forall i | 0 <= i < |rs| ensures PartValue(RowMeasure, col)(rs[i]) == ColumnIn(col)(rs[i]) {
      assert RowMeasure(rs[i]) == rs[i].row.measure;
    }
    SumNatSame(rs, PartValue(RowMeasure, col), ColumnIn(col));
  }

  lemma TotalsSumUp(mine: seq<Record>, members: nat, days: nat)
    ensures SumsUp(Totals(SumOf(mine, RowMeasure), members, days), mine)
  {
    hide SumOf, SumNat, FiveCategories, FilesOf, FileNumber;
    var m := SumOf(mine, RowMeasure);
    var u := Totals(m, members, days);
    FiveTotals(m.work.filetypes);
    FilesSummed(mine, Insertions);
    FilesSummed(mine, Deletions);
    FilesSummed(mine, Changed);
    FilesSummed(mine, NewFiles);
    FilesSummed(mine, RemovedFiles);
    ColumnSummed(mine, CommitCount);
    ColumnSummed(mine, BreakingCount);
    ColumnSummed(mine, PrCount);
    ColumnSummed(mine, ReworkCount);
    ColumnSummed(mine, SelfReworkCount);
    hide AllFiles;
    forall size ensures u.prSizes[size] == SumNat(mine, ColumnIn(PrsOfSize(size))) {
      ColumnSummed(mine, PrsOfSize(size));
    }
    forall c, n ensures FileNumber(FilesOf(u.filetype, c), n) == SumNat(mine, ColumnIn(FileCount(c, n))) {
      ColumnSummed(mine, FileCount(c, n));
    }
  }

  lemma FiveTotals(f: Filetypes)
    ensures var all := AllFiles(f);
            && all.insertions == FiveCategories(f, Insertions) && all.deletions == FiveCategories(f, Deletions)
            && all.files == FiveCategories(f, Changed) && all.added == FiveCategories(f, NewFiles)
            && all.deleted == FiveCategories(f, RemovedFiles)
  {
  }

  // ---- The group's records ----

  /** The records a list holds for a group, with their number. */
  ghost predicate IsGroup(mine: seq<Record>, rs: seq<Record>, chosen: Record -> bool) {
    forall r :: multiset(mine)[r] == if chosen(r) then multiset(rs)[r] else 0
  }

  lemma {:induction false} FilterIsGroup(rs: seq<Record>, p: Record -> bool)
    ensures IsGroup(Filter(rs, p), rs, p)
  {
    if rs != [] {
      var front, last := rs[..|rs| - 1], rs[|rs| - 1];
      FilterIsGroup(front, p);
      assert rs == front + [last];
      assert multiset(rs) == multiset(front) + multiset{last};
      assert multiset(Filter(front, p) + [last]) == multiset(Filter(front, p)) + multiset{last};
    }
  }

  ghost predicate ActiveIn(mine: seq<Record>, member: string) {
    exists r :: r in mine && r.key.member == member && r.row.measure.work.commits > 0
  }

  /** A group's columns over its records, and the members with a commit among them. */
  ghost predicate Shows(u: RolledUp, mine: seq<Record>) {
    && SumsUp(u, mine)
    && exists members: set<string> :: u.activeMembers == |members| && forall a :: a in members <==> ActiveIn(mine, a)
  }

  lemma GroupsShow(mine: seq<Record>)
    ensures Shows(RolledGroup(mine), mine) && Shows(SqlGroup(mine), mine)
  {
    TotalsSumUp(mine, |ActiveMembers(mine)|, DaysOf(TrackersOf(mine)));
    TotalsSumUp(mine, |ActiveMembers(mine)|, SumValues(map mw | mw in MemberWeeks(mine) :: SqlDays(mine, mw)));
    ActiveCounted(mine);
    hide SumsUp, DaysOf, TrackersOf, SumOf, AllFiles, SqlDays, ActiveMembers, ActiveIn, SumValues;
    var u := RolledGroup(mine);
    assert u.activeMembers == |ActiveMembers(mine)| && SqlGroup(mine).activeMembers == |ActiveMembers(mine)|;
  }

  lemma ActiveCounted(mine: seq<Record>)
    ensures forall a :: a in ActiveMembers(mine) <==> ActiveIn(mine, a)
  {
  }

  /** Every group of the loop's result shows the sums over exactly the records its key chooses. */
  lemma RollupSumsUp(records: seq<Record>, groupBy: Record -> string, g: string) returns (mine: seq<Record>)
    ensures IsGroup(mine, records, InGroup(groupBy, g))
    ensures g in RollupOf(records, groupBy) <==> mine != []
    ensures g in RollupOf(records, groupBy) ==> Shows(RollupOf(records, groupBy)[g], mine)
  {
    mine := Filter(records, InGroup(groupBy, g));
    hide *;
    FilterIsGroup(records, InGroup(groupBy, g));
    GroupNonEmpty(records, groupBy, g);
    GroupsShow(mine);
    GroupAt(records, groupBy, g);
  }

  lemma GroupAt(records: seq<Record>, groupBy: Record -> string, g: string)
    ensures g in RollupOf(records, groupBy) <==> g in Groups(records, groupBy)
    ensures g in Groups(records, groupBy) ==>
      RollupOf(records, groupBy)[g] == RolledGroup(Filter(records, InGroup(groupBy, g)))
  {
    hide RolledGroup, Filter, Groups;
  }

  /** The days of a member-week: the weekdays set in any row's mask, plus the days of the rows without one, at most seven. */
  lemma WeekDays(rs: seq<Record>, mw: MemberWeek)
    ensures var days := |set i: nat | i < 7 && MaxBit(rs, mw, i)| + SumNat(rs, LegacyDays(mw));
            SqlDays(rs, mw) == TrackerDays(TrackerAt(rs, mw)) == if days < 7 then days else 7
  {
    hide MaxBit, MaxBits, TrackerAt, SumNat, Mask.Popcount, TrackerDays;
    SameDays(rs, rs, mw);
    BitsCounted(rs, mw);
  }

  lemma BitsCounted(rs: seq<Record>, mw: MemberWeek)
    ensures MaxBits(rs, mw).Popcount() == |set i: nat | i < 7 && MaxBit(rs, mw, i)|
  {
    hide MaxBit, Mask.Popcount;
    var mask := MaxBits(rs, mw);
    PopcountIsCardinality(mask);
    forall i: nat | i < 7 ensures mask.Has(i) <==> MaxBit(rs, mw, i) {
    }
    hide Mask.Has, MaxBits;
    assert mask.Days() == set i: nat | i < 7 && MaxBit(rs, mw, i);
  }

  // ---- The query's groups ----

  /** The conditions of a filter, each only when it is given; an empty week list is no condition. */
  ghost predicate Wanted(f: Filters, r: Record) {
    && (f.weeks.Some? && f.weeks.value != [] ==> r.key.week in f.weeks.value)
    && (f.org.Some? ==> r.row.id.org == f.org.value)
    && (f.team.Some? ==> r.row.id.team == f.team.value)
    && (f.tag.Some? ==> r.row.id.tag == f.tag.value)
    && (f.group.Some? ==> r.row.id.group == f.group.value)
    && (f.member.Some? ==> r.key.member == f.member.value)
  }

  /** What the group key says of a record, column by column. */
  ghost predicate Under(column: GroupBy, r: Record, g: string) {
    && (column == ByMember ==> r.key.member == g)
    && (column == ByRepo ==> r.key.repo == g)
    && (column == ByOrg ==> r.row.id.org == g)
    && (column == ByTeam ==> r.row.id.team == g)
    && (column == ByTag ==> r.row.id.tag == g)
    && (column == ByWeek ==> r.key.week == g)
    && (column == All ==> g == "all")
  }

  /** The filter in the loop's path drops everything on an empty week list. */
  lemma FilterExactly(f: Filters, r: Record)
    ensures RecordFilter(f)(r) <==> Wanted(f, r) && f.weeks != Some([])
    ensures WhereClause(f)(r) <==> Wanted(f, r)
  {
  }

  lemma KeyExactly(column: GroupBy, r: Record, g: string)
    ensures GroupKey(column)(r) == g <==> Under(column, r, g)
  {
  }

  lemma {:induction false} FilterTwice(rs: seq<Record>, p: Record -> bool, q: Record -> bool, both: Record -> bool)
    requires forall r :: both(r) <==> p(r) && q(r)
    ensures Filter(Filter(rs, p), q) == Filter(rs, both)
  {
    if rs != [] {
      var front, last := rs[..|rs| - 1], rs[|rs| - 1];
      FilterTwice(front, p, q, both);
      var kept := Filter(front, p);
      assert (kept + [last])[..|kept|] == kept;
    }
  }

  ghost function Chosen(f: Filters, column: GroupBy, g: string): Record -> bool {
    (r: Record) => Wanted(f, r) && Under(column, r, g)
  }

  /**
   * Every group of the query shows the sums over exactly the rows the filter wants and the group key
   * names, and there is one for each key such a row has. Without a row, `all` is the row of nulls.
   */
  lemma QuerySumsUp(rows: seq<Record>, f: Filters, column: GroupBy, g: string) returns (mine: seq<Record>)
    ensures IsGroup(mine, rows, Chosen(f, column, g))
    ensures var result := QueryRollup(rows, f, column);
            && (g in result <==> mine != [] || (column == All && g == "all"))
            && (g in result && mine == [] ==> result[g] == Nulls)
            && (mine != [] ==> result[g].Sums? && Shows(result[g].value, mine))
  {
    var selected := Filter(rows, WhereClause(f));
    hide *;
    mine := Filter(selected, InGroup(GroupKey(column), g));
    SameChoice(f, column, g);
    FilterTwice(rows, WhereClause(f), InGroup(GroupKey(column), g), Chosen(f, column, g));
    FilterIsGroup(rows, Chosen(f, column, g));
    GroupNonEmpty(selected, GroupKey(column), g);
    GroupsShow(mine);
    QueryAt(rows, f, column, g);
    if column == All { EveryKeyIsAll(selected, g); }
  }

  lemma QueryAt(rows: seq<Record>, f: Filters, column: GroupBy, g: string)
    ensures var result, selected := QueryRollup(rows, f, column), Filter(rows, WhereClause(f));
            if column == All && selected == [] then (g in result <==> g == "all") && (g in result ==> result[g] == Nulls)
            else
              && (g in result <==> g in Groups(selected, GroupKey(column)))
              && (g in result ==> result[g] == Sums(SqlGroup(Filter(selected, InGroup(GroupKey(column), g)))))
  {
    hide SqlGroup, Filter, Groups, WhereClause, GroupKey;
  }

  lemma SameChoice(f: Filters, column: GroupBy, g: string)
    ensures forall r :: Chosen(f, column, g)(r) <==> WhereClause(f)(r) && InGroup(GroupKey(column), g)(r)
  {
    forall r ensures Chosen(f, column, g)(r) <==> WhereClause(f)(r) && InGroup(GroupKey(column), g)(r) {
      FilterExactly(f, r);
      KeyExactly(column, r, g);
    }
  }

  lemma EveryKeyIsAll(selected: seq<Record>, g: string)
    ensures g in Groups(selected, GroupKey(All)) <==> selected != [] && g == "all"
  {
    if selected != [] { assert selected[0] in selected; }
  }
}
