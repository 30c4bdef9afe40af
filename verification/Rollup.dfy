/**
 * The two rollups: the loop of aggregator/engine.ts over loaded records and the aggregate query of
 * store/sqlite-store.ts over the rows of the table, in whatever order SQLite visits them.
 */
module Rollup {
  import opened Text
  import opened MapSums
  import opened WeekMask
  import opened Permutations
  import opened Measures
  import opened Records

  datatype RolledUp = RolledUp(
    commits: nat, insertions: nat, deletions: nat, netLines: int, filesChanged: nat, filesAdded: nat, filesDeleted: nat,
    activeDays: nat, activeMembers: nat, breakingChanges: nat, prsMergedGit: nat, prSizes: multiset<nat>,
    reworkLines: nat, reworkSelfLines: nat, filetype: Filetypes)

  /** The five categories added up. */
  function AllFiles(f: Filetypes): FileMetrics {
    f.app.Plus(f.test).Plus(f.config).Plus(f.storybook).Plus(f.doc)
  }

  function RowMeasure(r: Record): Measure {
    r.row.measure
  }

  function Totals(m: Measure, activeMembers: nat, activeDays: nat): RolledUp {
    var files := AllFiles(m.work.filetypes);
    RolledUp(m.work.commits, files.insertions, files.deletions, files.insertions - files.deletions,
             files.files, files.added, files.deleted, activeDays, activeMembers,
             m.work.breaking, m.post.prsMerged, m.post.prSizes, m.post.reworkLines, m.post.reworkSelfLines, m.work.filetypes)
  }

  // ---- Groups ----

  function InGroup(groupBy: Record -> string, g: string): Record -> bool {
    (r: Record) => groupBy(r) == g
  }

  ghost function Groups(rs: seq<Record>, groupBy: Record -> string): set<string> {
    set r | r in rs :: groupBy(r)
  }

  /** Members with commits; post-pass records carry none and make nobody active. */
  ghost function ActiveMembers(rs: seq<Record>): set<string> {
    set r | r in rs && r.row.measure.work.commits > 0 :: r.key.member
  }

  type MemberWeek = (string, string)

  function MemberWeekOf(r: Record): MemberWeek {
    (r.key.member, r.key.week)
  }

  ghost function MemberWeeks(rs: seq<Record>): set<MemberWeek> {
    set r | r in rs :: MemberWeekOf(r)
  }

  // ---- The loop ----

  datatype Tracker = Tracker(mask: Mask, legacyDays: nat)

  function Track(t: Tracker, r: Record): Tracker {
    if r.row.measure.mask != NO_DAYS then t.(mask := t.mask.Or(r.row.measure.mask))
    else t.(legacyDays := t.legacyDays + r.row.activeDays)
  }

  function TrackerAt(rs: seq<Record>, mw: MemberWeek): Tracker {
    if rs == [] then Tracker(NO_DAYS, 0)
    else
      var front, last := TrackerAt(rs[..|rs| - 1], mw), rs[|rs| - 1];
      if MemberWeekOf(last) == mw then Track(front, last) else front
  }

  ghost function TrackersOf(rs: seq<Record>): map<MemberWeek, Tracker> {
    map mw | mw in MemberWeeks(rs) :: TrackerAt(rs, mw)
  }

  /** popcount(mask) + legacy count, capped at seven. */
  function TrackerDays(t: Tracker): nat {
    Min(t.mask.Popcount() + t.legacyDays, 7)
  }

  ghost function DaysOf(trackers: map<MemberWeek, Tracker>): nat {
    SumValues(map mw | mw in trackers :: TrackerDays(trackers[mw]))
  }

  ghost function RolledGroup(rs: seq<Record>): RolledUp {
    Totals(SumOf(rs, RowMeasure), |ActiveMembers(rs)|, DaysOf(TrackersOf(rs)))
  }

  ghost function RollupOf(rs: seq<Record>, groupBy: Record -> string): map<string, RolledUp> {
    map g | g in Groups(rs, groupBy) :: RolledGroup(Filter(rs, InGroup(groupBy, g)))
  }

  /** What one group has accumulated after some of its records; `activeDays` waits for the final pass. */
  ghost function Accumulated(rs: seq<Record>): RolledUp {
    Totals(SumOf(rs, RowMeasure), |ActiveMembers(rs)|, 0)
  }

  /** `emptyRolledUp`: all counters zero. */
  function EmptyRolledUp(): RolledUp {
    Totals(NOTHING, 0, 0)
  }

  lemma NobodyActive()
    ensures ActiveMembers([]) == {}
  {
  }

  lemma NothingTracked()
    ensures TrackersOf([]) == map[]
  {
  }

  /** `agg` with one record's counters added and its derived totals recomputed. */
  method AddRecord(agg: RolledUp, r: Record, members: set<string>, ghost m: Measure, ghost n: nat) returns (next: RolledUp)
    requires agg == Totals(m, n, 0)
    ensures next == Totals(m.Join(r.row.measure), |members|, 0)
  {
    var work, post := r.row.measure.work, r.row.measure.post;
    var filetype := agg.filetype.Plus(work.filetypes);
    var all := AllFiles(filetype);
    next := agg.(
      commits := agg.commits + work.commits,
      breakingChanges := agg.breakingChanges + work.breaking,
      prsMergedGit := agg.prsMergedGit + post.prsMerged,
      prSizes := agg.prSizes + post.prSizes,
      reworkLines := agg.reworkLines + post.reworkLines,
      reworkSelfLines := agg.reworkSelfLines + post.reworkSelfLines,
      filetype := filetype,
      insertions := all.insertions, deletions := all.deletions, filesChanged := all.files,
      filesAdded := all.added, filesDeleted := all.deleted,
      netLines := all.insertions - all.deletions,
      activeMembers := |members|);
    hide AllFiles, Filetypes.Plus;
  }

  ghost predicate GroupAgrees(rs: seq<Record>, g: string, groupBy: Record -> string, result: map<string, RolledUp>,
                              memberSets: map<string, set<string>>, dayTrackers: map<string, map<MemberWeek, Tracker>>)
  {
    var mine := Filter(rs, InGroup(groupBy, g));
    if g in result
    then g in memberSets && g in dayTrackers && mine != []
         && result[g] == Accumulated(mine) && memberSets[g] == ActiveMembers(mine) && dayTrackers[g] == TrackersOf(mine)
    else g !in memberSets && g !in dayTrackers && mine == []
  }

  /** `rollup`. */
  method RollUp(records: seq<Record>, groupBy: Record -> string) returns (result: map<string, RolledUp>)
    ensures result == RollupOf(records, groupBy)
  {
    hide GroupAgrees, Filter, Accumulated, TrackersOf, ActiveMembers, RollupOf, EmptyRolledUp;
    result := map[];
    var memberSets: map<string, set<string>> := map[];
    var dayTrackers: map<string, map<MemberWeek, Tracker>> := map[];
    NoGroups(groupBy);
    for i := 0 to |records|
      invariant forall g {:trigger GroupAgrees(records[..i], g, groupBy, result, memberSets, dayTrackers)} ::
        GroupAgrees(records[..i], g, groupBy, result, memberSets, dayTrackers)
    {
      var r := records[i];
      var key := groupBy(r);
      CurrentGroup(records[..i], key, groupBy, result, memberSets, dayTrackers);
      var agg := if key in result then result[key] else EmptyRolledUp();
      var members := if key in result then memberSets[key] else {};
      var trackers := if key in result then dayTrackers[key] else map[];
      agg, members, trackers := RollIn(agg, members, trackers, r, Filter(records[..i], InGroup(groupBy, key)));
      GroupsAgree(records[..i], r, groupBy, result, memberSets, dayTrackers, agg, members, trackers);
      assert records[..i + 1] == records[..i] + [r];
      result, memberSets, dayTrackers := result[key := agg], memberSets[key := members], dayTrackers[key := trackers];
    }
    assert records[..|records|] == records;
    result := FinishDays(records, groupBy, result, memberSets, dayTrackers);
  }

  lemma NoGroups(groupBy: Record -> string)
    ensures forall g {:trigger GroupAgrees([], g, groupBy, map[], map[], map[])} :: GroupAgrees([], g, groupBy, map[], map[], map[])
  {
  }

  lemma CurrentGroup(front: seq<Record>, key: string, groupBy: Record -> string, result: map<string, RolledUp>,
                     memberSets: map<string, set<string>>, dayTrackers: map<string, map<MemberWeek, Tracker>>)
    requires GroupAgrees(front, key, groupBy, result, memberSets, dayTrackers)
    ensures var mine := Filter(front, InGroup(groupBy, key));
            && (key in result ==> key in memberSets && key in dayTrackers)
            && (if key in result then result[key] else EmptyRolledUp()) == Accumulated(mine)
            && (if key in result then memberSets[key] else {}) == ActiveMembers(mine)
            && (if key in result then dayTrackers[key] else map[]) == TrackersOf(mine)
  {
    hide Totals, RowMeasure, NOTHING, AllFiles, TrackersOf, ActiveMembers, Filter;
    NobodyActive();
    NothingTracked();
  }

  /** One turn of the loop for the record's own group. */
  method RollIn(agg: RolledUp, members: set<string>, trackers: map<MemberWeek, Tracker>, r: Record, ghost front: seq<Record>)
    returns (agg': RolledUp, members': set<string>, trackers': map<MemberWeek, Tracker>)
    requires agg == Accumulated(front) && members == ActiveMembers(front) && trackers == TrackersOf(front)
    ensures agg' == Accumulated(front + [r]) && members' == ActiveMembers(front + [r]) && trackers' == TrackersOf(front + [r])
  {
    hide ActiveMembers, TrackersOf, Totals, Measure.Join, Mask.Or, SumOf;
    ActiveMembersStep(front, r);
    TrackersStep(front, r);
    AccumulatedStep(front, r);
    members' := if r.row.measure.work.commits > 0 then members + {r.key.member} else members;
    var memberWeek := MemberWeekOf(r);
    var tracker := if memberWeek in trackers then trackers[memberWeek] else Tracker(NO_DAYS, 0);
    if r.row.measure.mask != NO_DAYS {
      tracker := tracker.(mask := tracker.mask.Or(r.row.measure.mask));
    } else {
      tracker := tracker.(legacyDays := tracker.legacyDays + r.row.activeDays);
    }
    trackers' := trackers[memberWeek := tracker];
    agg' := AddRecord(agg, r, members', SumOf(front, RowMeasure), |ActiveMembers(front)|);
  }

  lemma AccumulatedStep(front: seq<Record>, r: Record)
    ensures Accumulated(front + [r])
         == Totals(SumOf(front, RowMeasure).Join(r.row.measure), |ActiveMembers(front + [r])|, 0)
  {
    hide Totals, Measure.Join, ActiveMembers;
    assert (front + [r])[..|front|] == front;
  }

  lemma GroupsAgree(front: seq<Record>, r: Record, groupBy: Record -> string, result: map<string, RolledUp>,
                    memberSets: map<string, set<string>>, dayTrackers: map<string, map<MemberWeek, Tracker>>,
                    agg: RolledUp, members: set<string>, trackers: map<MemberWeek, Tracker>)
    requires forall g {:trigger GroupAgrees(front, g, groupBy, result, memberSets, dayTrackers)} ::
               GroupAgrees(front, g, groupBy, result, memberSets, dayTrackers)
    requires var mine := Filter(front, InGroup(groupBy, groupBy(r))) + [r];
             agg == Accumulated(mine) && members == ActiveMembers(mine) && trackers == TrackersOf(mine)
    ensures var key := groupBy(r);
            forall g {:trigger GroupAgrees(front + [r], g, groupBy, result[key := agg], memberSets[key := members], dayTrackers[key := trackers])} ::
              GroupAgrees(front + [r], g, groupBy, result[key := agg], memberSets[key := members], dayTrackers[key := trackers])
  {
    hide Filter, Accumulated, TrackersOf, ActiveMembers;
    var key := groupBy(r);
    forall g {:trigger GroupAgrees(front + [r], g, groupBy, result[key := agg], memberSets[key := members], dayTrackers[key := trackers])}
      ensures GroupAgrees(front + [r], g, groupBy, result[key := agg], memberSets[key := members], dayTrackers[key := trackers])
    {
      assert GroupAgrees(front, g, groupBy, result, memberSets, dayTrackers);
      MatchingStep(front, r, InGroup(groupBy, g));
    }
  }

  lemma MatchingStep(front: seq<Record>, last: Record, p: Record -> bool)
    ensures Filter(front + [last], p) == if p(last) then Filter(front, p) + [last] else Filter(front, p)
  {
    assert (front + [last])[..|front|] == front;
  }

  lemma ActiveMembersStep(front: seq<Record>, r: Record)
    ensures ActiveMembers(front + [r])
         == if r.row.measure.work.commits > 0 then ActiveMembers(front) + {r.key.member} else ActiveMembers(front)
  {
    assert forall x :: x in front + [r] <==> x in front || x == r;
  }

  lemma TrackersStep(front: seq<Record>, r: Record)
    ensures TrackersOf(front + [r]) == TrackersOf(front)[MemberWeekOf(r) :=
              Track(if MemberWeekOf(r) in TrackersOf(front) then TrackersOf(front)[MemberWeekOf(r)] else Tracker(NO_DAYS, 0), r)]
  {
    var all := front + [r];
    assert all[..|front|] == front;
    hide Track;
    assert forall x :: x in all <==> x in front || x == r;
    assert MemberWeeks(all) == MemberWeeks(front) + {MemberWeekOf(r)};
    if MemberWeekOf(r) !in MemberWeeks(front) { UntrackedYet(front, MemberWeekOf(r)); }
  }

  lemma {:induction false} UntrackedYet(rs: seq<Record>, mw: MemberWeek)
    requires mw !in MemberWeeks(rs)
    ensures TrackerAt(rs, mw) == Tracker(NO_DAYS, 0)
  {
    if rs != [] {
      var front, last := rs[..|rs| - 1], rs[|rs| - 1];
      assert last in rs && forall r :: r in front ==> r in rs;
      assert MemberWeekOf(last) in MemberWeeks(rs);
      UntrackedYet(front, mw);
    }
  }

  /** The closing loop over the day trackers. */
  method FinishDays(ghost records: seq<Record>, ghost groupBy: Record -> string, partial: map<string, RolledUp>,
                    ghost memberSets: map<string, set<string>>, dayTrackers: map<string, map<MemberWeek, Tracker>>)
    returns (result: map<string, RolledUp>)
    requires forall g {:trigger GroupAgrees(records, g, groupBy, partial, memberSets, dayTrackers)} ::
               GroupAgrees(records, g, groupBy, partial, memberSets, dayTrackers)
    ensures result == RollupOf(records, groupBy)
  {
    hide RolledGroup, Filter, GroupAgrees, Groups, DaysOf;
    PartialGroups(records, groupBy, partial, memberSets, dayTrackers);
    result := partial;
    var rest := dayTrackers.Keys;
    while rest != {}
      invariant rest <= dayTrackers.Keys && result.Keys == dayTrackers.Keys
      invariant forall g :: g in result ==>
        result[g] == if g in rest then partial[g] else RolledGroup(Filter(records, InGroup(groupBy, g)))
      decreases |rest|
    {
      var key :| key in rest;
      var days := SumDays(dayTrackers[key]);
      result, rest := result[key := result[key].(activeDays := days)], rest - {key};
    }
  }

  lemma PartialGroups(records: seq<Record>, groupBy: Record -> string, partial: map<string, RolledUp>,
                      memberSets: map<string, set<string>>, dayTrackers: map<string, map<MemberWeek, Tracker>>)
    requires forall g {:trigger GroupAgrees(records, g, groupBy, partial, memberSets, dayTrackers)} ::
               GroupAgrees(records, g, groupBy, partial, memberSets, dayTrackers)
    ensures partial.Keys == dayTrackers.Keys == Groups(records, groupBy)
    ensures forall g :: g in partial ==>
              partial[g].(activeDays := DaysOf(dayTrackers[g])) == RolledGroup(Filter(records, InGroup(groupBy, g)))
  {
    hide Filter, RolledGroup, Accumulated, DaysOf, TrackersOf, Groups, ActiveMembers;
    forall g
      ensures g in partial <==> g in dayTrackers
      ensures g in partial <==> g in Groups(records, groupBy)
      ensures g in partial ==>
                partial[g].(activeDays := DaysOf(dayTrackers[g])) == RolledGroup(Filter(records, InGroup(groupBy, g)))
    {
      assert GroupAgrees(records, g, groupBy, partial, memberSets, dayTrackers);
      GroupNonEmpty(records, groupBy, g);
      ActiveDaysLast(Filter(records, InGroup(groupBy, g)));
    }
  }

  lemma ActiveDaysLast(rs: seq<Record>)
    ensures RolledGroup(rs) == Accumulated(rs).(activeDays := DaysOf(TrackersOf(rs)))
  {
    hide ActiveMembers, TrackersOf, DaysOf, Totals, SumOf, RowMeasure;
    DaysApart(SumOf(rs, RowMeasure), |ActiveMembers(rs)|, DaysOf(TrackersOf(rs)));
  }

  lemma DaysApart(m: Measure, active: nat, days: nat)
    ensures Totals(m, active, days) == Totals(m, active, 0).(activeDays := days)
  {
    hide AllFiles;
  }

  lemma GroupNonEmpty(rs: seq<Record>, groupBy: Record -> string, g: string)
    ensures Filter(rs, InGroup(groupBy, g)) != [] <==> g in Groups(rs, groupBy)
  {
    var mine := Filter(rs, InGroup(groupBy, g));
    if mine != [] { MatchingMember(rs, InGroup(groupBy, g), mine[0]); }
    if r :| r in rs && groupBy(r) == g { MatchingMember(rs, InGroup(groupBy, g), r); }
  }

  method SumDays(trackers: map<MemberWeek, Tracker>) returns (days: nat)
    ensures days == DaysOf(trackers)
  {
    hide TrackerDays, Mask.Popcount, DaysOf, SumValues;
    days := 0;
    ghost var summed: map<MemberWeek, nat> := map[];
    NoDaysYet();
    var rest := trackers.Keys;
    while rest != {}
      invariant rest <= trackers.Keys
      invariant summed == map mw | mw in trackers.Keys - rest :: TrackerDays(trackers[mw])
      invariant days == SumValues(summed)
      decreases |rest|
    {
      var mw :| mw in rest;
      var bits := PopcountLoop(trackers[mw].mask);
      SumWrite(summed, mw, TrackerDays(trackers[mw]));
      OneTracker(trackers[mw]);
      days := days + Min(bits + trackers[mw].legacyDays, 7);
      summed, rest := summed[mw := TrackerDays(trackers[mw])], rest - {mw};
    }
    AllDaysSummed(trackers, summed);
  }

  lemma NoDaysYet()
    ensures SumValues<MemberWeek>(map[]) == 0
  {
  }

  lemma OneTracker(t: Tracker)
    ensures TrackerDays(t) == Min(t.mask.Popcount() + t.legacyDays, 7)
  {
  }

  lemma AllDaysSummed(trackers: map<MemberWeek, Tracker>, summed: map<MemberWeek, nat>)
    requires summed == map mw | mw in trackers :: TrackerDays(trackers[mw])
    ensures DaysOf(trackers) == SumValues(summed)
  {
    hide SumValues, TrackerDays;
  }

  // ---- The query ----

  datatype Filters = Filters(
    weeks: Option<seq<string>>, org: Option<string>, team: Option<string>, tag: Option<string>,
    group: Option<string>, member: Option<string>)

  datatype GroupBy = ByMember | ByRepo | ByOrg | ByTeam | ByTag | ByWeek | All

  function GroupKey(column: GroupBy): Record -> string {
    (r: Record) =>
      match column
      case ByMember => r.key.member
      case ByRepo => r.key.repo
      case ByOrg => r.row.id.org
      case ByTeam => r.row.id.team
      case ByTag => r.row.id.tag
      case ByWeek => r.key.week
      case All => "all"
  }

  predicate Is(wanted: Option<string>, actual: string) {
    wanted.None? || wanted.value == actual
  }

  predicate MatchesColumns(f: Filters, r: Record) {
    && Is(f.org, r.row.id.org) && Is(f.team, r.row.id.team) && Is(f.tag, r.row.id.tag)
    && Is(f.group, r.row.id.group) && Is(f.member, r.key.member)
  }

  /** `filterRecords`: an empty week list matches nothing. */
  function RecordFilter(f: Filters): Record -> bool {
    (r: Record) => (f.weeks.None? || r.key.week in f.weeks.value) && MatchesColumns(f, r)
  }

  /** The `WHERE` clause: an empty week list adds no condition. */
  function WhereClause(f: Filters): Record -> bool {
    (r: Record) => (f.weeks.None? || f.weeks.value == [] || r.key.week in f.weeks.value) && MatchesColumns(f, r)
  }

  /** `MAX((active_day_mask >> i) & 1)` over the rows of one member-week. */
  ghost predicate MaxBit(rs: seq<Record>, mw: MemberWeek, i: nat) {
    exists r :: r in rs && MemberWeekOf(r) == mw && r.row.measure.mask.Has(i)
  }

  /** `CASE WHEN active_day_mask = 0 THEN active_days ELSE 0 END`. */
  function LegacyDays(mw: MemberWeek): Record -> nat {
    (r: Record) => if MemberWeekOf(r) == mw && r.row.measure.mask == NO_DAYS then r.row.activeDays else 0
  }

  /** The seven MAX columns of one member-week. */
  ghost function MaxBits(rs: seq<Record>, mw: MemberWeek): Mask {
    Mask(MaxBit(rs, mw, 0), MaxBit(rs, mw, 1), MaxBit(rs, mw, 2), MaxBit(rs, mw, 3),
         MaxBit(rs, mw, 4), MaxBit(rs, mw, 5), MaxBit(rs, mw, 6))
  }

  /** One row of the inner `SELECT … GROUP BY member, week`: the MAX columns added up, plus the legacy sum. */
  ghost function SqlDays(rs: seq<Record>, mw: MemberWeek): nat {
    Min(MaxBits(rs, mw).Popcount() + SumNat(rs, LegacyDays(mw)), 7)
  }

  /** An aggregate without `GROUP BY` yields one row even for no input, its sums all NULL. */
  datatype SqlRow = Nulls | Sums(value: RolledUp)

  ghost function SqlGroup(rs: seq<Record>): RolledUp {
    Totals(SumOf(rs, RowMeasure), |ActiveMembers(rs)|, SumValues(map mw | mw in MemberWeeks(rs) :: SqlDays(rs, mw)))
  }

  ghost function QueryRollup(rows: seq<Record>, f: Filters, column: GroupBy): map<string, SqlRow> {
    var selected := Filter(rows, WhereClause(f));
    if column == All && selected == [] then map["all" := Nulls]
    else map g | g in Groups(selected, GroupKey(column)) :: Sums(SqlGroup(Filter(selected, InGroup(GroupKey(column), g))))
  }

  // ---- They agree ----

  lemma {:induction false} TrackedBits(rs: seq<Record>, mw: MemberWeek, i: nat)
    ensures TrackerAt(rs, mw).mask.Has(i) <==> MaxBit(rs, mw, i)
  {
    if rs != [] {
      var front, last := rs[..|rs| - 1], rs[|rs| - 1];
      TrackedBits(front, mw, i);
      OrHas(TrackerAt(front, mw).mask, last.row.measure.mask, i);
      MaxBitStep(front, last, mw, i);
      assert rs == front + [last];
      hide Mask.Or, Mask.Has, MaxBit;
      NoDaysHasNone(i);
    }
  }

  lemma NoDaysHasNone(i: nat)
    ensures !NO_DAYS.Has(i)
  {
  }

  lemma MaxBitStep(front: seq<Record>, last: Record, mw: MemberWeek, i: nat)
    ensures MaxBit(front + [last], mw, i) <==> MaxBit(front, mw, i) || (MemberWeekOf(last) == mw && last.row.measure.mask.Has(i))
  {
    var all := front + [last];
    assert forall r :: r in all <==> r in front || r == last;
  }

  lemma {:induction false} TrackedLegacy(rs: seq<Record>, mw: MemberWeek)
    ensures TrackerAt(rs, mw).legacyDays == SumNat(rs, LegacyDays(mw))
  {
    hide Mask.Or;
    if rs != [] { TrackedLegacy(rs[..|rs| - 1], mw); }
  }

  /** The day count of one member-week: MAX per bit plus legacy sum is popcount of the OR plus legacy sum. */
  lemma SameDays(a: seq<Record>, b: seq<Record>, mw: MemberWeek)
    requires multiset(a) == multiset(b)
    ensures TrackerDays(TrackerAt(a, mw)) == SqlDays(b, mw)
  {
    SameElements(a, b);
    TrackedMask(a, mw);
    TrackedLegacy(a, mw);
    SumNatPermutes(a, b, LegacyDays(mw));
    hide TrackerAt, SumNat, Mask.Popcount;
    assert forall i :: MaxBit(a, mw, i) == MaxBit(b, mw, i);
  }

  lemma TrackedMask(rs: seq<Record>, mw: MemberWeek)
    ensures TrackerAt(rs, mw).mask == MaxBits(rs, mw)
  {
    hide MaxBit, TrackerAt;
    TrackedBits(rs, mw, 0);
    TrackedBits(rs, mw, 1);
    TrackedBits(rs, mw, 2);
    TrackedBits(rs, mw, 3);
    TrackedBits(rs, mw, 4);
    TrackedBits(rs, mw, 5);
    TrackedBits(rs, mw, 6);
  }

  lemma SameGroup(a: seq<Record>, b: seq<Record>)
    requires multiset(a) == multiset(b)
    ensures RolledGroup(a) == SqlGroup(b)
  {
    hide TrackerDays, SqlDays, TrackerAt, Totals;
    SameElements(a, b);
    SumOfPermutes(a, b, RowMeasure);
    assert ActiveMembers(a) == ActiveMembers(b);
    assert MemberWeeks(a) == MemberWeeks(b);
    forall mw | mw in MemberWeeks(a)
      ensures TrackerDays(TrackersOf(a)[mw]) == SqlDays(b, mw)
    {
      SameDays(a, b, mw);
    }
    var trackers := TrackersOf(a);
    assert (map mw | mw in trackers :: TrackerDays(trackers[mw])) == map mw | mw in MemberWeeks(b) :: SqlDays(b, mw);
  }

  lemma {:induction false} MatchingCongruence(rs: seq<Record>, p: Record -> bool, q: Record -> bool)
    requires forall r :: r in rs ==> p(r) == q(r)
    ensures Filter(rs, p) == Filter(rs, q)
  {
    if rs != [] { MatchingCongruence(rs[..|rs| - 1], p, q); }
  }

  ghost function AsSums(m: map<string, RolledUp>): map<string, SqlRow> {
    map g | g in m :: Sums(m[g])
  }

  /** When both paths select the same rows and there are some, the loop over the filtered records and the query give equal results. */
  lemma SameSelection(records: seq<Record>, rows: seq<Record>, f: Filters, column: GroupBy)
    requires multiset(records) == multiset(rows)
    requires forall r :: r in records ==> RecordFilter(f)(r) == WhereClause(f)(r)
    requires column == All ==> Filter(rows, WhereClause(f)) != []
    ensures AsSums(RollupOf(Filter(records, RecordFilter(f)), GroupKey(column))) == QueryRollup(rows, f, column)
  {
    hide RolledGroup, SqlGroup, WhereClause, RecordFilter, GroupKey;
    MatchingCongruence(records, RecordFilter(f), WhereClause(f));
    var a, b := Filter(records, WhereClause(f)), Filter(rows, WhereClause(f));
    FilterPermutes(records, rows, WhereClause(f));
    SameElements(a, b);
    assert Groups(a, GroupKey(column)) == Groups(b, GroupKey(column));
    forall g | g in Groups(a, GroupKey(column))
      ensures RolledGroup(Filter(a, InGroup(GroupKey(column), g))) == SqlGroup(Filter(b, InGroup(GroupKey(column), g)))
    {
      FilterPermutes(a, b, InGroup(GroupKey(column), g));
      SameGroup(Filter(a, InGroup(GroupKey(column), g)), Filter(b, InGroup(GroupKey(column), g)));
    }
  }

  lemma {:induction false} MatchingMember(rs: seq<Record>, p: Record -> bool, r: Record)
    ensures r in Filter(rs, p) <==> r in rs && p(r)
  {
    if rs != [] {
      MatchingMember(rs[..|rs| - 1], p, r);
      assert rs == rs[..|rs| - 1] + [rs[|rs| - 1]];
    }
  }

  /**
   * The query equals filter-then-loop exactly when its own selection is non-empty and the week list is not
   * the empty list, or the selection is empty and the grouping is not `all`.
   */
  lemma RollupsAgree(records: seq<Record>, rows: seq<Record>, f: Filters, column: GroupBy)
    requires multiset(records) == multiset(rows)
    ensures AsSums(RollupOf(Filter(records, RecordFilter(f)), GroupKey(column))) == QueryRollup(rows, f, column)
       <==> (if Filter(rows, WhereClause(f)) == [] then column != All else f.weeks != Some([]))
  {
    var selected := Filter(rows, WhereClause(f));
    SameElements(records, rows);
    if selected == [] {
      forall r | r in records ensures !WhereClause(f)(r) { MatchingMember(rows, WhereClause(f), r); }
      if column == All {
        NothingFiltered(records, f);
        assert "all" in QueryRollup(rows, f, column);
      } else {
        SameSelection(records, rows, f, column);
      }
    } else if f.weeks == Some([]) {
      NothingFiltered(records, f);
      var r := selected[0];
      assert GroupKey(column)(r) in QueryRollup(rows, f, column);
    } else {
      SameSelection(records, rows, f, column);
    }
  }

  lemma NothingFiltered(records: seq<Record>, f: Filters)
    requires forall r :: r in records ==> !RecordFilter(f)(r)
    ensures forall column :: AsSums(RollupOf(Filter(records, RecordFilter(f)), GroupKey(column))) == map[]
  {
    var filtered := Filter(records, RecordFilter(f));
    if filtered != [] {
      MatchingMember(records, RecordFilter(f), filtered[0]);
    }
  }
}
