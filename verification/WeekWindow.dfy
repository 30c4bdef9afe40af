/** The n-week windows of aggregator/filters.ts, aggregator/trends.ts and aggregator/scorecard.ts, on a UTC host. */
module WeekWindow {
  import opened Calendar
  import opened Text
  import opened IsoWeek

  /** The weeks of n consecutive Mondays ending at `monday`, oldest first. */
  function LastWeeks(monday: int, n: nat): (weeks: seq<string>)
    ensures |weeks| == n
  {
    seq(n, (k: int) => DateToISOWeek(monday - 7 * (n - 1 - k)))
  }

  method GetLastNWeeks(n: int, fromWeek: string) returns (r: Result<seq<string>>)
    ensures r.Ok? <==> WeekShaped(fromWeek)
    ensures r.Ok? ==> r.value == LastWeeks(IsoWeekToMonday(fromWeek).value, if n < 0 then 0 else n)
  {
    hide DateToISOWeek, MondayOf;
    var ref := IsoWeekToMonday(fromWeek);
    if ref.Err? {
      return Err(ref.error);
    }
    var weeks := [];
    var i := n - 1;
    while i >= 0
      invariant -1 <= i || n < 0
      invariant |weeks| == if n < 0 then 0 else n - 1 - i
      invariant forall k :: 0 <= k < |weeks| ==> weeks[k] == DateToISOWeek(ref.value - 7 * (n - 1 - k))
    {
      weeks := weeks + [DateToISOWeek(ref.value - i * 7)];
      i := i - 1;
    }
    return Ok(weeks);
  }

  method BuildWeekWindow(currentWeek: string, windowWeeks: nat) returns (r: Result<set<string>>)
    ensures r.Ok? <==> WeekShaped(currentWeek)
    ensures r.Ok? ==> r.value == set s | s in LastWeeks(IsoWeekToMonday(currentWeek).value, windowWeeks)
  {
    hide DateToISOWeek, MondayOf;
    var current := IsoWeekToMonday(currentWeek);
    if current.Err? {
      return Err(current.error);
    }
    var weeks := {};
    ghost var expected := LastWeeks(current.value, windowWeeks);
    for i := 0 to windowWeeks
      invariant weeks == set k | windowWeeks - i <= k < windowWeeks :: expected[k]
    {
      weeks := weeks + {DateToISOWeek(current.value - i * 7)};
      assert DateToISOWeek(current.value - i * 7) == expected[windowWeeks - 1 - i];
    }
    return Ok(weeks);
  }

  ghost predicate WindowInRange(monday: int, n: nat) {
    forall j: nat :: j < n ==> InRange(monday - 7 * j)
  }

  /**
   * The window is the n consecutive weeks that end with the given one: strictly ordered, hence
   * distinct, and holding the week of a date exactly when the date is in the 7n days.
   */
  lemma WindowIsConsecutive(w: Week, n: nat, day: int)
    requires w.Valid() && WindowInRange(MondayOf(w), n) && InRange(day)
    ensures var weeks := LastWeeks(MondayOf(w), n);
            && (n > 0 ==> weeks[n - 1] == Format(w))
            && (forall i, j :: 0 <= i < j < n ==> LexLess(weeks[i], weeks[j]) && weeks[i] != weeks[j])
            && (DateToISOWeek(day) in weeks <==> MondayOf(w) - 7 * (n - 1) <= day < MondayOf(w) + 7)
  {
    hide DateToISOWeek, WeekOf, MondayOf, MondayOnOrBefore, WeeksIn, LexLess, Format, DayNumber, Regular;
    var monday, weeks := MondayOf(w), LastWeeks(MondayOf(w), n);
    WeekOfMonday(w, 0);
    RegularDates(monday);
    RegularWeek(monday);
    MondayIsMonday(w);
    forall i, j | 0 <= i < j < n
      ensures LexLess(weeks[i], weeks[j]) && weeks[i] != weeks[j]
    {
      WindowOrder(monday, n, i, j);
    }
    if monday - 7 * (n - 1) <= day < monday + 7 {
      var k := (day - (monday - 7 * (n - 1))) / 7;
      WindowEntry(monday, n, k, day);
      assert weeks[k] in weeks;
    }
    forall k | 0 <= k < n && weeks[k] == DateToISOWeek(day)
      ensures monday - 7 * (n - 1) <= day < monday + 7
    {
      WindowEntry(monday, n, k, day);
    }
  }

  lemma WindowOrder(monday: int, n: nat, i: int, j: int)
    requires DayNumber(monday) == 1 && WindowInRange(monday, n) && 0 <= i < j < n
    ensures LexLess(LastWeeks(monday, n)[i], LastWeeks(monday, n)[j])
    ensures LastWeeks(monday, n)[i] != LastWeeks(monday, n)[j]
  {
    hide DateToISOWeek, WeekOf, MondayOf, MondayOnOrBefore, DayNumber, LexLess;
    var a, b := monday - 7 * (n - 1 - i), monday - 7 * (n - 1 - j);
    assert InRange(a) && InRange(b);
    WindowEntry(monday, n, i, a);
    WindowEntry(monday, n, j, b);
    StringOrderIsDateOrder(a, b);
    LexLessAsymmetric(DateToISOWeek(a), DateToISOWeek(b));
  }

  /** Entry k is the week of a date exactly when the date is in that week's seven days. */
  lemma WindowEntry(monday: int, n: nat, k: int, day: int)
    requires DayNumber(monday) == 1 && WindowInRange(monday, n) && 0 <= k < n && InRange(day)
    ensures var start := monday - 7 * (n - 1 - k);
            && MondayOf(WeekOf(start)) == start
            && MondayOf(WeekOf(day)) == MondayOnOrBefore(day)
            && (LastWeeks(monday, n)[k] == DateToISOWeek(day) <==> start <= day < start + 7)
  {
    hide DateToISOWeek, WeekOf, MondayOf, MondayOnOrBefore, DayNumber, InRange;
    var start := monday - 7 * (n - 1 - k);
    assert InRange(start) && DayNumber(start) == 1 by { WeeksEarlier(monday, n - 1 - k); }
    MondayOfWeekOf(start);
    MondayOfWeekOf(day);
    StringOrderIsDateOrder(start, day);
    MondayBlocks(start, day);
  }

  lemma WeeksEarlier(monday: int, m: int)
    requires DayNumber(monday) == 1
    ensures DayNumber(monday - 7 * m) == 1
  {
  }

  lemma MondayBlocks(monday: int, day: int)
    requires DayNumber(monday) == 1
    ensures MondayOnOrBefore(monday) == monday
    ensures MondayOnOrBefore(day) == monday <==> monday <= day < monday + 7
  {
    MondaysApart(monday, MondayOnOrBefore(day));
  }

  /** `computeScorecard`: the current window and, before it, the baseline of the same length. */
  method ScorecardWindows(windowWeeks: nat, currentWeek: string) returns (window: seq<string>, baseline: seq<string>)
    requires WeekShaped(currentWeek)
    ensures baseline + window == LastWeeks(IsoWeekToMonday(currentWeek).value, 2 * windowWeeks)
    ensures |window| == |baseline| == windowWeeks
  {
    var w := GetLastNWeeks(windowWeeks, currentWeek);
    var b := GetLastNWeeks(windowWeeks * 2, currentWeek);
    window, baseline := w.value, b.value[..windowWeeks];
  }

  /** Window and baseline partition the last 2n weeks. */
  lemma WindowsPartition(w: Week, n: nat, window: seq<string>, baseline: seq<string>)
    requires w.Valid() && WindowInRange(MondayOf(w), 2 * n)
    requires baseline + window == LastWeeks(MondayOf(w), 2 * n) && |window| == |baseline| == n
    ensures (set s | s in window) !! (set s | s in baseline)
    ensures (set s | s in window) + (set s | s in baseline) == set s | s in LastWeeks(MondayOf(w), 2 * n)
    ensures |set s | s in window| == |set s | s in baseline| == n
  {
    hide LastWeeks, DateToISOWeek, WeekOf, MondayOf, WeeksIn;
    assert Distinct(baseline + window) by {
      WeekOfMonday(w, 0);
      WindowIsConsecutive(w, 2 * n, MondayOf(w));
    }
    SplitDistinct(baseline, window);
  }

  ghost predicate Distinct(s: seq<string>) {
    forall i, j :: 0 <= i < j < |s| ==> s[i] != s[j]
  }

  lemma SplitDistinct(a: seq<string>, b: seq<string>)
    requires Distinct(a + b)
    ensures (set s | s in a) !! (set s | s in b)
    ensures (set s | s in b) + (set s | s in a) == set s | s in a + b
    ensures |set s | s in a| == |a| && |set s | s in b| == |b|
  {
    assert forall i :: 0 <= i < |a| ==> a[i] == (a + b)[i];
    assert forall i :: 0 <= i < |b| ==> b[i] == (a + b)[|a| + i];
    DistinctCount(a);
    DistinctCount(b);
  }

  lemma {:induction false} DistinctCount(s: seq<string>)
    requires Distinct(s)
    ensures |set x | x in s| == |s|
  {
    if s != [] {
      var front := s[..|s| - 1];
      DistinctCount(front);
      assert (set x | x in s) == (set x | x in front) + {s[|s| - 1]};
    }
  }
}
