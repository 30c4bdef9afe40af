/** The ranges of a first scan, collector/git.ts `generateDateChunks` and `buildScanRanges`; instants are UTC milliseconds. */
module DateChunks {
  import opened Calendar
  import opened Text

  // ---- Months ----

  function LengthIn(year: int, m: nat): (n: int)
    requires m < 12
    ensures 28 <= n <= 31
  {
    if m == 1 then (if IsLeap(year) then 29 else 28) else if m in {3, 5, 8, 10} then 30 else 31
  }

  /** Days of the year before its month m. */
  function DaysBefore(year: int, m: nat): int
    requires m <= 12
  {
    if m == 0 then 0 else DaysBefore(year, m - 1) + LengthIn(year, m - 1)
  }

  /** Months are numbered `12 * year + month`, with months counted from 0. */
  function MonthLength(i: int): (n: int)
    ensures 28 <= n <= 31
  {
    LengthIn(i / 12, i % 12)
  }

  /** First day of a month. */
  function MonthStart(i: int): int {
    Jan1(i / 12) + DaysBefore(i / 12, i % 12)
  }

  const FIRST_DAYS: seq<int> := [0, 31, 59, 90, 120, 151, 181, 212, 243, 273, 304, 334]

  /** The days before each month, as in section 21.4.1.4 of ECMA-262. */
  lemma MonthStarts(year: int, m: nat)
    requires m < 12
    ensures MonthStart(12 * year + m) == Jan1(year) + FIRST_DAYS[m] + if m >= 2 && IsLeap(year) then 1 else 0
  {
    hide Jan1, IsLeap;
    assert (12 * year + m) / 12 == year && (12 * year + m) % 12 == m;
    DaysBeforeEach(year, m);
  }

  lemma DaysBeforeEach(year: int, m: nat)
    requires m < 12
    ensures DaysBefore(year, m) == FIRST_DAYS[m] + if m >= 2 && IsLeap(year) then 1 else 0
  {
    hide IsLeap;
    if m > 0 { DaysBeforeEach(year, m - 1); }
  }

  lemma WholeYear(year: int)
    ensures DaysBefore(year, 12) == YearDays(year)
  {
    assert DaysBefore(year, 1) == 31;
    assert DaysBefore(year, 3) == 62 + LengthIn(year, 1);
    assert DaysBefore(year, 5) == DaysBefore(year, 3) + 61;
    assert DaysBefore(year, 7) == DaysBefore(year, 5) + 61;
    assert DaysBefore(year, 9) == DaysBefore(year, 7) + 61;
    assert DaysBefore(year, 11) == DaysBefore(year, 9) + 61;
  }

  lemma MonthsFollow(i: int)
    ensures MonthStart(i + 1) == MonthStart(i) + MonthLength(i)
  {
    var y, m := i / 12, i % 12;
    assert i == 12 * y + m;
    if m == 11 {
      assert (i + 1) / 12 == y + 1 && (i + 1) % 12 == 0;
      WholeYear(y);
      YearLength(y);
    } else {
      assert (i + 1) / 12 == y && (i + 1) % 12 == m + 1;
    }
  }

  lemma {:induction false} MonthsApart(i: int, j: int)
    requires i <= j
    ensures MonthStart(i) + 28 * (j - i) <= MonthStart(j)
    decreases j - i
  {
    hide MonthStart, MonthLength;
    if i < j {
      MonthsFollow(i);
      MonthsApart(i + 1, j);
    }
  }

  ghost predicate InMonth(day: int, i: int) {
    MonthStart(i) <= day < MonthStart(i + 1)
  }

  /** The month a date falls in. */
  function MonthOf(day: int): (i: int)
    ensures InMonth(day, i)
  {
    var y := YearOf(day);
    assert MonthStart(12 * y) == Jan1(y);
    MonthFrom(day, 12 * y)
  }

  function MonthFrom(day: int, i: int): (r: int)
    requires MonthStart(i) <= day
    ensures InMonth(day, r)
    decreases day - MonthStart(i)
  {
    MonthsFollow(i);
    if day < MonthStart(i + 1) then i else MonthFrom(day, i + 1)
  }

  lemma MonthUnique(day: int, i: int, j: int)
    requires InMonth(day, i) && InMonth(day, j)
    ensures i == j
  {
    hide MonthStart;
    if i < j { MonthsApart(i + 1, j); }
    if j < i { MonthsApart(j + 1, i); }
  }

  /** `setUTCMonth(getUTCMonth() + months)`: the day of the month is kept, and spills into the next month when there is no such day. */
  function AddMonths(ms: int, months: int): int {
    var day := DayOf(ms);
    var i := MonthOf(day);
    (MonthStart(i + months) + (day - MonthStart(i))) * MS_PER_DAY + ms % MS_PER_DAY
  }

  lemma AddMonthsAdvances(ms: int, months: int)
    requires months >= 1
    ensures AddMonths(ms, months) >= ms + 28 * months * MS_PER_DAY
  {
    hide MonthStart;
    var i := MonthOf(DayOf(ms));
    MonthsApart(i, i + months);
    assert ms == DayOf(ms) * MS_PER_DAY + ms % MS_PER_DAY;
  }

  /** Where the sum lands: the same day of the target month, or past its end by the days it lacks. */
  lemma AddMonthsLands(ms: int, months: int)
    ensures var i, to := MonthOf(DayOf(ms)), DayOf(AddMonths(ms, months));
            var dom := DayOf(ms) - MonthStart(i);
            if dom < MonthLength(i + months) then MonthOf(to) == i + months && to - MonthStart(i + months) == dom
            else MonthOf(to) == i + months + 1 && to - MonthStart(i + months + 1) == dom - MonthLength(i + months)
    ensures AddMonths(ms, months) % MS_PER_DAY == ms % MS_PER_DAY
  {
    hide MonthStart;
    var i := MonthOf(DayOf(ms));
    var to := MonthStart(i + months) + (DayOf(ms) - MonthStart(i));
    assert AddMonths(ms, months) == to * MS_PER_DAY + ms % MS_PER_DAY;
    assert DayOf(AddMonths(ms, months)) == to;
    MonthsFollow(i);
    MonthsFollow(i + months);
    MonthsFollow(i + months + 1);
    assert DayOf(ms) - MonthStart(i) < MonthLength(i) <= 31;
    if DayOf(ms) - MonthStart(i) < MonthLength(i + months) {
      MonthUnique(to, MonthOf(to), i + months);
    } else {
      MonthUnique(to, MonthOf(to), i + months + 1);
    }
  }

  // ---- Chunks ----

  datatype Chunk = Chunk(since: int, until: int)

  function Midnight(ms: int): (start: int)
    ensures start <= ms < start + MS_PER_DAY
  {
    DayOf(ms) * MS_PER_DAY
  }

  /** The chunks follow each other without gap from `first` to `last`, and each is as long as it should be. */
  ghost predicate Tiles(chunks: seq<Chunk>, first: int, last: int, months: int) {
    && chunks != []
    && chunks[0].since == first
    && chunks[|chunks| - 1].until == last <= AddMonths(chunks[|chunks| - 1].since, months)
    && (forall i :: 0 <= i < |chunks| ==> chunks[i].since < chunks[i].until)
    && (forall i :: 0 <= i < |chunks| - 1 ==> chunks[i].until == chunks[i + 1].since == AddMonths(chunks[i].since, months))
  }

  method GenerateDateChunks(startDate: int, endDate: int, months: int) returns (chunks: seq<Chunk>)
    requires months >= 1
    ensures endDate <= Midnight(startDate) ==> chunks == []
    ensures endDate > Midnight(startDate) ==> Tiles(chunks, Midnight(startDate), endDate, months)
  {
    hide AddMonths;
    chunks := [];
    var cursor := Midnight(startDate);
    while cursor < endDate
      invariant chunks == [] ==> cursor == Midnight(startDate)
      invariant chunks != [] ==> Tiles(chunks, Midnight(startDate), if cursor < endDate then cursor else endDate, months)
      invariant chunks != [] && cursor < endDate ==> cursor == AddMonths(chunks[|chunks| - 1].since, months)
      invariant chunks != [] ==> Midnight(startDate) < endDate
      decreases endDate - cursor
    {
      var chunkSince := cursor;
      AddMonthsAdvances(cursor, months);
      cursor := AddMonths(cursor, months);
      var chunkUntil := if cursor >= endDate then endDate else cursor;
      chunks := chunks + [Chunk(chunkSince, chunkUntil)];
    }
  }

  ghost predicate Holds(c: Chunk, t: int) {
    c.since <= t < c.until
  }

  lemma {:induction false} ChunksIncrease(chunks: seq<Chunk>, first: int, last: int, months: int, i: nat, j: nat)
    requires Tiles(chunks, first, last, months) && i < j < |chunks|
    ensures chunks[i].until <= chunks[j].since
    decreases j
  {
    hide AddMonths;
    if i + 1 < j {
      ChunksIncrease(chunks, first, last, months, i, j - 1);
    }
  }

  /** Every instant from the first chunk's start to the end lies in exactly one chunk, and no other instant in any. */
  lemma {:induction false} ChunkOfInstant(chunks: seq<Chunk>, first: int, last: int, months: int, t: int)
    requires Tiles(chunks, first, last, months)
    ensures first <= t < last <==> exists i :: 0 <= i < |chunks| && Holds(chunks[i], t)
    ensures forall i, j :: 0 <= i < j < |chunks| ==> !(Holds(chunks[i], t) && Holds(chunks[j], t))
  {
    hide AddMonths;
    forall i, j | 0 <= i < j < |chunks| ensures !(Holds(chunks[i], t) && Holds(chunks[j], t)) {
      ChunksIncrease(chunks, first, last, months, i, j);
    }
    forall i | 0 <= i < |chunks| && Holds(chunks[i], t) ensures first <= t < last {
      if i > 0 { ChunksIncrease(chunks, first, last, months, 0, i); }
      if i < |chunks| - 1 { ChunksIncrease(chunks, first, last, months, i, |chunks| - 1); }
    }
    if first <= t < last {
      var k := 0;
      while chunks[k].until <= t
        invariant 0 <= k < |chunks| && chunks[k].since <= t
        decreases |chunks| - k
      {
        k := k + 1;
      }
      assert Holds(chunks[k], t);
    }
  }

  // ---- The ranges of a scan ----

  datatype Range = SinceRef(ref: string) | Open(since: Option<int>) | Dated(chunk: Chunk)

  /** `setUTCFullYear(getUTCFullYear() - 10)`; February 29 becomes March 1 when the earlier year is not leap. */
  function TenYearsBefore(now: int): (then': int)
    ensures then' < now
  {
    var i := MonthOf(DayOf(now));
    MonthsApart(i - 120, i);
    AddMonths(now, -120)
  }

  /** The day of the month, from 0. */
  function DayInMonth(day: int): int {
    day - MonthStart(MonthOf(day))
  }

  /** Ten years back to the same month, day and time; from February 29 to March 1, for ten years earlier is no leap year. */
  lemma TenYearsBack(now: int)
    ensures var day, to := DayOf(now), DayOf(TenYearsBefore(now));
            && (if MonthOf(day) % 12 == 1 && DayInMonth(day) == 28
                then MonthOf(to) == MonthOf(day) - 119 && DayInMonth(to) == 0
                else MonthOf(to) == MonthOf(day) - 120 && DayInMonth(to) == DayInMonth(day))
    ensures TenYearsBefore(now) % MS_PER_DAY == now % MS_PER_DAY
  {
    var i := MonthOf(DayOf(now));
    AddMonthsLands(now, -120);
    LengthTenYearsBefore(i);
    hide MonthStart, AddMonths, MonthLength;
    MonthsFollow(i);
  }

  lemma LengthTenYearsBefore(i: int)
    ensures MonthLength(i) == 29 ==> MonthLength(i - 120) == 28 && i % 12 == 1
    ensures MonthLength(i) != 29 && i % 12 != 1 ==> MonthLength(i - 120) == MonthLength(i)
    ensures i % 12 == 1 ==> 28 <= MonthLength(i) <= 29 && 28 <= MonthLength(i - 120)
  {
    assert (i - 120) / 12 == i / 12 - 10 && (i - 120) % 12 == i % 12;
    NotLeapTenYearsBefore(i / 12);
    hide IsLeap;
  }

  lemma NotLeapTenYearsBefore(year: int)
    ensures IsLeap(year) ==> !IsLeap(year - 10)
  {
  }

  function DatedAll(chunks: seq<Chunk>): seq<Range> {
    seq(|chunks|, i requires 0 <= i < |chunks| => Dated(chunks[i]))
  }

  function FirstInstant(now: int): int {
    Midnight(TenYearsBefore(now))
  }

  /** A tip gives one reachability range, a date or no chunk size one open range, and otherwise chunks tile the last ten years. */
  ghost predicate RangesFor(since: Option<int>, sinceRef: Option<string>, chunkMonths: nat, now: int, ranges: seq<Range>) {
    if sinceRef.Some? then ranges == [SinceRef(sinceRef.value)]
    else if since.Some? || chunkMonths == 0 then ranges == [Open(since)]
    else exists chunks :: ranges == DatedAll(chunks) && Tiles(chunks, FirstInstant(now), now, chunkMonths)
  }

  /** `buildScanRanges`; no chunk size is 0. */
  method BuildScanRanges(since: Option<int>, sinceRef: Option<string>, chunkMonths: nat, now: int) returns (ranges: seq<Range>)
    ensures RangesFor(since, sinceRef, chunkMonths, now, ranges)
  {
    hide AddMonths;
    if sinceRef.Some? { return [SinceRef(sinceRef.value)]; }
    if since.Some? || chunkMonths == 0 { return [Open(since)]; }
    var chunks := GenerateDateChunks(TenYearsBefore(now), now, chunkMonths);
    ranges := DatedAll(chunks);
  }
}
