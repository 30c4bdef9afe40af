/** UTC day arithmetic of ECMAScript dates; a day is a count of days since 1970-01-01. */
module Calendar {
  const MS_PER_DAY := 86_400_000

  /** The UTC calendar date of an instant in milliseconds: what the `getUTC…` getters read. */
  function DayOf(ms: int): (day: int)
    ensures day * MS_PER_DAY <= ms < (day + 1) * MS_PER_DAY
  {
    ms / MS_PER_DAY
  }

  /** `getUTCDay() || 7`: Monday is 1 and Sunday is 7; day 0 was a Thursday. */
  function DayNumber(day: int): (n: int)
    ensures 1 <= n <= 7
  {
    var sundayBased := (day + 4) % 7;
    if sundayBased == 0 then 7 else sundayBased
  }

  predicate IsLeap(y: int) {
    y % 4 == 0 && (y % 100 != 0 || y % 400 == 0)
  }

  function YearDays(y: int): int {
    if IsLeap(y) then 366 else 365
  }

  /** `Date.UTC(y, 0, 1)` in days: years follow each other without gaps, and 1970 starts on day 0. */
  function Jan1(y: int): int
    decreases if y < 1970 then 1970 - y else y - 1970
  {
    if y == 1970 then 0
    else if y > 1970 then Jan1(y - 1) + YearDays(y - 1)
    else Jan1(y + 1) - YearDays(y)
  }

  lemma YearLength(y: int)
    ensures Jan1(y + 1) - Jan1(y) == YearDays(y)
  {
  }

  /** Leap days between 1970 and the start of year y. */
  function LeapDays(y: int): int {
    (y - 1969) / 4 - (y - 1901) / 100 + (y - 1601) / 400
  }

  lemma Quotient4(y: int)
    ensures (y - 1968) / 4 == (y - 1969) / 4 + if y % 4 == 0 then 1 else 0
  {
  }

  lemma Quotient100(y: int)
    ensures (y - 1900) / 100 == (y - 1901) / 100 + if y % 100 == 0 then 1 else 0
  {
  }

  lemma Quotient400(y: int)
    ensures (y - 1600) / 400 == (y - 1601) / 400 + if y % 400 == 0 then 1 else 0
    ensures y % 400 == 0 ==> y % 100 == 0
    ensures y % 100 == 0 ==> y % 4 == 0
  {
    assert y == 400 * (y / 400) + y % 400;
    assert y == 100 * (y / 100) + y % 100;
  }

  lemma LeapDaysStep(y: int)
    ensures LeapDays(y + 1) == LeapDays(y) + if IsLeap(y) then 1 else 0
  {
    Quotient4(y);
    Quotient100(y);
    Quotient400(y);
  }

  /** DayFromYear of section 21.4.1.3 of ECMA-262. */
  lemma {:induction false} Jan1ClosedForm(y: int)
    ensures Jan1(y) == 365 * (y - 1970) + LeapDays(y)
    decreases if y < 1970 then 1970 - y else y - 1970
  {
    LeapDaysStep(y);
    LeapDaysStep(y - 1);
    if y > 1970 {
      Jan1ClosedForm(y - 1);
    } else if y < 1970 {
      Jan1ClosedForm(y + 1);
    }
  }

  lemma {:induction false} Jan1Monotone(y: int, z: int)
    requires y <= z
    ensures Jan1(y) + 365 * (z - y) <= Jan1(z)
    decreases z - y
  {
    if y < z {
      YearLength(y);
      Jan1Monotone(y + 1, z);
    }
  }

  ghost predicate InYear(day: int, y: int) {
    Jan1(y) <= day < Jan1(y + 1)
  }

  /** `getUTCFullYear()`: the year whose span holds the day. */
  function YearOf(day: int): (y: int)
    ensures InYear(day, y)
  {
    YearFrom(day, 1970)
  }

  function YearFrom(day: int, y: int): (r: int)
    ensures InYear(day, r)
    decreases if InYear(day, y) then 0 else if day < Jan1(y) then 1 + Jan1(y) - day else 1 + day - Jan1(y)
  {
    YearLength(y);
    YearLength(y - 1);
    if Jan1(y + 1) <= day then YearFrom(day, y + 1)
    else if day < Jan1(y) then YearFrom(day, y - 1)
    else y
  }

  lemma YearUnique(day: int, y: int, z: int)
    requires InYear(day, y) && InYear(day, z)
    ensures y == z
  {
    if y < z { Jan1Monotone(y + 1, z); }
    if z < y { Jan1Monotone(z + 1, y); }
  }
}

/** ISO 8601 weeks as aggregator/filters.ts, collector/git.ts and aggregator/trends.ts compute them. */
module IsoWeek {
  import opened Calendar
  import opened Text

  datatype Week = Week(year: int, no: int) {
    /** The year fits `YYYY` and the year has that many weeks. */
    ghost predicate Valid() {
      1000 <= year <= 9999 && 1 <= no <= WeeksIn(year)
    }
  }

  function CeilDiv(n: int, m: int): (q: int)
    requires m > 0
    ensures (q - 1) * m < n <= q * m
  {
    -((-n) / m)
  }

  /** The week of a date: the year and number of the week's Thursday. */
  function WeekOf(day: int): Week {
    var thursday := day + 4 - DayNumber(day);
    var year := YearOf(thursday);
    Week(year, CeilDiv(thursday - Jan1(year) + 1, 7))
  }

  /** Monday of the week holding a day. */
  function MondayOnOrBefore(day: int): (monday: int)
    ensures DayNumber(monday) == 1 && monday <= day < monday + 7
  {
    day - (DayNumber(day) - 1)
  }

  /** Monday of week 1: January 4 always lies in it. */
  function MondayOfWeek1(year: int): int {
    MondayOnOrBefore(Jan1(year) + 3)
  }

  function MondayOf(w: Week): int {
    MondayOfWeek1(w.year) + (w.no - 1) * 7
  }

  /** Number of ISO weeks in a year. */
  function WeeksIn(year: int): int {
    (MondayOfWeek1(year + 1) - MondayOfWeek1(year)) / 7
  }

  lemma MondaysApart(a: int, b: int)
    requires DayNumber(a) == 1 && DayNumber(b) == 1
    ensures (b - a) % 7 == 0
  {
  }

  /** Two consecutive years that start `length` days apart. */
  lemma LongYear(start: int, length: int)
    requires length == 365 || length == 366
    ensures var a, b := MondayOnOrBefore(start + 3), MondayOnOrBefore(start + length + 3);
            && b - a == 7 * ((b - a) / 7)
            && (b - a) / 7 == if DayNumber(start) == 4 || (length == 366 && DayNumber(start) == 3) then 53 else 52
  {
    MondaysApart(MondayOnOrBefore(start + 3), MondayOnOrBefore(start + length + 3));
  }

  /** Section 3.2.2 of ISO 8601:2004: a year has 52 or 53 weeks; the long ones begin on a Thursday, or are leap and begin on a Wednesday. */
  lemma LongYears(year: int)
    ensures MondayOfWeek1(year + 1) == MondayOfWeek1(year) + 7 * WeeksIn(year)
    ensures WeeksIn(year) == if DayNumber(Jan1(year)) == 4 || (IsLeap(year) && DayNumber(Jan1(year)) == 3) then 53 else 52
  {
    YearLength(year);
    hide Jan1;
    LongYear(Jan1(year), Jan1(year + 1) - Jan1(year));
  }

  /** Leap years from year 1 up to a year. */
  function Leaps(year: int): int {
    year / 4 - year / 100 + year / 400
  }

  /** The weekday of a year's last day, 0 for Sunday. */
  function DecemberWeekday(year: int): int {
    (year + Leaps(year)) % 7
  }

  lemma LeapsBefore(year: int)
    ensures LeapDays(year + 1) == Leaps(year) - 477
  {
    From1968(year);
    From1900(year);
    From1600(year);
  }

  lemma From1968(year: int)
    ensures (year - 1968) / 4 == year / 4 - 492
  {
  }

  lemma From1900(year: int)
    ensures (year - 1900) / 100 == year / 100 - 19
  {
  }

  lemma From1600(year: int)
    ensures (year - 1600) / 400 == year / 400 - 4
  {
  }

  lemma LastDay(year: int)
    ensures (Jan1(year + 1) + 3) % 7 == DecemberWeekday(year)
  {
    Jan1ClosedForm(year + 1);
    LeapsBefore(year);
    hide Jan1, LeapDays, Leaps;
    SevensApart(year, Leaps(year));
  }

  lemma SevensApart(year: int, leaps: int)
    ensures (365 * (year + 1 - 1970) + leaps - 477 + 3) % 7 == (year + leaps) % 7
  {
    assert 365 * (year + 1 - 1970) + leaps - 477 + 3 == year + leaps + 7 * (52 * year - 102737);
  }

  /** The long years are those that end on a Thursday and those that follow a year ending on a Wednesday. */
  lemma LongYearsExactly(year: int)
    ensures WeeksIn(year) == if DecemberWeekday(year) == 4 || DecemberWeekday(year - 1) == 3 then 53 else 52
  {
    LongYears(year);
    LastDay(year);
    LastDay(year - 1);
    YearLength(year);
    hide Jan1, WeeksIn, DecemberWeekday, Leaps, DayNumber;
    LongStart(Jan1(year), Jan1(year + 1) - Jan1(year));
  }

  lemma LongStart(start: int, length: int)
    requires length == 365 || length == 366
    ensures DayNumber(start) == 4 || (length == 366 && DayNumber(start) == 3)
       <==> (start + length + 3) % 7 == 4 || (start + 3) % 7 == 3
  {
  }

  /** A week has the year and the number of its Thursday; day 0, 1970-01-01, was a Thursday. */
  lemma WeekByThursday(day: int, thursday: int, year: int)
    requires thursday % 7 == 0 && day - 3 <= thursday <= day + 3 && InYear(thursday, year)
    ensures WeekOf(day) == Week(year, (thursday - Jan1(year)) / 7 + 1)
  {
    hide Jan1;
    assert thursday == day + 4 - DayNumber(day);
    YearUnique(thursday, year, YearOf(thursday));
  }

  lemma MondayIsMonday(w: Week)
    ensures DayNumber(MondayOf(w)) == 1
  {
    WeeksLater(MondayOfWeek1(w.year), w.no - 1);
  }

  lemma WeeksLater(monday: int, n: int)
    requires DayNumber(monday) == 1
    ensures DayNumber(monday + n * 7) == 1
  {
    assert monday % 7 == 4;
    assert (monday + n * 7) % 7 == 4;
  }

  /** Every day of a week belongs to it and to no other week. */
  lemma WeekOfMonday(w: Week, i: nat)
    requires 1 <= w.no <= WeeksIn(w.year) && i < 7
    ensures WeekOf(MondayOf(w) + i) == w
  {
    LongYears(w.year);
    hide Jan1;
    var thursday := MondayOf(w) + 3;
    assert MondayOf(w) + i + 4 - DayNumber(MondayOf(w) + i) == thursday;
    YearUnique(thursday, w.year, YearOf(thursday));
  }

  /** Counting Thursdays from the start of a year numbers its weeks. */
  lemma ThursdayNumber(start: int, thursday: int)
    requires start <= thursday && DayNumber(thursday) == 4
    ensures var n := CeilDiv(thursday - start + 1, 7);
            1 <= n && MondayOnOrBefore(start + 3) + 7 * (n - 1) == thursday - 3
  {
    MondaysApart(MondayOnOrBefore(start + 3), thursday - 3);
  }

  lemma ThursdayInYear(year: int, thursday: int)
    requires InYear(thursday, year) && DayNumber(thursday) == 4
    ensures var n := CeilDiv(thursday - Jan1(year) + 1, 7);
            1 <= n <= WeeksIn(year) && MondayOfWeek1(year) + (n - 1) * 7 == thursday - 3
  {
    hide Jan1, IsLeap, CeilDiv, WeeksIn;
    LongYears(year);
    ThursdayNumber(Jan1(year), thursday);
  }

  lemma MondayOfWeekOf(day: int)
    ensures MondayOf(WeekOf(day)) == MondayOnOrBefore(day)
    ensures 1 <= WeekOf(day).no <= WeeksIn(WeekOf(day).year)
  {
    hide Jan1, YearOf, CeilDiv, MondayOfWeek1, WeeksIn, InYear;
    var thursday := day + 4 - DayNumber(day);
    ThursdayInYear(YearOf(thursday), thursday);
  }

  /** Weekday bits of one ISO week tell its days apart. */
  lemma WeekdaysDistinct(a: int, b: int)
    requires WeekOf(a) == WeekOf(b) && DayNumber(a) == DayNumber(b)
    ensures a == b
  {
    MondayOfWeekOf(a);
    MondayOfWeekOf(b);
  }

  // ---- The "YYYY-Www" strings ----

  function PadStart2(s: string): string {
    if |s| >= 2 then s else seq(2 - |s|, _ => '0') + s
  }

  function Format(w: Week): string {
    IntString(w.year) + "-W" + PadStart2(IntString(w.no))
  }

  /** The regex `^(\d{4})-W(\d{2})$`: any two-digit number passes, valid week or not. */
  predicate WeekShaped(s: string) {
    |s| == 8 && AllDigits(s[..4]) && s[4..6] == "-W" && AllDigits(s[6..])
  }

  function ParseWeek(s: string): Result<Week> {
    if WeekShaped(s)
    then Ok(Week(ParseDecimal(s[..4]), ParseDecimal(s[6..])))
    else Err("Invalid ISO week format")
  }

  function IsoWeekToMonday(s: string): Result<int> {
    match ParseWeek(s)
    case Ok(w) => Ok(MondayOf(Week(UtcYear(w.year), w.no)))
    case Err(e) => Err(e)
  }

  ghost predicate InRange(day: int) {
    1000 <= WeekOf(day).year <= 9999
  }

  // ---- `Date.UTC` ----

  /** The year `Date.UTC` makes of a year number. */
  function UtcYear(y: int): int {
    if 0 <= y <= 99 then 1900 + y else y
  }

  /** `Date.UTC` of a date's own year, month and day; year 0 is leap and 1900 is not, so dates from March on move by one. */
  function DateUtc(day: int): int {
    var y := YearOf(day);
    var n := day - Jan1(y);
    Jan1(UtcYear(y)) + if y == 0 && n >= 60 then n - 1 else n
  }

  /** The week number the three copies of the algorithm compute. */
  function ComputedWeek(day: int): Week {
    var d := DateUtc(day);
    var thursday := d + 4 - DayNumber(d);
    var year := YearOf(thursday);
    Week(year, CeilDiv(thursday - Jan1(UtcYear(year)) + 1, 7))
  }

  function DateToISOWeek(day: int): string {
    Format(ComputedWeek(day))
  }

  /** January 1 of the years 0 and 100. */
  const YEAR_0 := -719528
  const YEAR_100 := -683003

  predicate Early(day: int) {
    YEAR_0 <= day < YEAR_100
  }

  lemma EarlyYears(day: int)
    ensures Early(day) <==> 0 <= YearOf(day) <= 99
  {
    Jan1ClosedForm(0);
    Jan1ClosedForm(100);
    hide Jan1;
    var y := YearOf(day);
    if y < 0 { Jan1Monotone(y + 1, 0); }
    if 0 <= y <= 99 { Jan1Monotone(0, y); Jan1Monotone(y + 1, 100); }
    if y > 99 { Jan1Monotone(100, y); }
  }

  /** Neither the date nor the Thursday of its week falls in the years 0 to 99. */
  predicate Regular(day: int) {
    !Early(day) && !Early(day + 4 - DayNumber(day))
  }

  /** For all other dates the computed week is the ISO week. */
  lemma RegularWeek(day: int)
    requires Regular(day)
    ensures DateToISOWeek(day) == Format(WeekOf(day))
  {
    hide Format, Jan1, CeilDiv, YearOf, Early;
    EarlyYears(day);
    EarlyYears(day + 4 - DayNumber(day));
    assert DateUtc(day) == day;
  }

  /** A date of the years 1 to 99 gets the string of the same date nineteen centuries later. */
  lemma CenturiesCollide(y: int, n: nat)
    requires 1 <= y <= 99 && n < YearDays(y)
    ensures DateToISOWeek(Jan1(y) + n) == DateToISOWeek(Jan1(1900 + y) + n)
    ensures Jan1(y) + n != Jan1(1900 + y) + n
  {
    hide Format, CeilDiv, DayNumber, Jan1, YearOf, DateUtc, YearDays;
    SameLength(y);
    DateUtcInYear(y, n);
    DateUtcInYear(1900 + y, n);
    Jan1Monotone(y, 1900 + y);
  }

  lemma SameLength(y: int)
    requires 1 <= y <= 99
    ensures YearDays(1900 + y) == YearDays(y)
  {
  }

  lemma DateUtcInYear(y: int, n: nat)
    requires y != 0 && n < YearDays(y)
    ensures DateUtc(Jan1(y) + n) == Jan1(UtcYear(y)) + n
  {
    YearLength(y);
    hide Jan1, YearDays;
    YearUnique(Jan1(y) + n, y, YearOf(Jan1(y) + n));
  }

  /** Every date git can store, and every date whose week has a four-digit year, is regular. */
  lemma RegularDates(day: int)
    requires day >= 0 || InRange(day)
    ensures Regular(day)
  {
    hide CeilDiv, Jan1, YearOf;
    var thursday := day + 4 - DayNumber(day);
    if InRange(day) {
      Jan1ClosedForm(1000);
      Jan1Monotone(1000, YearOf(thursday));
    }
  }

  lemma Decimal4(y: int)
    requires 1000 <= y <= 9999
    ensures Decimal(y) == [DigitChar(y / 10 / 10 / 10), DigitChar(y / 10 / 10 % 10), DigitChar(y / 10 % 10), DigitChar(y % 10)]
  {
    assert Decimal(y / 10 / 10) == Decimal(y / 10 / 10 / 10) + [DigitChar(y / 10 / 10 % 10)];
    assert Decimal(y / 10) == Decimal(y / 10 / 10) + [DigitChar(y / 10 % 10)];
  }

  lemma Padded2(n: int)
    requires 0 <= n <= 99
    ensures PadStart2(Decimal(n)) == [DigitChar(n / 10), DigitChar(n % 10)]
  {
    if n >= 10 {
      assert Decimal(n) == Decimal(n / 10) + [DigitChar(n % 10)];
    }
  }

  lemma FormatShape(w: Week)
    requires 1000 <= w.year <= 9999 && 0 <= w.no <= 99
    ensures Format(w) == [DigitChar(w.year / 10 / 10 / 10), DigitChar(w.year / 10 / 10 % 10), DigitChar(w.year / 10 % 10), DigitChar(w.year % 10),
                          '-', 'W', DigitChar(w.no / 10), DigitChar(w.no % 10)]
  {
    Decimal4(w.year);
    Padded2(w.no);
  }

  lemma FormatParses(w: Week)
    requires 1000 <= w.year <= 9999 && 0 <= w.no <= 99
    ensures ParseWeek(Format(w)) == Ok(w)
  {
    FormatShape(w);
    Decimal4(w.year);
    Padded2(w.no);
    ParseDecimalInverts(w.year);
    assert Format(w)[..4] == Decimal(w.year);
    assert Format(w)[4..6] == "-W";
    assert Format(w)[6..] == [DigitChar(w.no / 10), DigitChar(w.no % 10)];
    ParseTwoDigits(DigitChar(w.no / 10), DigitChar(w.no % 10));
  }

  /** Week-of-date then Monday-of-week: the Monday on or before the date. */
  lemma DateRoundTrip(day: int)
    requires InRange(day)
    ensures var r := IsoWeekToMonday(DateToISOWeek(day));
            r.Ok? && r.value <= day < r.value + 7 && DayNumber(r.value) == 1
  {
    hide DateToISOWeek, WeekOf, Regular, YearOf, Jan1;
    RegularDates(day);
    RegularWeek(day);
    MondayOfWeekOf(day);
    LongYears(WeekOf(day).year);
    FormatParses(WeekOf(day));
  }

  /** Monday-of-week then week-of-date, for all seven days: the same string back. */
  lemma WeekRoundTrip(w: Week, i: nat)
    requires w.Valid() && i < 7
    ensures var r := IsoWeekToMonday(Format(w));
            r.Ok? && InRange(r.value + i) && DateToISOWeek(r.value + i) == Format(w)
  {
    hide Jan1, WeekOf, MondayOf, ParseWeek, Format, DateToISOWeek, Regular;
    NumberBound(w);
    FormatParses(w);
    WeekOfMonday(w, i);
    RegularDates(MondayOf(w) + i);
    RegularWeek(MondayOf(w) + i);
  }

  /** A week string names one week, outside the years 0 to 99. */
  lemma SameStringSameWeek(a: int, b: int)
    requires Regular(a) && Regular(b) && DateToISOWeek(a) == DateToISOWeek(b)
    ensures WeekOf(a) == WeekOf(b)
  {
    hide Jan1, WeekOf, DateToISOWeek, Regular, Format;
    RegularWeek(a);
    RegularWeek(b);
    TwoDigitNumber(a);
    TwoDigitNumber(b);
    FormatInjective(WeekOf(a), WeekOf(b));
  }

  lemma MondayTurns(day: int)
    ensures MondayOnOrBefore(day) != MondayOnOrBefore(day - 1) <==> day % 7 == 4
    ensures MondayOnOrBefore(day) == MondayOnOrBefore(day - 1) ==> day + 4 - DayNumber(day) == day - 1 + 4 - DayNumber(day - 1)
  {
  }

  /** The string changes from one day to the next exactly on Mondays; day 4, 1970-01-05, was one. */
  lemma WeekTurns(day: int)
    requires Regular(day) && Regular(day - 1)
    ensures DateToISOWeek(day) != DateToISOWeek(day - 1) <==> day % 7 == 4
  {
    hide Jan1, DateToISOWeek, Regular, Format, YearOf, CeilDiv, MondayOf, DayNumber, MondayOnOrBefore;
    MondayTurns(day);
    RegularWeek(day);
    RegularWeek(day - 1);
    MondayOfWeekOf(day);
    MondayOfWeekOf(day - 1);
    if DateToISOWeek(day) == DateToISOWeek(day - 1) { SameStringSameWeek(day, day - 1); }
  }

  lemma TwoDigitNumber(day: int)
    ensures 1 <= WeekOf(day).no <= 53
  {
    hide Jan1, WeekOf;
    MondayOfWeekOf(day);
    LongYears(WeekOf(day).year);
  }

  lemma FormatInjective(v: Week, w: Week)
    requires Format(v) == Format(w) && 1 <= v.no <= 53 && 1 <= w.no <= 53
    ensures v == w
  {
    Padded2(v.no);
    Padded2(w.no);
    var s, n := Format(v), |Format(v)|;
    assert s[..n - 4] == IntString(v.year) && Format(w)[..n - 4] == IntString(w.year);
    assert s[n - 2..] == PadStart2(IntString(v.no)) && Format(w)[n - 2..] == PadStart2(IntString(w.no));
    IntStringInjective(v.year, w.year);
    DigitOrder(v.no / 10, w.no / 10);
    DigitOrder(v.no % 10, w.no % 10);
  }

  ghost predicate WeekBefore(v: Week, w: Week) {
    v.year < w.year || (v.year == w.year && v.no < w.no)
  }

  lemma WeekOrder(v: Week, w: Week)
    requires v.Valid() && w.Valid()
    ensures WeekBefore(v, w) <==> MondayOf(v) < MondayOf(w)
  {
    LongYears(v.year);
    LongYears(w.year);
    if v.year < w.year { Week1Monotone(v.year + 1, w.year); }
    if w.year < v.year { Week1Monotone(w.year + 1, v.year); }
  }

  lemma Week1Monotone(y: int, z: int)
    requires y <= z
    ensures MondayOfWeek1(y) <= MondayOfWeek1(z)
  {
    Jan1Monotone(y, z);
    hide Jan1;
  }

  lemma NumberBound(w: Week)
    requires w.Valid()
    ensures w.no <= 53
  {
    LongYears(w.year);
  }

  lemma LastDigitOrder(y: nat, z: nat)
    requires y < z
    ensures y / 10 < z / 10 || (y / 10 == z / 10 && y % 10 < z % 10)
  {
  }

  lemma WordOrder(a: string, b: string, k: nat)
    requires |a| == |b| && k < |a| && (forall i :: 0 <= i < k ==> a[i] == b[i]) && a[k] < b[k]
    ensures LexLess(a, b)
  {
    assert a[..k] == b[..k];
    assert FirstDifference(a, b, k);
  }

  lemma FormatOrder(v: Week, w: Week)
    requires v.Valid() && w.Valid() && WeekBefore(v, w)
    ensures LexLess(Format(v), Format(w))
  {
    NumberBound(v);
    NumberBound(w);
    FormatShape(v);
    FormatShape(w);
    if v.year < w.year {
      LastDigitOrder(v.year, w.year);
      if v.year / 10 < w.year / 10 { LastDigitOrder(v.year / 10, w.year / 10); }
      if v.year / 10 / 10 < w.year / 10 / 10 { LastDigitOrder(v.year / 10 / 10, w.year / 10 / 10); }
      WordOrder(Format(v), Format(w),
        if v.year / 10 / 10 / 10 != w.year / 10 / 10 / 10 then 0 else if v.year / 10 / 10 != w.year / 10 / 10 then 1
        else if v.year / 10 != w.year / 10 then 2 else 3);
    } else {
      WordOrder(Format(v), Format(w), if v.no / 10 != w.no / 10 then 6 else 7);
    }
  }

  /** The week strings order exactly as the weeks of the dates do, across 52- and 53-week years. */
  lemma StringOrderIsDateOrder(a: int, b: int)
    requires InRange(a) && InRange(b)
    ensures LexLess(DateToISOWeek(a), DateToISOWeek(b)) <==> MondayOf(WeekOf(a)) < MondayOf(WeekOf(b))
    ensures DateToISOWeek(a) == DateToISOWeek(b) <==> MondayOf(WeekOf(a)) == MondayOf(WeekOf(b))
  {
    hide DateToISOWeek, Regular, WeekOf, MondayOf, Format, LexLess, WeeksIn;
    var v, w := WeekOf(a), WeekOf(b);
    RegularDates(a);
    RegularDates(b);
    RegularWeek(a);
    RegularWeek(b);
    MondayOfWeekOf(a);
    MondayOfWeekOf(b);
    WeekOrder(v, w);
    WeekOrder(w, v);
    if WeekBefore(v, w) {
      FormatOrder(v, w);
      LexLessAsymmetric(Format(v), Format(w));
    } else if WeekBefore(w, v) {
      FormatOrder(w, v);
      LexLessAsymmetric(Format(w), Format(v));
    } else {
      assert v == w;
      if LexLess(Format(v), Format(w)) { LexLessAsymmetric(Format(v), Format(w)); }
    }
  }
}
