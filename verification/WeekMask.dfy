/** The seven-bit weekday masks of `active_day_mask`. */
module WeekMask {
  import opened Calendar
  import opened IsoWeek

  /** The low seven bits of the mask: bit 0 is Monday, bit 6 is Sunday. */
  datatype Mask = Mask(bit0: bool, bit1: bool, bit2: bool, bit3: bool, bit4: bool, bit5: bool, bit6: bool) {
    /** `a | b`. */
    function Or(that: Mask): Mask {
      Mask(bit0 || that.bit0, bit1 || that.bit1, bit2 || that.bit2, bit3 || that.bit3,
           bit4 || that.bit4, bit5 || that.bit5, bit6 || that.bit6)
    }

    /** `m >> 1`. */
    function ShiftRight(): Mask {
      Mask(bit1, bit2, bit3, bit4, bit5, bit6, false)
    }

    /** `(m >> d) & 1`. */
    predicate Has(d: nat) {
      if d == 0 then bit0 else if d == 1 then bit1 else if d == 2 then bit2 else if d == 3 then bit3
      else if d == 4 then bit4 else if d == 5 then bit5 else d == 6 && bit6
    }

    /** `sqlPopcount7`: the sum of the seven shifted bits. */
    function Popcount(): (n: nat)
      ensures n <= 7 && (n == 0 <==> this == NO_DAYS)
    {
      Bit(bit0) + Bit(bit1) + Bit(bit2) + Bit(bit3) + Bit(bit4) + Bit(bit5) + Bit(bit6)
    }

    ghost function Days(): set<nat> {
      set d: nat | d < 7 && Has(d)
    }
  }

  const NO_DAYS := Mask(false, false, false, false, false, false, false)

  function Bit(b: bool): nat {
    if b then 1 else 0
  }

  lemma OrUnitesDays(a: Mask, b: Mask)
    ensures a.Or(b).Days() == a.Days() + b.Days()
  {
    hide Mask.Or, Mask.Has;
    forall d: nat
      ensures a.Or(b).Has(d) <==> a.Has(d) || b.Has(d)
    {
      OrHas(a, b, d);
    }
  }

  lemma OrHas(a: Mask, b: Mask, d: nat)
    ensures a.Or(b).Has(d) <==> a.Has(d) || b.Has(d)
  {
  }

  /** `1 << d`. */
  function SingleDay(d: nat): (m: Mask)
    requires d < 7
    ensures m.Days() == {d}
  {
    Mask(d == 0, d == 1, d == 2, d == 3, d == 4, d == 5, d == 6)
  }

  lemma MaskFromDays(a: Mask, b: Mask)
    requires a.Days() == b.Days()
    ensures a == b
  {
    assert forall d: nat :: d < 7 ==> (a.Has(d) <==> d in a.Days()) && (b.Has(d) <==> d in b.Days());
    assert a.Has(0) == b.Has(0) && a.Has(1) == b.Has(1) && a.Has(2) == b.Has(2) && a.Has(3) == b.Has(3);
    assert a.Has(4) == b.Has(4) && a.Has(5) == b.Has(5) && a.Has(6) == b.Has(6);
  }

  ghost function DaysBelow(m: Mask, n: nat): set<nat> {
    set d: nat | d < n && m.Has(d)
  }

  lemma NextDay(m: Mask, n: nat)
    ensures |DaysBelow(m, n + 1)| == |DaysBelow(m, n)| + Bit(m.Has(n))
  {
    assert DaysBelow(m, n + 1) == if m.Has(n) then DaysBelow(m, n) + {n} else DaysBelow(m, n);
  }

  lemma PopcountIsCardinality(m: Mask)
    ensures m.Popcount() == |m.Days()|
  {
    assert DaysBelow(m, 0) == {};
    NextDay(m, 0);
    NextDay(m, 1);
    NextDay(m, 2);
    NextDay(m, 3);
    NextDay(m, 4);
    NextDay(m, 5);
    NextDay(m, 6);
    assert m.Days() == DaysBelow(m, 7);
  }

  /** The shifting loop of `activeDaysFromTracker`. */
  method PopcountLoop(mask: Mask) returns (bits: nat)
    ensures bits == mask.Popcount()
  {
    bits := 0;
    var m := mask;
    while m != NO_DAYS
      invariant bits + m.Popcount() == mask.Popcount()
      decreases HighestBit(m)
    {
      ShiftOut(m);
      hide Mask.Popcount, Mask.ShiftRight, HighestBit;
      bits := bits + Bit(m.bit0);
      m := m.ShiftRight();
    }
  }

  lemma ShiftOut(m: Mask)
    ensures m.Popcount() == Bit(m.bit0) + m.ShiftRight().Popcount()
    ensures m != NO_DAYS ==> HighestBit(m.ShiftRight()) < HighestBit(m)
  {
  }

  ghost function HighestBit(m: Mask): nat {
    if m.bit6 then 7 else if m.bit5 then 6 else if m.bit4 then 5 else if m.bit3 then 4
    else if m.bit2 then 3 else if m.bit1 then 2 else if m.bit0 then 1 else 0
  }

  // ---- Dates to masks ----

  /** `(getUTCDay() + 6) % 7`. */
  function WeekdayIndex(day: int): (d: nat)
    ensures d < 7 && d == DayNumber(day) - 1
  {
    ((day + 4) % 7 + 6) % 7
  }

  ghost function WeekdaysOf(days: set<int>): set<nat> {
    set day | day in days :: WeekdayIndex(day)
  }

  lemma WeekdaysAdd(days: set<int>, day: int)
    ensures WeekdaysOf(days + {day}) == WeekdaysOf(days) + {WeekdayIndex(day)}
  {
  }

  method PickAny<T>(s: set<T>) returns (x: T)
    requires s != {}
    ensures x in s
  {
    x :| x in s;
  }

  /** Bit i stands for the days i after a Monday, and day 4, 1970-01-05, was a Monday. */
  lemma BitsAreWeekdays(days: set<int>, mask: Mask)
    requires mask.Days() == WeekdaysOf(days)
    ensures forall i :: 0 <= i < 7 ==> (mask.Has(i) <==> exists day :: day in days && day % 7 == (i + 4) % 7)
  {
    hide Mask.Has;
    forall i: nat | i < 7 ensures mask.Has(i) <==> exists day :: day in days && day % 7 == (i + 4) % 7 {
      assert mask.Has(i) <==> i in mask.Days();
    }
  }

  /** `toActiveDayMask`: the mask of a set of UTC dates, folded in any order. */
  method ToActiveDayMask(days: set<int>) returns (mask: Mask)
    ensures mask.Days() == WeekdaysOf(days)
    ensures forall i :: 0 <= i < 7 ==> (mask.Has(i) <==> exists day :: day in days && day % 7 == (i + 4) % 7)
  {
    mask := NO_DAYS;
    var rest := days;
    while rest != {}
      invariant rest <= days
      invariant mask.Days() == WeekdaysOf(days - rest)
      decreases |rest|
    {
      hide WeekdaysOf, WeekdayIndex, Mask.Days, SingleDay;
      var day := PickAny(rest);
      OrUnitesDays(mask, SingleDay(WeekdayIndex(day)));
      WeekdaysAdd(days - rest, day);
      mask := mask.Or(SingleDay(WeekdayIndex(day)));
      assert days - (rest - {day}) == days - rest + {day};
      rest := rest - {day};
    }
    assert days - rest == days;
    BitsAreWeekdays(days, mask);
  }

  /** The mask of a set of weekday indices. */
  function MaskOf(s: set<nat>): (m: Mask)
    ensures m.Days() == set d | d in s && d < 7
  {
    Mask(0 in s, 1 in s, 2 in s, 3 in s, 4 in s, 5 in s, 6 in s)
  }

  ghost predicate OneWeek(days: set<int>) {
    forall a, b :: a in days && b in days ==> WeekOf(a) == WeekOf(b)
  }

  /** Within one ISO week, distinct dates are distinct weekdays: a mask loses no day. */
  lemma {:induction false} MaskCountsDates(days: set<int>)
    requires OneWeek(days)
    ensures |WeekdaysOf(days)| == |days| <= 7
    decreases |days|
  {
    if days != {} {
      hide WeekOf, WeekdayIndex;
      var day := Pick(days);
      var rest := days - {day};
      MaskCountsDates(rest);
      WeekdaysAdd(rest, day);
      assert days == rest + {day};
      assert WeekdayIndex(day) !in WeekdaysOf(rest) by {
        forall other | other in rest
          ensures WeekdayIndex(other) != WeekdayIndex(day)
        {
          if WeekdayIndex(other) == WeekdayIndex(day) { WeekdaysDistinct(other, day); }
        }
      }
      AtMostSeven(WeekdaysOf(days));
    }
  }

  lemma Pick<T>(s: set<T>) returns (x: T)
    requires s != {}
    ensures x in s
  {
    x :| x in s;
  }

  lemma AtMostSeven(s: set<nat>)
    requires forall d :: d in s ==> d < 7
    ensures |s| <= 7
  {
    var all := {0, 1, 2, 3, 4, 5, 6};
    assert s <= all;
    Cardinality(s, all);
  }

  lemma {:induction false} Cardinality<T>(a: set<T>, b: set<T>)
    requires a <= b
    ensures |a| <= |b|
    decreases |a|
  {
    if a != {} {
      var x :| x in a;
      Cardinality(a - {x}, b - {x});
    }
  }
}
