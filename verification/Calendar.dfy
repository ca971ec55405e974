/** The civil-calendar arithmetic behind `/jump` and the search date bounds:
    a closed-form proleptic Gregorian day count, proved to be the order isomorphism
    between calendar dates and the integers, and the millisecond stamps built on it. */
module Calendar {

  import opened Text

  datatype Date = Date(y: int, m: int, d: int)

  /** A minute of a day; the granularity at which stamps are entered. */
  datatype Stamp = Stamp(date: Date, h: int, min: int)

  predicate IsLeap(y: int) {
    (y % 4 == 0 && y % 100 != 0) || y % 400 == 0
  }

  function DaysInMonth(y: int, m: int): int {
    if m == 1 || m == 3 || m == 5 || m == 7 || m == 8 || m == 10 || m == 12 then 31
    else if m == 4 || m == 6 || m == 9 || m == 11 then 30
    else if m == 2 then (if IsLeap(y) then 29 else 28)
    else 0
  }

  predicate Valid(date: Date) {
    1 <= date.m <= 12 && 1 <= date.d <= DaysInMonth(date.y, date.m)
  }

  /** Days from 1970-01-01. The year starts in March, so that the leap day comes last. */
  function DaysSinceEpoch(date: Date): int {
    var (y, m) := if date.m <= 2 then (date.y - 1, date.m + 9) else (date.y, date.m - 3);
    var era := y / 400;
    var yoe := y % 400;
    var doy := (153 * m + 2) / 5 + date.d - 1;
    var doe := yoe * 365 + yoe / 4 - yoe / 100 + doy;
    era * 146097 + doe - 719468
  }

  // ----- The reference calendar: one day after another -----

  const EPOCH := Date(1970, 1, 1)

  function NextDay(date: Date): (r: Date)
    requires Valid(date)
    ensures Valid(r)
  {
    if date.d < DaysInMonth(date.y, date.m) then Date(date.y, date.m, date.d + 1)
    else if date.m < 12 then Date(date.y, date.m + 1, 1)
    else Date(date.y + 1, 1, 1)
  }

  function PreviousDay(date: Date): (r: Date)
    requires Valid(date)
    ensures Valid(r)
    ensures NextDay(r) == date
  {
    if date.d > 1 then Date(date.y, date.m, date.d - 1)
    else if date.m > 1 then Date(date.y, date.m - 1, DaysInMonth(date.y, date.m - 1))
    else Date(date.y - 1, 12, 31)
  }

  /** The date reached by walking `n` days from the epoch, forwards or backwards. */
  function DateAt(n: int): (r: Date)
    ensures Valid(r)
    decreases if n < 0 then -n else n
  {
    if n == 0 then EPOCH
    else if n > 0 then NextDay(DateAt(n - 1))
    else PreviousDay(DateAt(n + 1))
  }

  predicate Before(a: Date, b: Date) {
    a.y < b.y || (a.y == b.y && (a.m < b.m || (a.m == b.m && a.d < b.d)))
  }

  // ----- Month lengths of the closed form -----

  function MarchYearStart(y: int): int {
    (y / 400) * 146097 + (y % 400) * 365 + (y % 400) / 4 - (y % 400) / 100
  }

  /** Days of the March-based year before each calendar month. */
  function MonthOffset(m: int): int {
    if m == 3 then 0 else if m == 4 then 31 else if m == 5 then 61 else if m == 6 then 92
    else if m == 7 then 122 else if m == 8 then 153 else if m == 9 then 184 else if m == 10 then 214
    else if m == 11 then 245 else if m == 12 then 275 else if m == 1 then 306 else 337
  }

  lemma FifthsGiveMonthOffsets(m: int)
    requires 1 <= m <= 12
    ensures MonthOffset(m) == (153 * (if m <= 2 then m + 9 else m - 3) + 2) / 5
  {
  }

  lemma SplitCount(date: Date)
    requires 1 <= date.m <= 12
    ensures DaysSinceEpoch(date)
         == MarchYearStart(if date.m <= 2 then date.y - 1 else date.y) + MonthOffset(date.m) + date.d - 1 - 719468
  {
    FifthsGiveMonthOffsets(date.m);
  }

  lemma QuarterStep(a: int)
    ensures a / 4 - (a - 1) / 4 == if a % 4 == 0 then 1 else 0
  {
  }

  lemma CenturyStep(a: int)
    ensures a / 100 - (a - 1) / 100 == if a % 100 == 0 then 1 else 0
  {
  }

  lemma EraStep(y: int)
    ensures y % 400 == 0 ==> (y - 1) / 400 == y / 400 - 1 && (y - 1) % 400 == 399
    ensures y % 400 != 0 ==> (y - 1) / 400 == y / 400 && (y - 1) % 400 == y % 400 - 1
  {
  }

  lemma EraKeepsQuarters(q: int, yoe: int)
    ensures (400 * q + yoe) % 4 == yoe % 4
  {
    assert 400 * q + yoe == 4 * (100 * q) + yoe;
  }

  lemma EraKeepsCenturies(q: int, yoe: int)
    ensures (400 * q + yoe) % 100 == yoe % 100
  {
    assert 400 * q + yoe == 100 * (4 * q) + yoe;
  }

  lemma MarchYearLength(y: int)
    ensures MarchYearStart(y) - MarchYearStart(y - 1) == if IsLeap(y) then 366 else 365
  {
    assert y == 400 * (y / 400) + y % 400;
    EraKeepsQuarters(y / 400, y % 400);
    EraKeepsCenturies(y / 400, y % 400);
    EraStep(y);
    QuarterStep(y % 400);
    CenturyStep(y % 400);
  }

  function NextMonth(y: int, m: int): (int, int) {
    if m < 12 then (y, m + 1) else (y + 1, 1)
  }

  function MonthStart(y: int, m: int): int {
    DaysSinceEpoch(Date(y, m, 1))
  }

  lemma FebruaryLength(y: int)
    ensures MonthStart(y, 3) == MonthStart(y, 2) + DaysInMonth(y, 2)
  {
    var march, february := MarchYearStart(y), MarchYearStart(y - 1);
    assert MonthStart(y, 3) == march - 719468 by { SplitCount(Date(y, 3, 1)); }
    assert MonthStart(y, 2) == february + 337 - 719468 by { SplitCount(Date(y, 2, 1)); }
    assert march - february == if IsLeap(y) then 366 else 365 by { MarchYearLength(y); }
  }

  lemma MonthLength(y: int, m: int)
    requires 1 <= m <= 12
    ensures var (y', m') := NextMonth(y, m); MonthStart(y', m') == MonthStart(y, m) + DaysInMonth(y, m)
  {
    hide DaysSinceEpoch, MarchYearStart;
    if m == 2 {
      FebruaryLength(y);
    } else {
      var (y', m') := NextMonth(y, m);
      var start := MarchYearStart(if m <= 2 then y - 1 else y);
      assert MonthStart(y, m) == start + MonthOffset(m) - 719468 by { SplitCount(Date(y, m, 1)); }
      assert MonthStart(y', m') == start + MonthOffset(m') - 719468 by { SplitCount(Date(y', m', 1)); }
    }
  }

  /** The whole of an earlier month lies before a later one. */
  lemma {:induction false} MonthsAreOrdered(y: int, m: int, y2: int, m2: int)
    requires 1 <= m <= 12 && 1 <= m2 <= 12
    requires y < y2 || (y == y2 && m < m2)
    ensures MonthStart(y, m) + DaysInMonth(y, m) <= MonthStart(y2, m2)
    decreases (y2 - y) * 12 + m2 - m
  {
    hide DaysSinceEpoch;
    MonthLength(y, m);
    var (y', m') := NextMonth(y, m);
    if (y', m') != (y2, m2) {
      MonthsAreOrdered(y', m', y2, m2);
    }
  }

  lemma DayOfMonth(date: Date)
    requires Valid(date)
    ensures DaysSinceEpoch(date) == MonthStart(date.y, date.m) + date.d - 1
  {
    SplitCount(date);
    SplitCount(Date(date.y, date.m, 1));
  }

  // ----- Main results -----

  /** The next day, across month ends, leap days and era ends, counts exactly one more. */
  lemma SuccessorAddsOne(date: Date)
    requires Valid(date)
    ensures DaysSinceEpoch(NextDay(date)) == DaysSinceEpoch(date) + 1
  {
    hide DaysSinceEpoch;
    DayOfMonth(date);
    DayOfMonth(NextDay(date));
    MonthLength(date.y, date.m);
  }

  /** The count respects and reflects the calendar order. */
  lemma CountIsOrderIsomorphic(a: Date, b: Date)
    requires Valid(a) && Valid(b)
    ensures Before(a, b) <==> DaysSinceEpoch(a) < DaysSinceEpoch(b)
    ensures a == b <==> DaysSinceEpoch(a) == DaysSinceEpoch(b)
  {
    hide DaysSinceEpoch;
    if Before(a, b) {
      EarlierCountsLess(a, b);
    } else if Before(b, a) {
      EarlierCountsLess(b, a);
    } else {
      assert a == b;
    }
  }

  lemma EarlierCountsLess(a: Date, b: Date)
    requires Valid(a) && Valid(b) && Before(a, b)
    ensures DaysSinceEpoch(a) < DaysSinceEpoch(b)
  {
    hide DaysSinceEpoch;
    DayOfMonth(a);
    DayOfMonth(b);
    if (a.y, a.m) != (b.y, b.m) {
      MonthsAreOrdered(a.y, a.m, b.y, b.m);
    }
  }

  lemma EpochIsZero()
    ensures DaysSinceEpoch(EPOCH) == 0
  {
  }

  /** The closed form equals the walk: day `n` of the walk counts `n` ... */
  lemma {:induction false} CountOfWalk(n: int)
    ensures DaysSinceEpoch(DateAt(n)) == n
    decreases if n < 0 then -n else n
  {
    EpochIsZero();
    hide DaysSinceEpoch, NextDay;
    if n > 0 {
      CountOfWalk(n - 1);
      SuccessorAddsOne(DateAt(n - 1));
    } else if n < 0 {
      CountOfWalk(n + 1);
      SuccessorAddsOne(DateAt(n));
    }
  }

  /** ... and every valid date is reached, at exactly its own count. */
  lemma WalkOfCount(date: Date)
    requires Valid(date)
    ensures DateAt(DaysSinceEpoch(date)) == date
  {
    hide DaysSinceEpoch;
    CountOfWalk(DaysSinceEpoch(date));
    CountIsOrderIsomorphic(date, DateAt(DaysSinceEpoch(date)));
  }

  // ----- Millisecond stamps -----

  const DAY_MS := 86_400_000

  predicate Accepted(s: Stamp) {
    Valid(s.date) && 0 <= s.h <= 23 && 0 <= s.min <= 59
  }

  /** `None` for a month, day, hour or minute outside the calendar or the clock. */
  function YmdHmToMs(s: Stamp): (r: Option<int>) {
    if !(1 <= s.date.m <= 12) || s.date.d < 1 || s.date.d > DaysInMonth(s.date.y, s.date.m) || s.h > 23 || s.min > 59
    then None
    else
      var days := DaysSinceEpoch(s.date);
      var secs := days * 86400 + s.h * 3600 + s.min * 60;
      Some(secs * 1000)
  }

  predicate StampBefore(a: Stamp, b: Stamp) {
    Before(a.date, b.date) || (a.date == b.date && (a.h < b.h || (a.h == b.h && a.min < b.min)))
  }

  /** Months, days, hours and minutes are unsigned numbers. */
  predicate Unsigned(s: Stamp) {
    0 <= s.date.m && 0 <= s.date.d && 0 <= s.h && 0 <= s.min
  }

  lemma StampsAreStrictlyIncreasing(a: Stamp, b: Stamp)
    requires Unsigned(a) && Unsigned(b)
    ensures YmdHmToMs(a).Some? <==> Accepted(a)
    ensures Accepted(a) && Accepted(b) ==>
              && (StampBefore(a, b) <==> YmdHmToMs(a).value < YmdHmToMs(b).value)
              && (StampBefore(a, b) ==> YmdHmToMs(a).value + 60_000 <= YmdHmToMs(b).value)
  {
    hide DaysSinceEpoch;
    if Accepted(a) && Accepted(b) {
      CountIsOrderIsomorphic(a.date, b.date);
    }
  }

  // ----- The 64-bit window -----

  const I64_MIN := -0x8000_0000_0000_0000
  const I64_MAX := 0x7fff_ffff_ffff_ffff

  predicate I64(x: int) { I64_MIN <= x <= I64_MAX }

  predicate CountFits(era: int, yoe: int, quarters: int, centuries: int, fifths: int, d: int) {
    && I64(era) && I64(yoe) && I64(fifths + d) && I64(fifths + d - 1)
    && I64(yoe * 365 + quarters) && I64(yoe * 365 + quarters - centuries)
    && I64(yoe * 365 + quarters - centuries + fifths + d - 1)
    && I64(era * 146097)
    && I64(era * 146097 + yoe * 365 + quarters - centuries + fifths + d - 1)
    && I64(era * 146097 + yoe * 365 + quarters - centuries + fifths + d - 1 - 719468)
  }

  predicate ClockFits(days: int, h: int, min: int) {
    && I64(days * 86400) && I64(days * 86400 + h * 3600)
    && I64(days * 86400 + h * 3600 + min * 60)
    && I64((days * 86400 + h * 3600 + min * 60) * 1000)
  }

  /** Every value the signed 64-bit computation of a stamp goes through is in range. */
  predicate FitsI64(s: Stamp) {
    var (y, m) := if s.date.m <= 2 then (s.date.y - 1, s.date.m + 9) else (s.date.y, s.date.m - 3);
    && I64(s.date.y) && I64(y)
    && I64(153 * m + 2)
    && CountFits(y / 400, y % 400, y % 400 / 4, y % 400 / 100, (153 * m + 2) / 5, s.date.d)
    && ClockFits(DaysSinceEpoch(s.date), s.h, s.min)
  }

  /** The first and the last minute whose stamp is a signed 64-bit number. */
  const FIRST_STAMP := Stamp(Date(-292_275_055, 5, 16), 16, 48)
  const LAST_STAMP := Stamp(Date(292_278_994, 8, 17), 7, 12)

  lemma WindowEnds()
    ensures DaysSinceEpoch(FIRST_STAMP.date) == -106_751_991_168
    ensures DaysSinceEpoch(LAST_STAMP.date) == 106_751_991_167
  {
    assert -292_275_055 / 400 == -730_688 && -292_275_055 % 400 == 145;
    assert 292_278_994 / 400 == 730_697 && 292_278_994 % 400 == 194;
  }

  lemma NarrowCountFits(y: int, era: int, yoe: int, quarters: int, centuries: int, fifths: int, d: int,
                        days: int, clock: int)
    requires y == 400 * era + yoe && 0 <= yoe < 400
    requires 0 <= centuries <= quarters <= 99 && 0 <= fifths <= 337 && 1 <= d <= 31 && 0 <= clock < 86400
    requires days == era * 146097 + yoe * 365 + quarters - centuries + fifths + d - 1 - 719468
    requires I64((days * 86400 + clock) * 1000)
    ensures CountFits(era, yoe, quarters, centuries, fifths, d)
    ensures -400_000_000 <= y <= 400_000_000
  {
    assert -800_000 <= era <= 800_000;
  }

  lemma NarrowClockFits(days: int, h: int, min: int)
    requires 0 <= h <= 23 && 0 <= min <= 59
    requires I64((days * 86400 + h * 3600 + min * 60) * 1000)
    ensures ClockFits(days, h, min)
  {
  }

  lemma PartRanges(m: int, yoe: int)
    requires 0 <= m <= 11 && 0 <= yoe < 400
    ensures 0 <= (153 * m + 2) / 5 <= 337
    ensures 0 <= yoe / 100 <= yoe / 4 <= 99
  {
  }

  /** A stamp in range keeps every intermediate in range: the last product is the widest. */
  lemma ResultIsTheWidest(s: Stamp)
    requires Accepted(s)
    ensures FitsI64(s) <==> I64(YmdHmToMs(s).value)
  {
    hide CountFits, ClockFits;
    if I64(YmdHmToMs(s).value) {
      RangeIsEnough(s);
    } else if ClockFits(DaysSinceEpoch(s.date), s.h, s.min) {
      NarrowClockIsNeeded(s);
    }
  }

  lemma RangeIsEnough(s: Stamp)
    requires Accepted(s) && I64(YmdHmToMs(s).value)
    ensures FitsI64(s)
  {
    hide CountFits, ClockFits;
    var (y, m) := if s.date.m <= 2 then (s.date.y - 1, s.date.m + 9) else (s.date.y, s.date.m - 3);
    var days, clock := DaysSinceEpoch(s.date), s.h * 3600 + s.min * 60;
    assert days == y / 400 * 146097 + y % 400 * 365 + y % 400 / 4 - y % 400 / 100
                 + (153 * m + 2) / 5 + s.date.d - 1 - 719468;
    hide DaysSinceEpoch;
    NarrowClockFits(days, s.h, s.min);
    PartRanges(m, y % 400);
    NarrowCountFits(y, y / 400, y % 400, y % 400 / 4, y % 400 / 100, (153 * m + 2) / 5, s.date.d, days, clock);
  }

  lemma NarrowClockIsNeeded(s: Stamp)
    requires Accepted(s) && ClockFits(DaysSinceEpoch(s.date), s.h, s.min)
    ensures I64(YmdHmToMs(s).value)
  {
    hide DaysSinceEpoch;
  }

  /** A stamp is computed without overflow exactly between two minutes, some 292 million years away. */
  lemma OverflowFreeWindow(s: Stamp)
    requires Accepted(s)
    ensures FitsI64(s) <==> !StampBefore(s, FIRST_STAMP) && !StampBefore(LAST_STAMP, s)
  {
    ResultIsTheWidest(s);
    WindowEnds();
    hide FitsI64, DaysSinceEpoch;
    StampsAreStrictlyIncreasing(s, FIRST_STAMP);
    StampsAreStrictlyIncreasing(FIRST_STAMP, s);
    StampsAreStrictlyIncreasing(LAST_STAMP, s);
    StampsAreStrictlyIncreasing(s, LAST_STAMP);
  }
}
