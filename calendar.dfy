/** Calendar arithmetic used by the booking widget in place of JavaScript's `Date`.
    A date is (year, month, day) with the month counted from 0, as `getMonth()`
    counts it. Local time is a fixed offset from UTC. */
module Calendar {

  datatype Date = Date(year: int, month: int, day: int)

  /** A month cursor: the first day of `month` in `year` (`currentMonth`). */
  datatype YearMonth = YearMonth(year: int, month: int)

  predicate IsLeapYear(y: int) {
    y % 4 == 0 && (y % 100 != 0 || y % 400 == 0)
  }

  /** `new Date(y, m + 1, 0).getDate()`: the number of days of month `m`. */
  function DaysInMonth(y: int, m: int): (n: int)
    requires 0 <= m < 12
    ensures 28 <= n <= 31
    ensures n == 29 <==> m == 1 && IsLeapYear(y)
  {
    if m == 1 then (if IsLeapYear(y) then 29 else 28)
    else if m == 3 || m == 5 || m == 8 || m == 10 then 30
    else 31
  }

  predicate ValidDate(d: Date) {
    0 <= d.month < 12 && 1 <= d.day <= DaysInMonth(d.year, d.month)
  }

  predicate ValidMonth(ym: YearMonth) {
    0 <= ym.month < 12
  }

  /** The year counted from March: January and February belong to the
      previous year, so that a leap day falls at the end of its year. */
  function MarchYear(d: Date): int {
    if d.month < 2 then d.year - 1 else d.year
  }

  /** The month counted from March: March is 0, February 11. */
  function MarchMonth(d: Date): int {
    if d.month >= 2 then d.month - 2 else d.month + 10
  }

  /** The days from March 1 to the 1st of the `mp`-th month counted from
      March. */
  function MonthOffset(mp: int): int {
    (153 * mp + 2) / 5
  }

  /** The days from 1 March of year 0 to 1 March of year `y`. */
  function MarchBase(y: int): int {
    var yoe := y % 400;
    (y / 400) * 146097 + yoe * 365 + yoe / 4 - yoe / 100
  }

  /** The number of days from 1970-01-01 to `d` in the proleptic Gregorian
      calendar (negative before it): whole 400-year eras, years of the era,
      months and days, all counted from March. Euclidean `/` and `%` by a
      positive constant are floor division, which this formula needs. */
  function DayNumber(d: Date): int {
    MarchBase(MarchYear(d)) + MonthOffset(MarchMonth(d)) + d.day - 1 - 719468
  }

  /** Each month counted from March is as long as the calendar month it
      stands for (March is `mp == 0`, January `mp == 10`). */
  lemma MonthOffsetStep(y: int, mp: int)
    requires 0 <= mp < 11
    ensures MonthOffset(mp + 1) - MonthOffset(mp) == DaysInMonth(y, (mp + 2) % 12)
  {
  }

  /** Within one month, consecutive days have consecutive day numbers. */
  lemma DayNumberWithinMonth(y: int, m: int, i: int)
    ensures DayNumber(Date(y, m, i)) == DayNumber(Date(y, m, 1)) + i - 1
  {
  }

  /** `getDay()`: 0 is Sunday, 6 is Saturday; 1970-01-01 was a Thursday. */
  function Weekday(d: Date): (w: int)
    ensures 0 <= w < 7
  {
    (DayNumber(d) + 4) % 7
  }

  /** Local date plus minutes after local midnight, to epoch milliseconds
      (`setHours(h, m, 0, 0)` then `getTime()`), for a zone `utcOffsetMinutes`
      ahead of UTC. Minutes past 24:00 run into the next day, as `setHours` does. */
  function EpochMs(d: Date, minuteOfDay: int, utcOffsetMinutes: int): int {
    (DayNumber(d) * 1440 + minuteOfDay - utcOffsetMinutes) * 60000
  }

  /** Later minutes of the same day are later instants, one minute apart
      being 60000 ms. */
  lemma EpochMsOffset(d: Date, a: int, t: int, off: int)
    ensures EpochMs(d, t, off) - EpochMs(d, a, off) == (t - a) * 60000
  {
  }

  /** Calendar order: `a` is an earlier day than `b`. For valid dates this is the
      order of their local midnights, which is what `date < today` compares. */
  predicate Before(a: Date, b: Date) {
    a.year < b.year
    || (a.year == b.year && a.month < b.month)
    || (a.year == b.year && a.month == b.month && a.day < b.day)
  }

  function MonthOf(d: Date): YearMonth {
    YearMonth(d.year, d.month)
  }

  /** Month order on cursors. */
  predicate MonthBefore(a: YearMonth, b: YearMonth) {
    a.year < b.year || (a.year == b.year && a.month < b.month)
  }

  /** `new Date(y, m + 1)`: the following month, rolling December into January. */
  function NextMonth(ym: YearMonth): (r: YearMonth)
    requires ValidMonth(ym)
    ensures ValidMonth(r) && MonthBefore(ym, r)
    ensures forall x :: ValidMonth(x) && MonthBefore(ym, x) ==> !MonthBefore(x, r)
  {
    if ym.month == 11 then YearMonth(ym.year + 1, 0) else YearMonth(ym.year, ym.month + 1)
  }

  /** `new Date(y, m - 1)`: the preceding month, rolling January into December. */
  function PrevMonth(ym: YearMonth): (r: YearMonth)
    requires ValidMonth(ym)
    ensures ValidMonth(r) && MonthBefore(r, ym)
    ensures forall x :: ValidMonth(x) && MonthBefore(x, ym) ==> !MonthBefore(r, x)
  {
    if ym.month == 0 then YearMonth(ym.year - 1, 11) else YearMonth(ym.year, ym.month - 1)
  }

  /** Moving the cursor forward then back, or back then forward, returns to the
      same month. */
  lemma PrevNextInverse(ym: YearMonth)
    requires ValidMonth(ym)
    ensures PrevMonth(NextMonth(ym)) == ym
    ensures NextMonth(PrevMonth(ym)) == ym
  {
  }

  /** Counted without eras: `365` days a year plus one for each fourth year,
      less one per century, plus one per fourth century. */
  lemma MarchBaseFlat(y: int)
    ensures MarchBase(y) == 365 * y + y / 4 - y / 100 + y / 400
  {
    var q, r := y / 400, y % 400;
    assert y == 400 * q + r;
    assert y / 4 == 100 * q + r / 4;
    assert y / 100 == 4 * q + r / 100;
  }

  /** One more year adds one multiple of `4` exactly when it is one. */
  lemma FloorStep4(x: int)
    ensures (x + 1) / 4 - x / 4 == if (x + 1) % 4 == 0 then 1 else 0
  {
  }

  lemma FloorStep100(x: int)
    ensures (x + 1) / 100 - x / 100 == if (x + 1) % 100 == 0 then 1 else 0
    ensures (x + 1) % 100 == 0 ==> (x + 1) % 4 == 0
  {
  }

  lemma FloorStep400(x: int)
    ensures (x + 1) / 400 - x / 400 == if (x + 1) % 400 == 0 then 1 else 0
    ensures (x + 1) % 400 == 0 ==> (x + 1) % 100 == 0
  {
  }

  /** From one March 1 to the next there are 366 days when the February in
      between has 29 days, and 365 otherwise. */
  lemma MarchBaseStep(y: int)
    ensures MarchBase(y + 1) - MarchBase(y) == if IsLeapYear(y + 1) then 366 else 365
  {
    MarchBaseFlat(y);
    MarchBaseFlat(y + 1);
    FloorStep4(y);
    FloorStep100(y);
    FloorStep400(y);
  }

  /** `new Date(y, m + 1, 0)` is the last day of month `m`: the day after day
      `DaysInMonth(y, m)` is the 1st of the following month. */
  lemma LastDayPrecedesNextMonth(y: int, m: int)
    requires 0 <= m < 12
    ensures var next := NextMonth(YearMonth(y, m));
      DayNumber(Date(y, m, DaysInMonth(y, m))) + 1 == DayNumber(Date(next.year, next.month, 1))
  {
    var next := NextMonth(YearMonth(y, m));
    var last, first := Date(y, m, DaysInMonth(y, m)), Date(next.year, next.month, 1);
    if m == 1 {
      assert MarchYear(last) == y - 1 && MarchMonth(last) == 11 && MonthOffset(11) == 337;
      assert MarchYear(first) == y && MarchMonth(first) == 0 && MonthOffset(0) == 0;
      MarchBaseStep(y - 1);
    } else {
      assert MarchYear(first) == MarchYear(last);
      assert MarchMonth(first) == MarchMonth(last) + 1;
      MonthOffsetStep(y, MarchMonth(last));
    }
  }

  /** A day that is not before `today` lies in today's month or a later one. */
  lemma NotBeforeMonth(d: Date, today: Date)
    requires !Before(d, today)
    ensures !MonthBefore(MonthOf(d), MonthOf(today))
  {
  }

  /** Spot checks of the day count against known weekdays: 1970-01-01 was a
      Thursday, 2025-06-02 a Monday, 2000-02-29 a Tuesday. */
  lemma KnownWeekdays()
    ensures Weekday(Date(1970, 0, 1)) == 4
    ensures Weekday(Date(2025, 5, 2)) == 1
    ensures Weekday(Date(2000, 1, 29)) == 2
  {
    assert MarchBase(1969) == 719162 && MonthOffset(10) == 306;
    assert MarchBase(2025) == 739616 && MonthOffset(3) == 92;
    assert MarchBase(1999) == 730119 && MonthOffset(11) == 337;
    assert DayNumber(Date(1970, 0, 1)) == 0;
    assert DayNumber(Date(2025, 5, 2)) == 20241;
    assert DayNumber(Date(2000, 1, 29)) == 11016;
  }
}
