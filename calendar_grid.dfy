/** The month grid of the booking widget (`generateCalendarDays`): blank cells
    up to the weekday of the 1st, the days of the displayed month, and, near the
    end of today's month, the first three days of the following month. Only the
    cell structure is modelled; each day cell carries its date. */
module CalendarGrid {
  import opened Calendar

  datatype Cell = Blank | Day(date: Date)

  /** The number of leading blanks: the weekday of the 1st (`firstDay.getDay()`). */
  function LeadingBlanks(ym: YearMonth): (n: int)
    ensures 0 <= n < 7
  {
    Weekday(Date(ym.year, ym.month, 1))
  }

  /** `isLastFiveDays`: today's month number equals the displayed one and today
      is one of that month's last five days. The year is not compared. */
  predicate IsLastFiveDays(ym: YearMonth, today: Date)
    requires ValidMonth(ym)
    ensures IsLastFiveDays(ym, today) ==> today.month == ym.month && today.day >= 24
  {
    today.month == ym.month && today.day > DaysInMonth(ym.year, ym.month) - 5
  }

  /** The cells the widget shows for the cursor `ym`. */
  function CalendarDays(ym: YearMonth, today: Date): (cells: seq<Cell>)
    requires ValidMonth(ym)
    ensures 28 <= |cells| <= 40
  {
    var next := NextMonth(ym);
    seq(LeadingBlanks(ym), _ => Blank)
    + seq(DaysInMonth(ym.year, ym.month), i => Day(Date(ym.year, ym.month, i + 1)))
    + (if IsLastFiveDays(ym, today) then seq(3, i => Day(Date(next.year, next.month, i + 1))) else [])
  }

  /** `generateCalendarDays`: three loops pushing blanks, the month's days and,
      in the last five days, days 1 to 3 of the next month (`new Date(year,
      month + 1, i)`, which rolls December into January of the next year). */
  method GenerateCalendarDays(ym: YearMonth, today: Date) returns (days: seq<Cell>)
    requires ValidMonth(ym)
    ensures days == CalendarDays(ym, today)
  {
    var year, month := ym.year, ym.month;
    var daysInMonth := DaysInMonth(year, month);
    var startingDay := Weekday(Date(year, month, 1));
    days := [];
    var i := 0;
    while i < startingDay
      invariant 0 <= i <= startingDay
      invariant days == seq(i, _ => Blank)
    {
      days := days + [Blank];
      i := i + 1;
    }
    ghost var blanks := days;
    i := 1;
    while i <= daysInMonth
      invariant 1 <= i <= daysInMonth + 1
      invariant days == blanks + seq(i - 1, k => Day(Date(year, month, k + 1)))
    {
      days := days + [Day(Date(year, month, i))];
      i := i + 1;
    }
    ghost var monthDays := days;
    var isLastFiveDays := today.month == month && today.day > daysInMonth - 5;
    if isLastFiveDays {
      var next := NextMonth(ym);
      i := 1;
      while i <= 3
        invariant 1 <= i <= 4
        invariant days == monthDays + seq(i - 1, k => Day(Date(next.year, next.month, k + 1)))
      {
        days := days + [Day(Date(next.year, next.month, i))];
        i := i + 1;
      }
    }
  }

  /** The grid's shape: `startingDay` blanks, then day `k + 1` of the month at
      position `startingDay + k`, then days 1 to 3 of the following month exactly
      when today is in the last five days of a month with the displayed month's
      number. */
  lemma CalendarDaysShape(ym: YearMonth, today: Date)
    requires ValidMonth(ym)
    ensures var cells := CalendarDays(ym, today);
      var lead, dim, next := LeadingBlanks(ym), DaysInMonth(ym.year, ym.month), NextMonth(ym);
      && |cells| == lead + dim + (if IsLastFiveDays(ym, today) then 3 else 0)
      && (forall i :: 0 <= i < lead ==> cells[i] == Blank)
      && (forall i :: lead <= i < lead + dim ==> cells[i] == Day(Date(ym.year, ym.month, i - lead + 1)))
      && (IsLastFiveDays(ym, today) ==>
            forall i :: lead + dim <= i < |cells| ==> cells[i] == Day(Date(next.year, next.month, i - lead - dim + 1)))
  {
  }

  /** Every day cell holds a valid date that is not before the displayed month. */
  lemma CalendarDaysValid(ym: YearMonth, today: Date)
    requires ValidMonth(ym)
    ensures var cells := CalendarDays(ym, today);
      forall i :: 0 <= i < |cells| && cells[i].Day? ==>
        ValidDate(cells[i].date) && !MonthBefore(MonthOf(cells[i].date), ym)
  {
  }

  /** The weekday advances by one per day, wrapping after Saturday. */
  lemma WeekdayOfDay(y: int, m: int, k: int)
    requires 0 <= m < 12 && 1 <= k
    ensures Weekday(Date(y, m, k)) == (Weekday(Date(y, m, 1)) + k - 1) % 7
  {
    DayNumberWithinMonth(y, m, k);
    ModSeven(DayNumber(Date(y, m, 1)) + 4, k - 1);
  }

  lemma ModSeven(a: int, b: int)
    ensures (a + b) % 7 == (a % 7 + b) % 7
  {
    var q := a / 7;
    assert a == 7 * q + a % 7;
    assert a + b == 7 * q + (a % 7 + b);
  }

  /** Laid out seven to a row, every day of the displayed month falls in the
      column of its weekday (Sunday first). */
  lemma DaysInWeekdayColumns(ym: YearMonth, today: Date, i: int)
    requires ValidMonth(ym)
    requires LeadingBlanks(ym) <= i < LeadingBlanks(ym) + DaysInMonth(ym.year, ym.month)
    ensures var cells := CalendarDays(ym, today);
      cells[i].Day? && Weekday(cells[i].date) == i % 7
  {
    var k := i - LeadingBlanks(ym) + 1;
    CalendarDaysShape(ym, today);
    WeekdayOfDay(ym.year, ym.month, k);
  }

  /** The year is not compared: the displayed month in a year other than
      today's still gets the overflow days when the month numbers match. */
  lemma LastFiveDaysIgnoresYear()
    ensures IsLastFiveDays(YearMonth(2026, 0), Date(2025, 0, 30))
    ensures |CalendarDays(YearMonth(2026, 0), Date(2025, 0, 30))| == LeadingBlanks(YearMonth(2026, 0)) + 34
  {
    CalendarDaysShape(YearMonth(2026, 0), Date(2025, 0, 30));
  }

  /** Overflow days after December belong to January of the following year. */
  lemma DecemberOverflow(y: int, today: Date)
    requires IsLastFiveDays(YearMonth(y, 11), today)
    ensures var cells := CalendarDays(YearMonth(y, 11), today);
      cells[|cells| - 1] == Day(Date(y + 1, 0, 3))
  {
    CalendarDaysShape(YearMonth(y, 11), today);
  }
}
