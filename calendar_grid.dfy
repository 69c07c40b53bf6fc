// The day list both calendar pickers render: every day from the Sunday on or
// before the first of the month to the Saturday on or after its last day.

module CalendarGrid {
  import opened DateUtils

  /** startOfWeek(startOfMonth(month)) */
  function GridStart(month: Date): Date {
    StartOfWeek(StartOfMonth(month))
  }

  /** endOfWeek(endOfMonth(month)) */
  function GridEnd(month: Date): Date {
    EndOfWeek(EndOfMonth(month))
  }

  /** From a Sunday to a Saturday (weekday (n + 4) % 7) there are whole weeks. */
  lemma WholeWeeks(a: int, b: int)
    requires (a + 4) % 7 == 0 && (b + 4) % 7 == 6
    ensures (b - a + 1) % 7 == 0
  {
    var p, q := (a + 4) / 7, (b + 4) / 7;
    assert b - a + 1 == 7 * (q - p + 1);
  }

  /** The number of days the grid shows: at least the four weeks of a February. */
  function GridLength(month: Date): (n: nat)
    ensures n == DayNumber(GridEnd(month)) - DayNumber(GridStart(month)) + 1
    ensures n >= 28
  {
    var a, b := DayNumber(GridStart(month)), DayNumber(GridEnd(month));
    GridBounds(month);
    b - a + 1
  }

  /** The grid starts on a Sunday no later than the first of the month and ends on
      a Saturday no earlier than its last day. */
  lemma GridBounds(month: Date)
    ensures var s, e := GridStart(month), GridEnd(month);
      && WeekDay(s) == 0 && WeekDay(e) == 6
      && DayNumber(s) <= DayNumber(StartOfMonth(month))
      && DayNumber(StartOfMonth(month)) + 27 <= DayNumber(EndOfMonth(month)) <= DayNumber(e)
  {
    var ms, me := StartOfMonth(month), EndOfMonth(month);
    assert FullYear(ms.year) && FullYear(me.year);
    assert ms.year == me.year && ms.month == me.month;
  }

  /** The days of the grid: consecutive days from GridStart. */
  function MonthGrid(month: Date): seq<Date> {
    var s := GridStart(month);
    seq(GridLength(month), i requires 0 <= i => AddDays(s, i))
  }

  /** The i-th day of the grid is i days after its first day. */
  lemma GridDay(month: Date, i: int)
    requires 0 <= i < GridLength(month)
    ensures DayNumber(MonthGrid(month)[i]) == DayNumber(GridStart(month)) + i
  {
  }

  lemma GridDayNumbers(month: Date)
    ensures forall i :: 0 <= i < GridLength(month) ==> DayNumber(MonthGrid(month)[i]) == DayNumber(GridStart(month)) + i
  {
    forall i | 0 <= i < GridLength(month)
      ensures DayNumber(MonthGrid(month)[i]) == DayNumber(GridStart(month)) + i
    {
      GridDay(month, i);
    }
  }

  /** The grid runs over consecutive days from a Sunday to a Saturday, and has a
      length that is a multiple of 7. */
  lemma MonthGridShape(month: Date)
    ensures var days := MonthGrid(month);
      && |days| % 7 == 0 && |days| >= 28
      && WeekDay(days[0]) == 0 && WeekDay(days[|days| - 1]) == 6
      && (forall i :: 0 <= i < |days| - 1 ==> DayNumber(days[i + 1]) == DayNumber(days[i]) + 1)
  {
    GridBounds(month);
    GridDayNumbers(month);
    WeekRun(GridStart(month), GridEnd(month), MonthGrid(month));
  }

  /** Consecutive days from a Sunday to a Saturday: whole weeks, in order. */
  lemma WeekRun(s: Date, e: Date, days: seq<Date>)
    requires WeekDay(s) == 0 && WeekDay(e) == 6
    requires |days| == DayNumber(e) - DayNumber(s) + 1 >= 1
    requires forall i :: 0 <= i < |days| ==> DayNumber(days[i]) == DayNumber(s) + i
    ensures |days| % 7 == 0
    ensures WeekDay(days[0]) == 0 && WeekDay(days[|days| - 1]) == 6
    ensures forall i :: 0 <= i < |days| - 1 ==> DayNumber(days[i + 1]) == DayNumber(days[i]) + 1
  {
    WholeWeeks(DayNumber(s), DayNumber(e));
    SameWeekDay(days[0], s);
    SameWeekDay(days[|days| - 1], e);
  }

  lemma SameWeekDay(a: Date, b: Date)
    requires DayNumber(a) == DayNumber(b)
    ensures WeekDay(a) == WeekDay(b)
  {
  }

  /** Every day of the shown month (the month of startOfMonth(month)) is in the grid,
      and when the year is one the Date constructor takes literally that is month's own month. */
  lemma MonthGridCovers(month: Date, x: Date)
    requires IsSameMonth(x, StartOfMonth(month))
    ensures x in MonthGrid(month)
    ensures FullYear(month.year) ==> IsSameMonth(x, month)
  {
    var days, s := MonthGrid(month), GridStart(month);
    var ms, me := StartOfMonth(month), EndOfMonth(month);
    assert DayNumber(ms) <= DayNumber(x) <= DayNumber(me);
    var i := DayNumber(x) - DayNumber(s);
    assert 0 <= i < |days|;
    DayNumberInjective(days[i], x);
  }

  /** The day-list loop of the calendar renderers. */
  method BuildMonthDays(month: Date) returns (days: seq<Date>)
    ensures days == MonthGrid(month)
  {
    var calendarStart, calendarEnd := GridStart(month), GridEnd(month);
    ghost var first, n := DayNumber(calendarStart), GridLength(month);
    days := [];
    var d := calendarStart;
    while DayNumber(d) <= DayNumber(calendarEnd)
      invariant |days| <= n
      invariant DayNumber(d) == first + |days|
      invariant forall i :: 0 <= i < |days| ==> DayNumber(days[i]) == first + i
      decreases n - |days|
    {
      days := days + [d];
      d := AddDays(d, 1);
    }
    GridDays(month, days);
  }

  /** A list of the grid's length whose i-th day is i days after the grid's first day
      is the grid. */
  lemma GridDays(month: Date, days: seq<Date>)
    requires |days| == GridLength(month)
    requires forall i :: 0 <= i < |days| ==> DayNumber(days[i]) == DayNumber(GridStart(month)) + i
    ensures days == MonthGrid(month)
  {
    var grid := MonthGrid(month);
    forall i | 0 <= i < |days|
      ensures days[i] == grid[i]
    {
      GridDay(month, i);
      DayNumberInjective(days[i], grid[i]);
    }
  }
}
