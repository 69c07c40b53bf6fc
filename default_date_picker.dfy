// DefaultDatePicker: a single-date calendar with optional 'YYYY-MM-DD' bounds.
// The picker object keeps the selected day and the shown month and changes them
// from its click handlers; the calendar is rebuilt from that state on every render.

module SinglePicker {
  import opened JsBuiltins
  import opened DateUtils
  import opened CoreUtils
  import opened CalendarGrid

  /** new Date(bound.getFullYear(), bound.getMonth(), 1) of an optional bound. */
  function BoundMonth(bound: Option<Date>): (r: Option<Date>)
    ensures r.Some? <==> bound.Some?
    ensures bound.Some? && FullYear(bound.value.year) ==>
      r.value == CivilDate(bound.value.year, bound.value.month, 1)
  {
    if bound.None? then None else Some(StartOfMonth(bound.value))
  }

  /** The shown month lies between the months of the bounds. */
  predicate MonthWithin(month: Date, minMonth: Option<Date>, maxMonth: Option<Date>) {
    (minMonth.None? || DayNumber(minMonth.value) <= DayNumber(month))
    && (maxMonth.None? || DayNumber(month) <= DayNumber(maxMonth.value))
  }

  /** A day button is disabled when the day is outside the shown month, before
      minDate or after maxDate. */
  function DayDisabled(date: Date, currentMonth: Date, minDate: Option<Date>, maxDate: Option<Date>): (r: bool)
    ensures !r <==> IsSameMonth(date, currentMonth) && InBounds(date, minDate, maxDate)
  {
    var disabled := !IsSameMonth(date, currentMonth);
    var disabled := if minDate.Some? && DayNumber(date) < DayNumber(minDate.value) then true else disabled;
    if maxDate.Some? && DayNumber(date) > DayNumber(maxDate.value) then true else disabled
  }

  /** The classes and state of one day button. */
  datatype DayCell = DayCell(date: Date, otherMonth: bool, isToday: bool, selected: bool, disabled: bool)

  function Cell(date: Date, currentMonth: Date, today: Date, selectedDate: Date,
                minDate: Option<Date>, maxDate: Option<Date>): (c: DayCell)
    ensures c.date == date
    ensures c.otherMonth <==> !IsSameMonth(date, currentMonth)
    ensures c.isToday <==> DayNumber(date) == DayNumber(today)
    ensures c.selected <==> date == selectedDate
    ensures c.disabled <==> c.otherMonth || !InBounds(date, minDate, maxDate)
  {
    DayNumberInjective(date, selectedDate);
    DayCell(date, !IsSameMonth(date, currentMonth), IsSameDay(date, today), IsSameDay(date, selectedDate),
            DayDisabled(date, currentMonth, minDate, maxDate))
  }

  /** The button of every grid day, in order. */
  function Cells(currentMonth: Date, today: Date, selectedDate: Date, minDate: Option<Date>, maxDate: Option<Date>): (r: seq<DayCell>)
    ensures |r| == GridLength(currentMonth) >= 28
    ensures forall i :: 0 <= i < |r| ==> r[i].date == AddDays(GridStart(currentMonth), i)
  {
    var days := MonthGrid(currentMonth);
    seq(|days|, i requires 0 <= i < |days| => Cell(days[i], currentMonth, today, selectedDate, minDate, maxDate))
  }

  /** At most one button of the calendar is marked selected. */
  lemma SelectedCellUnique(currentMonth: Date, today: Date, selectedDate: Date, minDate: Option<Date>, maxDate: Option<Date>)
    ensures var cells := Cells(currentMonth, today, selectedDate, minDate, maxDate);
      forall i, j :: 0 <= i < |cells| && 0 <= j < |cells| && cells[i].selected && cells[j].selected ==> i == j
  {
    var cells := Cells(currentMonth, today, selectedDate, minDate, maxDate);
    var days := MonthGrid(currentMonth);
    forall i, j | 0 <= i < |cells| && 0 <= j < |cells| && cells[i].selected && cells[j].selected
      ensures i == j
    {
      assert days[i] == selectedDate && days[j] == selectedDate;
      assert DayNumber(days[i]) == DayNumber(GridStart(currentMonth)) + i;
    }
  }

  /** The enabled buttons are exactly the days of the shown month within the bounds. */
  lemma EnabledCellsExact(currentMonth: Date, today: Date, selectedDate: Date, minDate: Option<Date>, maxDate: Option<Date>, x: Date)
    requires FullYear(currentMonth.year)
    ensures var cells := Cells(currentMonth, today, selectedDate, minDate, maxDate);
      (exists i :: 0 <= i < |cells| && cells[i].date == x && !cells[i].disabled)
      <==> IsSameMonth(x, currentMonth) && InBounds(x, minDate, maxDate)
  {
    var cells := Cells(currentMonth, today, selectedDate, minDate, maxDate);
    var days := MonthGrid(currentMonth);
    if IsSameMonth(x, currentMonth) && InBounds(x, minDate, maxDate) {
      assert IsSameMonth(x, StartOfMonth(currentMonth));
      MonthGridCovers(currentMonth, x);
      var i :| 0 <= i < |days| && days[i] == x;
      assert cells[i].date == x && !cells[i].disabled;
    }
  }

  /** With ordered bounds, all in years the Date constructor takes literally, the
      month of the clamped initial day lies between the bounds' months. */
  lemma InitialMonthWithin(today: Date, minDate: Option<Date>, maxDate: Option<Date>)
    ensures var month := StartOfMonth(ClampDate(today, minDate, maxDate));
      (FullYear(today.year) && BoundsOrdered(minDate, maxDate)
       && (minDate.None? || FullYear(minDate.value.year))
       && (maxDate.None? || FullYear(maxDate.value.year))) ==>
      month.day == 1 && MonthWithin(month, BoundMonth(minDate), BoundMonth(maxDate))
  {
    var initial := ClampDate(today, minDate, maxDate);
    if FullYear(today.year) && BoundsOrdered(minDate, maxDate) && (minDate.None? || FullYear(minDate.value.year))
       && (maxDate.None? || FullYear(maxDate.value.year)) {
      if minDate.Some? {
        StartOfMonthMonotone(minDate.value, initial);
      }
      if maxDate.Some? {
        StartOfMonthMonotone(initial, maxDate.value);
      }
    }
  }

  class DefaultDatePicker {
    const today: Date
    const minDate: Option<Date>
    const maxDate: Option<Date>
    const minMonth: Option<Date>
    const maxMonth: Option<Date>
    const input: InputElement?
    const dropdown: Dropdown
    const hasApplyButton: bool
    var selectedDate: Date
    var currentMonth: Date

    /** The shown month is the first of a month between the bounds' months. */
    predicate Valid()
      reads this
    {
      currentMonth.day == 1 && MonthWithin(currentMonth, minMonth, maxMonth)
    }

    /** The initial day is today clamped to the bounds; the calendar shows its month.
        The input shows it and the dropdown joins the registry. */
    constructor (core: PickerCore, today: Date, minText: string, maxText: string,
                 input: InputElement?, dropdown: Dropdown, hasApplyButton: bool)
      modifies core, input
      ensures this.today == today && this.input == input && this.dropdown == dropdown
      ensures this.hasApplyButton == hasApplyButton
      ensures minDate == ParseYmd(minText) && maxDate == ParseYmd(maxText)
      ensures minMonth == BoundMonth(minDate) && maxMonth == BoundMonth(maxDate)
      ensures selectedDate == ClampDate(today, minDate, maxDate)
      ensures currentMonth == StartOfMonth(selectedDate)
      ensures core.dropdowns == Registered(old(core.dropdowns), dropdown)
      ensures input != null ==> input.Shows(FormatDate(selectedDate, YmdFormat).value)
      ensures FullYear(today.year) && BoundsOrdered(minDate, maxDate) ==> Valid()
    {
      this.today := today;
      var min, max := ParseYmd(minText), ParseYmd(maxText);
      minDate, maxDate := min, max;
      var initial := ClampDate(today, min, max);
      selectedDate := initial;
      currentMonth := StartOfMonth(initial);
      this.input, this.dropdown, this.hasApplyButton := input, dropdown, hasApplyButton;
      minMonth, maxMonth := BoundMonth(min), BoundMonth(max);
      new;
      InitialMonthWithin(today, min, max);
      core.RegisterDropdown(dropdown);
      WriteInput();
    }

    /** setInputValue(this.input, formatDate(this.selectedDate, 'yyyy.MM.dd')) */
    method WriteInput()
      modifies input
      ensures input != null ==> input.Shows(FormatDate(selectedDate, YmdFormat).value)
    {
      SetInputValue(input, FormatDate(selectedDate, YmdFormat));
    }

    /** The buttons and the 'yyyy년 M월' header of the current render. */
    method Render() returns (header: string, cells: seq<DayCell>)
      ensures header == FormatDate(currentMonth, YearMonthFormat).value
      ensures cells == Cells(currentMonth, today, selectedDate, minDate, maxDate)
    {
      var month, selected := currentMonth, selectedDate;
      var days := BuildMonthDays(month);
      cells := seq(|days|, i requires 0 <= i < |days| => Cell(days[i], month, today, selected, minDate, maxDate));
      header := FormatDate(currentMonth, YearMonthFormat).value;
    }

    /** _handleDateClick: select the day; without an apply button, also write it to the
        input and close the dropdown. */
    method HandleDateClick(date: Date)
      modifies this, input, dropdown
      ensures selectedDate == date && currentMonth == old(currentMonth)
      ensures !hasApplyButton ==>
        (!dropdown.open && (input != null ==> input.Shows(FormatDate(date, YmdFormat).value)))
      ensures hasApplyButton ==> unchanged(dropdown) && (input != null ==> unchanged(input))
    {
      selectedDate := date;
      if !hasApplyButton {
        WriteInput();
        dropdown.open := false;
      }
    }

    /** A click on the i-th day button: disabled buttons have no handler. */
    method ClickDay(i: int)
      requires 0 <= i < |MonthGrid(currentMonth)|
      modifies this, input, dropdown
      ensures currentMonth == old(currentMonth)
      ensures var date := MonthGrid(old(currentMonth))[i];
        if DayDisabled(date, old(currentMonth), minDate, maxDate) then
          selectedDate == old(selectedDate) && unchanged(dropdown) && (input != null ==> unchanged(input))
        else
          && selectedDate == date
          && (!hasApplyButton ==>
                !dropdown.open && (input != null ==> input.Shows(FormatDate(date, YmdFormat).value)))
          && (hasApplyButton ==> unchanged(dropdown) && (input != null ==> unchanged(input)))
      ensures selectedDate != old(selectedDate) ==>
        IsSameMonth(selectedDate, currentMonth) && InBounds(selectedDate, minDate, maxDate)
    {
      var days := BuildMonthDays(currentMonth);
      var date := days[i];
      if !DayDisabled(date, currentMonth, minDate, maxDate) {
        HandleDateClick(date);
      }
    }

    /** The previous-month button: refused when it would go before minMonth. */
    method Prev()
      modifies this
      ensures selectedDate == old(selectedDate)
      ensures var p := SubMonths(old(currentMonth), 1);
        currentMonth == if minMonth.Some? && DayNumber(p) < DayNumber(minMonth.value) then old(currentMonth) else p
      ensures old(Valid()) ==> Valid()
      ensures old(currentMonth.day) == 1 && currentMonth != old(currentMonth) ==>
        MonthOrdinal(currentMonth.year, currentMonth.month) == MonthOrdinal(old(currentMonth).year, old(currentMonth).month) - 1
    {
      var prevMonth := SubMonths(currentMonth, 1);
      MonthShiftOrder(currentMonth);
      if currentMonth.day == 1 {
        AddMonthsFirstDay(currentMonth, -1);
      }
      if minMonth.Some? && DayNumber(prevMonth) < DayNumber(minMonth.value) {
        return;
      }
      currentMonth := prevMonth;
    }

    /** The next-month button: refused when it would go past maxMonth. */
    method Next()
      modifies this
      ensures selectedDate == old(selectedDate)
      ensures var n := AddMonths(old(currentMonth), 1);
        currentMonth == if maxMonth.Some? && DayNumber(n) > DayNumber(maxMonth.value) then old(currentMonth) else n
      ensures old(Valid()) ==> Valid()
      ensures old(currentMonth.day) == 1 && currentMonth != old(currentMonth) ==>
        MonthOrdinal(currentMonth.year, currentMonth.month) == MonthOrdinal(old(currentMonth).year, old(currentMonth).month) + 1
    {
      var nextMonth := AddMonths(currentMonth, 1);
      MonthShiftOrder(currentMonth);
      if currentMonth.day == 1 {
        AddMonthsFirstDay(currentMonth, 1);
      }
      if maxMonth.Some? && DayNumber(nextMonth) > DayNumber(maxMonth.value) {
        return;
      }
      currentMonth := nextMonth;
    }

    /** The apply button: write the selected day to the input and close the dropdown. */
    method Apply()
      modifies input, dropdown
      ensures hasApplyButton ==>
        (!dropdown.open && (input != null ==> input.Shows(FormatDate(selectedDate, YmdFormat).value)))
      ensures !hasApplyButton ==> unchanged(dropdown) && (input != null ==> unchanged(input))
    {
      if !hasApplyButton {
        return;
      }
      WriteInput();
      dropdown.open := false;
    }
  }
}
