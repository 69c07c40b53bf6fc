// MonthPicker: a year/month picker. Its list shows twelve month buttons for each
// year from minYear to maxYear; months outside the optional 'YYYY-MM' bounds are
// disabled, and the input shows the selection as 'yyyy.MM'.

module MonthSelection {
  import opened JsBuiltins
  import opened DateUtils
  import opened CoreUtils

  /** The classes and state of one month button. */
  datatype MonthButton = MonthButton(year: int, month: int, selected: bool, current: bool, disabled: bool)

  /** A month button is disabled when its month lies outside the bounds. */
  function ButtonFor(year: int, month: int, selected: YearMonth, today: Date,
                     minMonth: Option<YearMonth>, maxMonth: Option<YearMonth>): (b: MonthButton)
    ensures b.year == year && b.month == month
    ensures b.selected <==> selected == YearMonth(year, month)
    ensures b.current <==> today.year == year && today.month == month
    ensures b.disabled <==> !MonthInBounds(YearMonth(year, month), minMonth, maxMonth)
  {
    var disabled := IsBeforeMonth(year, month, minMonth) || IsAfterMonth(year, month, maxMonth);
    MonthButton(year, month, selected.year == year && selected.month == month,
                today.year == year && today.month == month, disabled)
  }

  /** Twelve buttons per year from minYear to maxYear; none when maxYear < minYear. */
  function ButtonCount(minYear: int, maxYear: int): nat {
    if maxYear < minYear then 0 else 12 * (maxYear - minYear + 1)
  }

  /** The month list, year by year and January to December within a year. */
  function MonthButtons(minYear: int, maxYear: int, selected: YearMonth, today: Date,
                        minMonth: Option<YearMonth>, maxMonth: Option<YearMonth>): seq<MonthButton> {
    seq(ButtonCount(minYear, maxYear), i requires 0 <= i =>
      ButtonFor(minYear + i / 12, i % 12, selected, today, minMonth, maxMonth))
  }

  lemma DivMod12(q: int, m: int)
    requires 0 <= m < 12
    ensures (12 * q + m) / 12 == q && (12 * q + m) % 12 == m
  {
  }

  /** Each month of each listed year has exactly one button, at index 12 * (year - minYear) + month. */
  lemma MonthButtonPosition(minYear: int, maxYear: int, selected: YearMonth, today: Date,
                            minMonth: Option<YearMonth>, maxMonth: Option<YearMonth>, year: int, month: int)
    requires minYear <= year <= maxYear && 0 <= month < 12
    ensures var buttons := MonthButtons(minYear, maxYear, selected, today, minMonth, maxMonth);
      var i := 12 * (year - minYear) + month;
      && 0 <= i < |buttons| && buttons[i].year == year && buttons[i].month == month
      && forall j :: 0 <= j < |buttons| && buttons[j].year == year && buttons[j].month == month ==> j == i
  {
    var buttons := MonthButtons(minYear, maxYear, selected, today, minMonth, maxMonth);
    DivMod12(year - minYear, month);
    forall j | 0 <= j < |buttons| && buttons[j].year == year && buttons[j].month == month
      ensures j == 12 * (year - minYear) + month
    {
      assert j == 12 * (j / 12) + j % 12;
    }
  }

  /** At most one button is marked selected. */
  lemma SelectedButtonUnique(minYear: int, maxYear: int, selected: YearMonth, today: Date,
                             minMonth: Option<YearMonth>, maxMonth: Option<YearMonth>)
    ensures var buttons := MonthButtons(minYear, maxYear, selected, today, minMonth, maxMonth);
      forall i, j :: 0 <= i < |buttons| && 0 <= j < |buttons| && buttons[i].selected && buttons[j].selected ==> i == j
  {
    var buttons := MonthButtons(minYear, maxYear, selected, today, minMonth, maxMonth);
    forall i, j | 0 <= i < |buttons| && 0 <= j < |buttons| && buttons[i].selected && buttons[j].selected
      ensures i == j
    {
      assert i == 12 * (i / 12) + i % 12;
      assert j == 12 * (j / 12) + j % 12;
    }
  }

  /** The input text: the first seven characters of new Date(year, month, 1) as 'yyyy.MM.dd'. */
  function MonthText(year: int, month: int): string {
    Take(FormatDate(Construct(year, month, 1), YmdFormat).value, 7)
  }

  /** For a four-digit year and a month 0-11 the input text is 'yyyy.MM'. */
  lemma MonthTextFourDigitYear(year: int, month: int)
    requires 1000 <= year <= 9999 && 0 <= month < 12
    ensures var s := MonthText(year, month);
      && |s| == 7 && s[4] == '.'
      && AllDigits(s[..4]) && DigitsValue(s[..4]) == year
      && AllDigits(s[5..]) && DigitsValue(s[5..]) == month + 1
  {
    ConstructValid(year, CivilDate(year, month, 1));
    var d := Construct(year, month, 1);
    FormatYmdFourDigitYear(d);
    TakeYearMonth(FormatDate(d, YmdFormat).value);
  }

  /** The first seven characters of a ten-character text keep its year and month parts. */
  lemma TakeYearMonth(full: string)
    requires |full| == 10
    ensures var s := Take(full, 7); |s| == 7 && s[..4] == full[..4] && s[4] == full[4] && s[5..] == full[5..7]
  {
  }

  class MonthPicker {
    const today: Date
    const minMonth: Option<YearMonth>
    const maxMonth: Option<YearMonth>
    const minYear: int
    const maxYear: int
    const input: InputElement?
    const dropdown: Dropdown
    const hasApplyButton: bool
    var selectedYear: int
    var selectedMonth: int

    function Selected(): YearMonth
      reads this
    {
      YearMonth(selectedYear, selectedMonth)
    }

    /** With ordered bounds, the selection lies within them. */
    predicate Valid()
      reads this
    {
      MonthBoundsOrdered(minMonth, maxMonth) ==> MonthInBounds(Selected(), minMonth, maxMonth)
    }

    /** The selection starts as today's month clamped to the bounds; the year range
        defaults to ten years either side of today's. */
    constructor (core: PickerCore, today: Date, minText: string, maxText: string,
                 minYearOption: Option<int>, maxYearOption: Option<int>,
                 input: InputElement?, dropdown: Dropdown, hasApplyButton: bool)
      modifies core, input
      ensures Valid()
      ensures this.today == today && this.input == input && this.dropdown == dropdown
      ensures this.hasApplyButton == hasApplyButton
      ensures minMonth == ParseYearMonth(minText) && maxMonth == ParseYearMonth(maxText)
      ensures minYear == (if Truthy(minYearOption) then minYearOption.value else today.year - 10)
      ensures maxYear == (if Truthy(maxYearOption) then maxYearOption.value else today.year + 10)
      ensures Selected() == ClampMonth(YearMonth(today.year, today.month), minMonth, maxMonth)
      ensures core.dropdowns == Registered(old(core.dropdowns), dropdown)
      ensures input != null ==> input.Shows(MonthText(selectedYear, selectedMonth))
    {
      this.today := today;
      var min, max := ParseYearMonth(minText), ParseYearMonth(maxText);
      minMonth, maxMonth := min, max;
      minYear := if Truthy(minYearOption) then minYearOption.value else today.year - 10;
      maxYear := if Truthy(maxYearOption) then maxYearOption.value else today.year + 10;
      var clamped := ClampMonth(YearMonth(today.year, today.month), min, max);
      selectedYear, selectedMonth := clamped.year, clamped.month;
      this.input, this.dropdown, this.hasApplyButton := input, dropdown, hasApplyButton;
      new;
      assert Valid() && Selected() == clamped;
      core.RegisterDropdown(dropdown);
      assert Selected() == clamped;
      SetInputValue(input, Some(MonthText(clamped.year, clamped.month)));
    }

    /** render's nested loops over the years and their twelve months. */
    method BuildMonthButtons() returns (buttons: seq<MonthButton>)
      ensures buttons == MonthButtons(minYear, maxYear, Selected(), today, minMonth, maxMonth)
    {
      var selected := Selected();
      buttons := [];
      var y := minYear;
      while y <= maxYear
        invariant minYear <= y <= (if minYear <= maxYear then maxYear + 1 else minYear)
        invariant |buttons| == 12 * (y - minYear)
        invariant forall i :: 0 <= i < |buttons| ==>
          buttons[i] == ButtonFor(minYear + i / 12, i % 12, selected, today, minMonth, maxMonth)
        decreases maxYear - y
      {
        var m := 0;
        while m < 12
          invariant 0 <= m <= 12
          invariant |buttons| == 12 * (y - minYear) + m
          invariant forall i :: 0 <= i < |buttons| ==>
            buttons[i] == ButtonFor(minYear + i / 12, i % 12, selected, today, minMonth, maxMonth)
        {
          DivMod12(y - minYear, m);
          buttons := buttons + [ButtonFor(y, m, selected, today, minMonth, maxMonth)];
          m := m + 1;
        }
        y := y + 1;
      }
      assert |buttons| == ButtonCount(minYear, maxYear);
    }

    /** A click on the i-th button: disabled buttons have no handler; otherwise the
        button's data-year and data-month, read back with parseInt, become the selection. */
    method ClickButton(i: int)
      requires 0 <= i < ButtonCount(minYear, maxYear)
      modifies this
      ensures var b := MonthButtons(minYear, maxYear, old(Selected()), today, minMonth, maxMonth)[i];
        if b.disabled then Selected() == old(Selected())
        else Selected() == YearMonth(b.year, b.month)
      ensures Selected() != old(Selected()) ==> MonthInBounds(Selected(), minMonth, maxMonth)
      ensures old(Valid()) ==> Valid()
    {
      var buttons := BuildMonthButtons();
      var b := buttons[i];
      assert b == ButtonFor(minYear + i / 12, i % 12, Selected(), today, minMonth, maxMonth);
      if b.disabled {
        return;
      }
      assert MonthInBounds(YearMonth(b.year, b.month), minMonth, maxMonth);
      selectedYear := DataAttribute(b.year);
      selectedMonth := DataAttribute(b.month);
    }

    /** The apply button: write the selection as 'yyyy.MM' and close the dropdown. */
    method Apply()
      modifies input, dropdown
      ensures hasApplyButton ==>
        (!dropdown.open && (input != null ==> input.Shows(MonthText(selectedYear, selectedMonth))))
      ensures !hasApplyButton ==> unchanged(dropdown) && (input != null ==> unchanged(input))
    {
      if !hasApplyButton {
        return;
      }
      SetInputValue(input, Some(MonthText(selectedYear, selectedMonth)));
      dropdown.open := false;
    }
  }
}
