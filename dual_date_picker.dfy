// DualDatePicker: a date-range picker with two calendars, preset ranges and an
// inline year/month list per calendar. The picker object keeps the range
// (startDate, endDate), the preset key that produced it and the two shown months,
// and its handlers change them; the calendars are rebuilt from that state.

module RangePicker {
  import opened JsBuiltins
  import opened DateUtils
  import opened CoreUtils
  import opened CalendarGrid

  datatype Range = Range(start: Date, end: Date)

  /** An end is only ever set together with a start, and never before it. */
  predicate RangeState(start: Option<Date>, end: Option<Date>) {
    (end.Some? ==> start.Some?)
    && (start.Some? && end.Some? ==> DayNumber(start.value) <= DayNumber(end.value))
  }

  // ---------------------------------------------------------------------------
  // Moving the shown months

  /** The shown month n months away: setDate(1) and then setMonth(m + n) of the shown
      month, the first of the month n months away in every year.
      (The code keeps the day of month instead; see ShiftKeepsDayOverflow.) */
  function ShiftMonth(month: Date, n: int): (r: Date)
    ensures r.day == 1 && MonthOrdinal(r.year, r.month) == MonthOrdinal(month.year, month.month) + n
  {
    var k := MonthOrdinal(month.year, month.month) + n;
    assert MonthOrdinal(month.year, month.month + n) == k;
    OrdinalOfParts(k);
    MakeDay(month.year, month.month + n, 1)
  }

  /** As written, addMonths/subMonths keep the day of month: from 31 January 2025 the
      next month is 3 March 2025, and from 31 March 2024 the previous month is 2 March
      2024, the same month. */
  lemma ShiftKeepsDayOverflow()
    ensures AddMonths(CivilDate(2025, 0, 31), 1) == CivilDate(2025, 2, 3)
    ensures SubMonths(CivilDate(2024, 2, 31), 1) == CivilDate(2024, 2, 2)
    ensures IsSameMonth(SubMonths(CivilDate(2024, 2, 31), 1), CivilDate(2024, 2, 31))
  {
    NextMonthFromJanuary31();
    PrevMonthFromMarch31();
  }

  lemma NextMonthFromJanuary31()
    ensures AddMonths(CivilDate(2025, 0, 31), 1) == CivilDate(2025, 2, 3)
  {
    assert 24301 / 12 == 2025 && 24301 % 12 == 1 && 24302 / 12 == 2025 && 24302 % 12 == 2;
    assert MonthLength(24301) == DaysInMonth(2025, 1) == 28;
  }

  lemma PrevMonthFromMarch31()
    ensures SubMonths(CivilDate(2024, 2, 31), 1) == CivilDate(2024, 2, 2)
    ensures IsSameMonth(SubMonths(CivilDate(2024, 2, 31), 1), CivilDate(2024, 2, 31))
  {
    assert 24289 / 12 == 2024 && 24289 % 12 == 1 && 24290 / 12 == 2024 && 24290 % 12 == 2;
    assert MonthLength(24289) == DaysInMonth(2024, 1) == 29;
  }

  // ---------------------------------------------------------------------------
  // Presets

  /** The seven preset keys: the cases of _applyPreset's switch and the own
      properties of the label map. */
  predicate PresetKey(key: string) {
    key in {"yesterday", "today", "last7", "last30", "prevW", "thisM", "prevM"}
  }

  /** The property names an object literal inherits from Object.prototype
      (section 20.1.3 of ECMA-262, with the legacy accessors of its Annex B.2.2). */
  predicate InheritedName(key: string) {
    key in {"constructor", "hasOwnProperty", "isPrototypeOf", "propertyIsEnumerable",
            "toLocaleString", "toString", "valueOf", "__defineGetter__", "__defineSetter__",
            "__lookupGetter__", "__lookupSetter__", "__proto__"}
  }

  /** The text an inherited member shows once assigned to textContent: a built-in
      function prints in the NativeFunction form of Function.prototype.toString, and
      __proto__ yields Object.prototype itself, which prints as '[object Object]'. */
  function InheritedText(key: string): string {
    if key == "__proto__" then "[object Object]"
    else if key == "constructor" then "function Object() { [native code] }"
    else "function " + key + "() { [native code] }"
  }

  /** labelMap[key] of the preset label map, an object literal: its own seven keys
      give their labels, inherited names give the inherited member, and every other
      key is undefined (None). Every value found is truthy. */
  function LabelOf(key: string): (r: Option<string>)
    ensures r.Some? <==> PresetKey(key) || InheritedName(key)
    ensures InheritedName(key) ==> r == Some(InheritedText(key))
    ensures r.Some? ==> r.value != ""
  {
    if key == "yesterday" then Some("어제")
    else if key == "today" then Some("오늘")
    else if key == "last7" then Some("최근 7일")
    else if key == "last30" then Some("최근 30일")
    else if key == "prevW" then Some("지난주")
    else if key == "thisM" then Some("이번달")
    else if key == "prevM" then Some("지난달")
    else if InheritedName(key) then Some(InheritedText(key))
    else None
  }

  /** The previous calendar month as written: the months of subMonths(t, 1). */
  function PrevMonthRangeAsWritten(t: Date): Range {
    var prev := SubMonths(t, 1);
    Range(StartOfMonth(prev), EndOfMonth(prev))
  }

  /** On 31 March 2024 the 'prevM' preset as written gives March 2024, not February. */
  lemma PrevMonthPresetOnMarch31()
    ensures PrevMonthRangeAsWritten(CivilDate(2024, 2, 31)) == Range(CivilDate(2024, 2, 1), CivilDate(2024, 2, 31))
  {
    ShiftKeepsDayOverflow();
  }

  /** The previous calendar month: new Date(y, m - 1, 1) to new Date(y, m, 0). */
  function PrevMonthRange(t: Date): (r: Range)
    ensures FullYear(t.year) ==>
      && r.start.day == 1
      && MonthOrdinal(r.start.year, r.start.month) == MonthOrdinal(t.year, t.month) - 1
      && IsSameMonth(r.end, r.start)
      && r.end.day == DaysInMonth(r.end.year, r.end.month)
  {
    var k := MonthOrdinal(t.year, t.month);
    OrdinalOfParts(k - 1);
    assert FullYear(t.year) ==> MonthOrdinal(t.year, t.month - 1) == k - 1;
    assert Normalize(k, 0) == Normalize(k - 1, MonthLength(k - 1));
    Range(Construct(t.year, t.month - 1, 1), Construct(t.year, t.month, 0))
  }

  /** _applyPreset's table: the range of each preset key relative to today; null for
      any other key. */
  function PresetRange(t: Date, key: string): (r: Option<Range>)
    ensures r.Some? <==> PresetKey(key)
  {
    if key == "yesterday" then
      var y := SubDays(t, 1);
      Some(Range(y, y))
    else if key == "today" then Some(Range(t, t))
    else if key == "last7" then Some(Range(SubDays(t, 6), t))
    else if key == "last30" then Some(Range(SubDays(t, 29), t))
    else if key == "prevW" then
      var endLast := SubDays(t, WeekDay(t) + 1);
      Some(Range(SubDays(endLast, 6), endLast))
    else if key == "thisM" then Some(Range(StartOfMonth(t), t))
    else if key == "prevM" then Some(PrevMonthRange(t))
    else None
  }

  /** 'yesterday' and 'today' are single days; 'last7' and 'last30' end today and
      span 7 and 30 days. */
  lemma PresetSpans(t: Date)
    ensures var r := PresetRange(t, "yesterday").value;
      r.start == r.end && DayNumber(r.end) == DayNumber(t) - 1
    ensures PresetRange(t, "today").value == Range(t, t)
    ensures var r := PresetRange(t, "last7").value;
      r.end == t && DayNumber(r.end) - DayNumber(r.start) + 1 == 7
    ensures var r := PresetRange(t, "last30").value;
      r.end == t && DayNumber(r.end) - DayNumber(r.start) + 1 == 30
  {
  }

  /** 'prevW' runs from a Sunday to the Saturday just before the current week. */
  lemma PrevWeekPreset(t: Date)
    ensures var r := PresetRange(t, "prevW").value;
      && WeekDay(r.start) == 0 && WeekDay(r.end) == 6
      && DayNumber(r.end) - DayNumber(r.start) == 6
      && (FullYear(t.year) ==> DayNumber(r.end) + 1 == DayNumber(StartOfWeek(t)))
  {
    var r := PresetRange(t, "prevW").value;
    WeekDayOffset(t, r.end, -WeekDay(t) - 1);
    WeekDayOffset(r.end, r.start, -6);
  }

  /** 'thisM' runs from the first of today's month to today, and 'prevM' is the
      previous calendar month. */
  lemma MonthPresets(t: Date)
    requires FullYear(t.year)
    ensures PresetRange(t, "thisM").value == Range(CivilDate(t.year, t.month, 1), t)
    ensures var r := PresetRange(t, "prevM").value;
      && r.start.day == 1
      && MonthOrdinal(r.start.year, r.start.month) == MonthOrdinal(t.year, t.month) - 1
      && IsSameMonth(r.end, r.start)
      && r.end.day == DaysInMonth(r.end.year, r.end.month)
  {
  }

  /** Every preset range starts no later than it ends. */
  lemma PresetOrdered(t: Date, key: string)
    requires FullYear(t.year)
    requires PresetRange(t, key).Some?
    ensures DayNumber(PresetRange(t, key).value.start) <= DayNumber(PresetRange(t, key).value.end)
  {
    var r := PresetRange(t, key).value;
    if key == "thisM" {
      DayNumberOrder(t, r.start);
    } else if key == "prevM" {
      assert MonthOrdinal(r.start.year, r.start.month) == MonthOrdinal(r.end.year, r.end.month);
    }
  }

  // ---------------------------------------------------------------------------
  // The day buttons

  /** isSameDay against an optional end is equality with it. */
  lemma SameDayAsEnd(day: Date, end: Option<Date>)
    ensures end.Some? ==> (IsSameDay(day, end.value) <==> day == end.value)
  {
    if end.Some? {
      DayNumberInjective(day, end.value);
    }
  }

  /** The in-range mark: the closed interval when both ends are set, and each set
      end on its own. */
  function InRange(day: Date, start: Option<Date>, end: Option<Date>): (r: bool)
    ensures start.Some? && end.Some? && DayNumber(start.value) <= DayNumber(end.value) ==>
      (r <==> DayNumber(start.value) <= DayNumber(day) <= DayNumber(end.value))
    ensures start.Some? && end.None? ==> (r <==> day == start.value)
    ensures start.None? ==> (r <==> end.Some? && day == end.value)
  {
    SameDayAsEnd(day, start);
    SameDayAsEnd(day, end);
    var isStart := start.Some? && IsSameDay(day, start.value);
    var isEnd := end.Some? && IsSameDay(day, end.value);
    var hasOnlyStart := start.Some? && end.None?;
    var inRange := if start.Some? && end.Some? then IsWithinInterval(day, start.value, end.value) else false;
    var inRange := if hasOnlyStart && isStart then true else inRange;
    isStart || isEnd || inRange
  }

  datatype RangeCell = RangeCell(date: Date, otherMonth: bool, isToday: bool, selected: bool, inRange: bool,
                                 rangeStart: bool, rangeEnd: bool, pending: bool, disabled: bool)

  /** The classes of one day button of a calendar showing month. */
  function DayMark(day: Date, month: Date, today: Date, start: Option<Date>, end: Option<Date>): (c: RangeCell)
    ensures c.date == day
    ensures c.disabled <==> c.otherMonth
    ensures c.otherMonth <==> !IsSameMonth(day, month)
    ensures c.rangeStart <==> start == Some(day)
    ensures c.rangeEnd <==> end == Some(day)
    ensures c.selected <==> !c.disabled && (c.rangeStart || c.rangeEnd)
    ensures c.pending <==> c.rangeStart && end.None?
    ensures c.inRange <==> InRange(day, start, end)
    ensures c.selected ==> c.inRange
  {
    SameDayAsEnd(day, start);
    SameDayAsEnd(day, end);
    var isCurrentMonth := IsSameMonth(day, month);
    var isStart := start.Some? && IsSameDay(day, start.value);
    var isEnd := end.Some? && IsSameDay(day, end.value);
    RangeCell(day, !isCurrentMonth, IsSameDay(day, today), isCurrentMonth && (isStart || isEnd),
              InRange(day, start, end), isStart, isEnd, isStart && end.None?, !isCurrentMonth)
  }

  /** The buttons of the calendar showing month. */
  function RangeCells(month: Date, today: Date, start: Option<Date>, end: Option<Date>): (r: seq<RangeCell>)
    ensures |r| == GridLength(month) >= 28
    ensures forall i :: 0 <= i < |r| ==> r[i].date == AddDays(GridStart(month), i)
  {
    var days := MonthGrid(month);
    seq(|days|, i requires 0 <= i < |days| => DayMark(days[i], month, today, start, end))
  }

  /** The in-range buttons of a calendar form one unbroken run. */
  lemma InRangeContiguous(month: Date, today: Date, start: Option<Date>, end: Option<Date>, i: int, j: int, k: int)
    requires RangeState(start, end)
    requires 0 <= i <= j <= k < |RangeCells(month, today, start, end)|
    requires RangeCells(month, today, start, end)[i].inRange && RangeCells(month, today, start, end)[k].inRange
    ensures RangeCells(month, today, start, end)[j].inRange
  {
    var days, s := MonthGrid(month), GridStart(month);
    assert DayNumber(days[i]) == DayNumber(s) + i;
    assert DayNumber(days[j]) == DayNumber(s) + j;
    assert DayNumber(days[k]) == DayNumber(s) + k;
    if start.Some? && end.None? {
      DayNumberInjective(days[i], days[k]);
      DayNumberInjective(days[i], days[j]);
    }
  }

  // ---------------------------------------------------------------------------
  // The picker

  /** The input text of a range: the two 'yyyy.MM.dd' texts joined by " - ". */
  function RangeText(start: Date, end: Date): string {
    FormatDate(start, YmdFormat).value + " - " + FormatDate(end, YmdFormat).value
  }

  lemma NoSpaceInYmd(date: Date)
    ensures ' ' !in FormatDate(date, YmdFormat).value
  {
    TwoDigitsValue(date.month + 1);
    TwoDigitsValue(date.day);
    NoSpaceInNumber(date.year);
    NoSpaceDotted(NumberToString(date.year), TwoDigits(date.month + 1), TwoDigits(date.day));
  }

  lemma NoSpaceInNumber(n: int)
    ensures ' ' !in NumberToString(n)
  {
    var a := if n < 0 then -n else n;
    NatToStringDigits(a);
    DigitsExclude(NatToString(a), ' ');
  }

  lemma NoSpaceDotted(y: string, mm: string, dd: string)
    requires ' ' !in y && AllDigits(mm) && AllDigits(dd)
    ensures ' ' !in y + "." + mm + "." + dd
  {
    DigitsExclude(mm, ' ');
    DigitsExclude(dd, ' ');
  }

  /** The input text splits at its spaces into the start text, "-" and the end text. */
  lemma RangeTextSplit(start: Date, end: Date)
    ensures Split(RangeText(start, end), ' ') == [FormatDate(start, YmdFormat).value, "-", FormatDate(end, YmdFormat).value]
  {
    NoSpaceInYmd(start);
    NoSpaceInYmd(end);
    var a, b := FormatDate(start, YmdFormat).value, FormatDate(end, YmdFormat).value;
    assert RangeText(start, end) == a + [' '] + "-" + [' '] + b;
    SplitThree(a, "-", b, ' ');
  }

  /** The preset label text: what labelMap finds for the current key, '' when
      there is no key or nothing is found. */
  function ShownLabel(key: Option<string>): (r: string)
    ensures key.Some? && LabelOf(key.value).Some? ==> r == LabelOf(key.value).value
    ensures key.None? || LabelOf(key.value).None? <==> r == ""
  {
    if key.Some? && LabelOf(key.value).Some? then LabelOf(key.value).value else ""
  }

  class DualDatePicker {
    const today: Date
    const minYear: int
    const maxYear: int
    const input: InputElement?
    const dropdown: Dropdown
    const hasApplyButton: bool
    const hasPresetLabel: bool
    /** The data-preset value of each preset button, in order. */
    const presetButtons: seq<string>
    var leftMonth: Date
    var rightMonth: Date
    var startDate: Option<Date>
    var endDate: Option<Date>
    var currentPresetKey: Option<string>
    /** The preset button carrying the 'active' class. */
    var activeButton: Option<nat>
    var leftMonthPickerOpen: bool
    var rightMonthPickerOpen: bool
    var presetLabelText: string
    var presetLabelHidden: bool

    predicate Valid()
      reads this
    {
      FullYear(today.year) && RangeState(startDate, endDate)
    }

    /** The left calendar shows the month before today's, the right one today's; the
        range starts as the last seven days, and the input shows it. */
    constructor (core: PickerCore, today: Date, minYearOption: Option<int>, maxYearOption: Option<int>,
                 input: InputElement?, dropdown: Dropdown, hasApplyButton: bool, hasPresetLabel: bool,
                 presetButtons: seq<string>)
      modifies core, input
      ensures FullYear(today.year) ==> Valid()
      ensures this.today == today && this.input == input && this.dropdown == dropdown
      ensures this.hasApplyButton == hasApplyButton && this.hasPresetLabel == hasPresetLabel
      ensures this.presetButtons == presetButtons
      ensures minYear == (if Truthy(minYearOption) then minYearOption.value else today.year - 10)
      ensures maxYear == (if Truthy(maxYearOption) then maxYearOption.value else today.year + 10)
      ensures leftMonth == ShiftMonth(today, -1) && rightMonth == today
      ensures startDate == Some(SubDays(today, 6)) && endDate == Some(today)
      ensures currentPresetKey == Some("last7") && activeButton == None
      ensures !leftMonthPickerOpen && !rightMonthPickerOpen
      ensures core.dropdowns == Registered(old(core.dropdowns), dropdown)
      ensures input != null ==> input.Shows(RangeText(SubDays(today, 6), today))
      ensures input != null && hasPresetLabel ==> presetLabelText == "최근 7일" && !presetLabelHidden
    {
      this.today := today;
      leftMonth := ShiftMonth(today, -1);
      rightMonth := today;
      startDate, endDate := None, None;
      minYear := if Truthy(minYearOption) then minYearOption.value else today.year - 10;
      maxYear := if Truthy(maxYearOption) then maxYearOption.value else today.year + 10;
      this.input, this.dropdown := input, dropdown;
      this.hasApplyButton, this.hasPresetLabel, this.presetButtons := hasApplyButton, hasPresetLabel, presetButtons;
      currentPresetKey := None;
      activeButton := None;
      leftMonthPickerOpen, rightMonthPickerOpen := false, false;
      presetLabelText, presetLabelHidden := "", true;
      new;
      core.RegisterDropdown(dropdown);
      InitDefaultRange();
    }

    /** _initDefaultRange: the last seven days, under the 'last7' key. */
    method InitDefaultRange()
      modifies this`startDate, this`endDate, this`currentPresetKey, this`presetLabelText, this`presetLabelHidden, input
      ensures startDate == Some(SubDays(today, 6)) && endDate == Some(today)
      ensures currentPresetKey == Some("last7")
      ensures input != null ==> input.Shows(RangeText(SubDays(today, 6), today))
      ensures input != null && hasPresetLabel ==> presetLabelText == "최근 7일" && !presetLabelHidden
      ensures RangeState(startDate, endDate)
    {
      startDate := Some(SubDays(today, 6));
      endDate := Some(today);
      currentPresetKey := Some("last7");
      UpdateInputValue();
    }

    /** _updateInputValue: with an input and both ends set, write the range text and
        show the label of the current preset key (hidden and empty for none). */
    method UpdateInputValue()
      modifies this`presetLabelText, this`presetLabelHidden, input
      ensures if input == null || startDate.None? || endDate.None? then
          (input != null ==> unchanged(input))
          && presetLabelText == old(presetLabelText) && presetLabelHidden == old(presetLabelHidden)
        else
          && input.Shows(RangeText(startDate.value, endDate.value))
          && (hasPresetLabel ==>
                presetLabelText == ShownLabel(currentPresetKey) && presetLabelHidden == (ShownLabel(currentPresetKey) == ""))
          && (!hasPresetLabel ==>
                presetLabelText == old(presetLabelText) && presetLabelHidden == old(presetLabelHidden))
    {
      if input == null || startDate.None? || endDate.None? {
        return;
      }
      SetInputValue(input, Some(RangeText(startDate.value, endDate.value)));
      if !hasPresetLabel {
        return;
      }
      if currentPresetKey.Some? && LabelOf(currentPresetKey.value).Some? {
        presetLabelText := LabelOf(currentPresetKey.value).value;
        presetLabelHidden := false;
        assert presetLabelText == ShownLabel(currentPresetKey) != "";
      } else {
        presetLabelText := "";
        presetLabelHidden := true;
      }
    }

    /** _handleDateClick: a first click (or a click after a complete range) starts a
        new range; a second click ends it, swapping the two when it is earlier. */
    method HandleDateClick(date: Date)
      modifies this`startDate, this`endDate, this`currentPresetKey, this`activeButton
      ensures old(startDate).None? || old(endDate).Some? ==> startDate == Some(date) && endDate == None
      ensures old(startDate).Some? && old(endDate).None? ==>
        if DayNumber(date) < DayNumber(old(startDate).value) then startDate == Some(date) && endDate == old(startDate)
        else startDate == old(startDate) && endDate == Some(date)
      ensures currentPresetKey == None && activeButton == None
      ensures old(Valid()) ==> Valid()
    {
      if startDate.None? || (startDate.Some? && endDate.Some?) {
        startDate := Some(date);
        endDate := None;
      } else if IsBefore(date, startDate.value) {
        DayNumberOrder(date, startDate.value);
        endDate := startDate;
        startDate := Some(date);
      } else {
        DayNumberOrder(date, startDate.value);
        endDate := Some(date);
      }
      currentPresetKey := None;
      activeButton := None;
    }

    /** _applyPreset: set the range of a known key; any other key (or none) changes nothing. */
    method ApplyPreset(key: Option<string>)
      modifies this`startDate, this`endDate
      ensures key.None? || PresetRange(today, key.value).None? ==>
        startDate == old(startDate) && endDate == old(endDate)
      ensures key.Some? && PresetRange(today, key.value).Some? ==>
        startDate == Some(PresetRange(today, key.value).value.start)
        && endDate == Some(PresetRange(today, key.value).value.end)
      ensures old(Valid()) ==> Valid()
    {
      if key.None? {
        return;
      }
      var range := PresetRange(today, key.value);
      if range.None? {
        return;
      }
      if FullYear(today.year) {
        PresetOrdered(today, key.value);
      }
      startDate := Some(range.value.start);
      endDate := Some(range.value.end);
    }

    /** A click on the i-th preset button: it alone becomes active, its data-preset
        (or null when empty) becomes the current key, and the preset is applied. */
    method ClickPreset(i: int)
      requires 0 <= i < |presetButtons|
      modifies this`startDate, this`endDate, this`currentPresetKey, this`activeButton
      ensures activeButton == Some(i)
      ensures currentPresetKey == if presetButtons[i] == "" then None else Some(presetButtons[i])
      ensures !PresetKey(presetButtons[i]) ==> startDate == old(startDate) && endDate == old(endDate)
      ensures PresetKey(presetButtons[i]) ==>
        startDate == Some(PresetRange(today, presetButtons[i]).value.start)
        && endDate == Some(PresetRange(today, presetButtons[i]).value.end)
      ensures old(Valid()) ==> Valid()
    {
      activeButton := Some(i);
      currentPresetKey := if presetButtons[i] == "" then None else Some(presetButtons[i]);
      ApplyPreset(currentPresetKey);
    }

    /** render's rule for the apply button: enabled exactly when both ends are set. */
    function ApplyDisabled(): (r: bool)
      reads this
      ensures !r <==> startDate.Some? && endDate.Some?
    {
      !(startDate.Some? && endDate.Some?)
    }

    /** render: the buttons of both calendars and the apply button's disabled flag. */
    method Render() returns (leftCells: seq<RangeCell>, rightCells: seq<RangeCell>, applyDisabled: bool)
      ensures leftCells == RangeCells(leftMonth, today, startDate, endDate)
      ensures rightCells == RangeCells(rightMonth, today, startDate, endDate)
      ensures applyDisabled == ApplyDisabled()
    {
      var left, right, start, end := leftMonth, rightMonth, startDate, endDate;
      var leftDays := BuildMonthDays(left);
      leftCells := seq(|leftDays|, i requires 0 <= i < |leftDays| => DayMark(leftDays[i], left, today, start, end));
      var rightDays := BuildMonthDays(right);
      rightCells := seq(|rightDays|, i requires 0 <= i < |rightDays| => DayMark(rightDays[i], right, today, start, end));
      applyDisabled := !(start.Some? && end.Some?);
    }

    /** A click on the i-th day button of the left or right calendar; the buttons of
        other months are disabled. */
    method ClickDay(left: bool, i: int)
      requires 0 <= i < |MonthGrid(if left then leftMonth else rightMonth)|
      modifies this`startDate, this`endDate, this`currentPresetKey, this`activeButton
      ensures var month := if left then leftMonth else rightMonth;
        var day := MonthGrid(month)[i];
        if IsSameMonth(day, month) then
          && (old(startDate).None? || old(endDate).Some? ==> startDate == Some(day) && endDate == None)
          && (old(startDate).Some? && old(endDate).None? ==>
                if DayNumber(day) < DayNumber(old(startDate).value) then startDate == Some(day) && endDate == old(startDate)
                else startDate == old(startDate) && endDate == Some(day))
          && currentPresetKey == None && activeButton == None
        else
          startDate == old(startDate) && endDate == old(endDate) && currentPresetKey == old(currentPresetKey)
          && activeButton == old(activeButton)
      ensures old(Valid()) ==> Valid()
    {
      var month := if left then leftMonth else rightMonth;
      var days := BuildMonthDays(month);
      if IsSameMonth(days[i], month) {
        HandleDateClick(days[i]);
      }
    }

    /** The previous-month button of one calendar: only that calendar moves. */
    method Prev(left: bool)
      modifies this`leftMonth, this`rightMonth
      ensures left ==> leftMonth == ShiftMonth(old(leftMonth), -1) && rightMonth == old(rightMonth)
      ensures !left ==> rightMonth == ShiftMonth(old(rightMonth), -1) && leftMonth == old(leftMonth)
    {
      if left {
        leftMonth := ShiftMonth(leftMonth, -1);
      } else {
        rightMonth := ShiftMonth(rightMonth, -1);
      }
    }

    /** The next-month button of one calendar: only that calendar moves. */
    method Next(left: bool)
      modifies this`leftMonth, this`rightMonth
      ensures left ==> leftMonth == ShiftMonth(old(leftMonth), 1) && rightMonth == old(rightMonth)
      ensures !left ==> rightMonth == ShiftMonth(old(rightMonth), 1) && leftMonth == old(leftMonth)
    {
      if left {
        leftMonth := ShiftMonth(leftMonth, 1);
      } else {
        rightMonth := ShiftMonth(rightMonth, 1);
      }
    }

    /** A click on a calendar's month label opens or closes that calendar's month list. */
    method ToggleMonthList(left: bool)
      modifies this`leftMonthPickerOpen, this`rightMonthPickerOpen
      ensures left ==> leftMonthPickerOpen == !old(leftMonthPickerOpen) && rightMonthPickerOpen == old(rightMonthPickerOpen)
      ensures !left ==> rightMonthPickerOpen == !old(rightMonthPickerOpen) && leftMonthPickerOpen == old(leftMonthPickerOpen)
    {
      if left {
        leftMonthPickerOpen := !leftMonthPickerOpen;
      } else {
        rightMonthPickerOpen := !rightMonthPickerOpen;
      }
    }

    /** A click on the (year, month) button of an open month list: the button's
        data-year and data-month are read back with parseInt, that calendar shows the
        first of that month, and both lists close. */
    method PickMonth(left: bool, year: int, month: int)
      requires if left then leftMonthPickerOpen else rightMonthPickerOpen
      requires minYear <= year <= maxYear && 0 <= month < 12
      modifies this`leftMonth, this`rightMonth, this`leftMonthPickerOpen, this`rightMonthPickerOpen
      ensures !leftMonthPickerOpen && !rightMonthPickerOpen
      ensures left ==> leftMonth == Construct(year, month, 1) && rightMonth == old(rightMonth)
      ensures !left ==> rightMonth == Construct(year, month, 1) && leftMonth == old(leftMonth)
      ensures FullYear(year) ==> Construct(year, month, 1) == CivilDate(year, month, 1)
    {
      var y, m := DataAttribute(year), DataAttribute(month);
      assert y == year && m == month;
      ConstructInRange(year, month, 1);
      var selectedMonth := Construct(year, month, 1);
      if left {
        leftMonth := selectedMonth;
      } else {
        rightMonth := selectedMonth;
      }
      leftMonthPickerOpen, rightMonthPickerOpen := false, false;
    }

    /** The apply button: with both ends set, write the input and close the dropdown;
        otherwise nothing happens. */
    method ClickApply()
      modifies this`presetLabelText, this`presetLabelHidden, input, dropdown
      ensures hasApplyButton && !ApplyDisabled() ==>
        && !dropdown.open
        && (input != null ==> input.Shows(RangeText(startDate.value, endDate.value)))
        && (input != null && hasPresetLabel ==>
              presetLabelText == ShownLabel(currentPresetKey) && presetLabelHidden == (ShownLabel(currentPresetKey) == ""))
        && (input == null || !hasPresetLabel ==>
              presetLabelText == old(presetLabelText) && presetLabelHidden == old(presetLabelHidden))
      ensures !hasApplyButton || ApplyDisabled() ==>
        (unchanged(dropdown) && (input != null ==> unchanged(input))
         && presetLabelText == old(presetLabelText) && presetLabelHidden == old(presetLabelHidden))
    {
      if hasApplyButton && startDate.Some? && endDate.Some? {
        UpdateInputValue();
        dropdown.open := false;
      }
    }
  }
}
