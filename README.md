# Date, month and time pickers: the calendar core in Dafny

The library is a set of browser picker widgets:

- a single-date picker (`DefaultDatePicker`);
- a date-range picker with two calendars and preset ranges (`DualDatePicker`);
- a year/month picker (`MonthPicker`);
- an hour/minute picker (`TimePicker`).

All four share a `DateUtils` object of civil-date helpers and a small `PickerCore` registry of dropdown panels. This project models the logic beneath the rendering and proves its properties:

- the date arithmetic;
- the parsers and the clamps;
- the calendar grid each date picker builds;
- the state each picker keeps and changes from its click handlers.

Modules, one per source file plus two shared ones:

| Module | File | Models |
|---|---|---|
| `JsBuiltins` | `js_builtins.dfy` | The JavaScript built-ins the code relies on, on the values it uses them with. These are integer-to-string conversion, `Number()`, `parseInt(s, 10)`, `split` with a one-character separator, `padStart` and `slice(0, n)`. |
| `DateUtils` | `date_utils.dfy` | Every member of `DateUtils` (`src/date-utils.js`). |
| `CoreUtils` | `core_utils.dfy` | `setInputValue`, and `PickerCore` as a set of dropdowns with open flags (`src/core-utils.js`). |
| `CalendarGrid` | `calendar_grid.dfy` | The day-list loop both calendar pickers run, from `startOfWeek(startOfMonth(m))` to `endOfWeek(endOfMonth(m))`. |
| `SinglePicker` | `default_date_picker.dfy` | `src/default-date-picker.js`. |
| `RangePicker` | `dual_date_picker.dfy` | `src/dual-date-picker.js`. |
| `MonthSelection` | `month_picker.dfy` | `src/month-picker.js`. |
| `TimeSelection` | `time_picker.dfy` | `src/time-picker.js`. |

How dates are modelled:

- A date is its civil triple `(year, month 0-11, day)`, kept valid by the subset type `Date`. Time of day and time zone play no part in what the pickers compute.
- `DayNumber` places a date on the time line, counted in days from 1970-01-01. This is the order that `getTime()` comparisons see.
- `new Date(y, m, d)`, `setMonth` and `setDate` normalise through `MakeDay`, as in section 21.4.1 of ECMA-262 (MakeDay). A day or month outside its range overflows into the neighbouring months and years.
- The constructor's reading of years 0-99 as 1900-1999 is modelled too (`ConstructorYear`).

How the pickers are modelled:

- Each picker is a class. It holds the source's fields and has one method per handler.
- The current date and time (`new Date()`) are constructor parameters.
- Input elements and dropdown panels are small classes holding the state the handlers change: an input's value and value attribute, and a dropdown's `open` class.

## Model

Source paths are relative to the repository root.

| member | source | states |
|---|---|---|
| DateUtils.DaysInMonth | src/date-utils.js:51-53 | Months have 28 to 31 days; 29 exactly for February of a leap year. |
| DateUtils.DayNumber | src/date-utils.js:67-81 | The date's place on the time line, in days from 1970-01-01: the start of its month plus day - 1. It has no contract of its own. DayNumberOrder and DayNumberInjective state what it means. |
| DateUtils.WeekDay | src/date-utils.js:55-65 | getDay() is always 0-6. WeekDayOffset states how it moves with the date, and StartOfWeek and EndOfWeek use it. |
| DateUtils.DayNumberOrder | src/date-utils.js:75-81 | The time-line order of two dates is the lexicographic (year, month, day) order, in both directions. |
| DateUtils.DayNumberInjective | src/date-utils.js:67-69 | Two dates share a day number exactly when they are the same date. |
| DateUtils.MonthStartDayMonotone | src/date-utils.js:27-41 | Every month ends before any later month starts. |
| DateUtils.Normalize | src/date-utils.js:27-41 | Day d of month k sits at MonthStartDay(k) + d - 1 for every integer d, however far out of range. An in-range day is kept as written. |
| DateUtils.NormalizeForward | src/date-utils.js:93 | A positive day counted from month k never lands before month k. |
| DateUtils.NormalizeOverflow | src/date-utils.js:27-31 | A day past the end of month k, up to 31, lands in month k + 1 on the excess. |
| DateUtils.MakeDay | src/date-utils.js:27-41 | MakeDay(y, m, d) sits at MonthStartDay(12y + m) + d - 1, with m and d unrestricted. |
| DateUtils.ConstructorYear | src/date-utils.js:47-65 | The year the Date constructor uses: 1900 + y for 0-99, y otherwise. |
| DateUtils.Construct | src/date-utils.js:47-65 | `new Date(y, m, d)` sits at day d - 1 of month m of the constructor's year. |
| DateUtils.ConstructValid | src/date-utils.js:93 | For a literal year and an in-range day, `new Date(y, m, d)` is exactly (y, m, d). |
| DateUtils.ConstructInRange | src/date-utils.js:93 | With month and day in range, `new Date(y, m, d)` is (y, m, d) in the constructor's year. |
| DateUtils.AddMonths | src/date-utils.js:27-31 | The day is kept when it fits the target month. Otherwise the date overflows into the following month by the excess. |
| DateUtils.SubMonths | src/date-utils.js:33-35 | Subtracting n months is adding -n months. It lands in month k - n, or k - n + 1 when the day overflows. |
| DateUtils.AddMonthsFirstDay | src/date-utils.js:27-31 | From the first of a month, shifting n months gives the first of the month n months away. |
| DateUtils.MonthShiftOrder | src/date-utils.js:27-35 | One month back is strictly earlier and one month forward strictly later, whatever the day. |
| DateUtils.ShiftDayNumber | src/date-utils.js:27-31 | Shifting n months places the date at day `day - 1` of month k + n, overflow included. |
| DateUtils.AddDays | src/date-utils.js:37-41 | addDays(d, n) is exactly n days later on the time line. |
| DateUtils.SubDays | src/date-utils.js:43-45 | subDays(d, n) is exactly n days earlier. |
| DateUtils.AddDaysRoundTrip | src/date-utils.js:37-45 | addDays(addDays(d, n), -n) is d. |
| DateUtils.AddDaysAdd | src/date-utils.js:37-41 | Moving a days and then b days is moving a + b days. |
| DateUtils.StartOfMonth | src/date-utils.js:47-49 | Day 1 of the date's month, in the constructor's year. |
| DateUtils.EndOfMonth | src/date-utils.js:51-53 | The last day of the date's month, in the constructor's year. |
| DateUtils.MonthStartEnd | src/date-utils.js:47-53 | Both results are in d's month; the start is day 1. The day after the end is in another month. Every day of the month lies between them. |
| DateUtils.StartOfMonthMonotone | src/date-utils.js:47-49 | startOfMonth keeps the order of dates. |
| DateUtils.WeekDayOffset | src/date-utils.js:55-65 | Moving n days moves getDay() by n, modulo 7. |
| DateUtils.StartOfWeek | src/date-utils.js:55-59 | startOfWeek(d) is a Sunday at most 6 days before d. |
| DateUtils.EndOfWeek | src/date-utils.js:61-65 | endOfWeek(d) is a Saturday at most 6 days after d. |
| DateUtils.IsSameDay | src/date-utils.js:67-69 | True exactly when the two dates have the same day number. |
| DateUtils.IsSameMonth | src/date-utils.js:71-73 | True exactly when the two dates have the same month ordinal. |
| DateUtils.IsBefore | src/date-utils.js:75-77 | True exactly when a comes before b in (year, month, day) order. |
| DateUtils.IsAfter | src/date-utils.js:79-81 | True exactly when b comes before a. |
| DateUtils.IsWithinInterval | src/date-utils.js:83-86 | Neither before the start nor after the end. Both ends belong to any interval that is not reversed. |
| DateUtils.TwoDigits | src/date-utils.js:12-13 | A number below 10 gets a leading '0'; others are String(n). It has no contract of its own. TwoDigitsValue states what it gives. |
| DateUtils.TwoDigitsValue | src/date-utils.js:12-13 | For 1-99 the padded field has two digits, worth the number. |
| DateUtils.DottedText | src/date-utils.js:16-17 | The 'yyyy.MM.dd' case: the year, '.', the padded month + 1, '.', the padded day. It has no contract of its own. DottedTextFields states its fields. |
| DateUtils.DottedTextFields | src/date-utils.js:7-17 | 'yyyy.MM.dd' is the year's text, '.', two digits worth month + 1, '.', and two digits worth the day. |
| DateUtils.FormatDate | src/date-utils.js:7-24 | A text for exactly the three known formats. 'yyyy.MM.dd' gives the dotted text. |
| DateUtils.FormatYmdFourDigitYear | src/date-utils.js:7-17 | For four-digit years: ten characters, dots at 4 and 7, fields worth year, month + 1 and day. |
| DateUtils.ParseYmd | src/date-utils.js:89-94 | The empty string, and a text with fewer than three '-' fields, give null. A result is never before year 100. |
| DateUtils.ParsedDate | src/date-utils.js:93 | `new Date(y, m - 1, d)` of three positive fields is never before year 100. With month and day in range it is exactly (y, m - 1, d) in the constructor's year. |
| DateUtils.ParseYmdFields | src/date-utils.js:89-94 | For 'A-B-C' with dash-free fields, the result is null when any field's Number() is NaN or 0, and `new Date` of the three numbers otherwise. |
| DateUtils.ParseYmdNaN | src/date-utils.js:91-92 | A field that Number() reads as NaN gives null. |
| DateUtils.ParseYmdNumbers | src/date-utils.js:91-93 | Fields worth y, m and d give null when any of them is 0, and `new Date(y, m - 1, d)` otherwise. |
| DateUtils.ParseYmdDigits | src/date-utils.js:89-94 | For digit fields, zero padding included, null exactly when a field is worth 0, and otherwise `new Date` of the fields' values. |
| DateUtils.ParseYmdZeroPadded | src/date-utils.js:89-94 | A date from year 100 on, written with a zero-padded month and day, parses back to itself. |
| DateUtils.SplitYmdText | src/date-utils.js:91 | 'Y-M-D' splits at '-' into its three decimal fields. |
| DateUtils.ParseYmdText | src/date-utils.js:89-94 | 'Y-M-D' with y >= 1 gives `new Date(y, m - 1, d)` of its fields. |
| DateUtils.ParseYmdRoundTrip | src/date-utils.js:89-94 | For years >= 100, writing a date as 'Y-M-D' and parsing it gives the date back. |
| DateUtils.ParseYmdTwoDigitYear | src/date-utils.js:93 | Years 1-99 come back as 1901-1999. |
| DateUtils.ParseYearMonth | src/date-utils.js:97-102 | The empty string gives null, and so does a text without '-' (its month is Number(undefined), NaN). A result never has year 0 or month -1, since a zero or NaN field is refused. |
| DateUtils.ParseYearMonthFields | src/date-utils.js:97-102 | For 'A-B' with dash-free fields, null when either Number() is NaN or 0, and {year: y, month: m - 1} otherwise. |
| DateUtils.ParseYearMonthNaN | src/date-utils.js:99-100 | A field that Number() reads as NaN gives null. |
| DateUtils.ParseYearMonthDigits | src/date-utils.js:97-102 | For digit fields, zero padding included, null exactly when a field is worth 0, and otherwise the year and month + 1 are the fields' values. |
| DateUtils.ParseYearMonthRoundTrip | src/date-utils.js:97-102 | 'Y-M' with y >= 1 and m >= 1 gives {year: y, month: m - 1}. |
| DateUtils.ParseYearMonthZeroMonth | src/date-utils.js:99-100 | A zero month field gives null. |
| DateUtils.ClampDate | src/date-utils.js:104-109 | The result is within ordered bounds, unchanged when already inside, and always the input or one of the bounds. |
| DateUtils.ClampDateIdempotent | src/date-utils.js:104-109 | Clamping twice is clamping once. |
| DateUtils.IsBeforeMonth | src/date-utils.js:111-116 | False without a bound. For months 0-11 it is true exactly when the month ordinal is below the bound's. |
| DateUtils.IsAfterMonth | src/date-utils.js:118-123 | False without a bound, never true together with isBeforeMonth. For months 0-11 it is true exactly when the ordinal is above the bound's. |
| DateUtils.ClampMonth | src/date-utils.js:125-133 | The result is within ordered bounds, unchanged when already inside, and always the input or one of the bounds. |
| DateUtils.ClampMonthIdempotent | src/date-utils.js:125-133 | Clamping twice is clamping once. |
| JsBuiltins.NatToStringDigits | src/date-utils.js:17 | String(n) of a natural number is a digit string worth n, without a leading zero. |
| JsBuiltins.NumberToString | src/time-picker.js:42 | String(n): the decimal text of n, after a '-' for a negative n. |
| JsBuiltins.NumberToStringDigits | src/time-picker.js:42 | String(n) is a digit string worth n, or '-' and a digit string worth -n. |
| JsBuiltins.NatToStringLength | src/time-picker.js:42 | String(n) has 1, 2, 3 or 4 characters exactly for n below 10, 100, 1000 and 10000. |
| JsBuiltins.LeadingZero | src/date-utils.js:12-13 | A leading '0' does not change a digit string's value. |
| JsBuiltins.StringToNumber | src/date-utils.js:91 | Number() of a digit string is its value. A result for a text without a sign is a digit string, and a text without '-' is never negative. |
| JsBuiltins.TrimStart | src/time-picker.js:48-49 | parseInt's skipping of leading white space: a suffix of the input that starts with no white space, where every dropped character is white space. |
| JsBuiltins.DigitPrefix | src/time-picker.js:48-49 | The longest run of digits at the start. |
| JsBuiltins.ParseInt | src/time-picker.js:48-49 | parseInt of a digit string is its value. |
| JsBuiltins.ParseIntNumberToString | src/month-picker.js:129-130 | parseInt reads String(n) back as n, negative numbers included. |
| JsBuiltins.ParseIntNegative | src/time-picker.js:48-49 | parseInt of '-' and digits is minus their value. |
| JsBuiltins.DataAttribute | src/month-picker.js:129-130 | A data attribute written from an integer reads back as that integer. |
| JsBuiltins.Split | src/date-utils.js:91 | The parts joined by the separator give the input back, and no part holds the separator. |
| JsBuiltins.SplitAfter | src/time-picker.js:47 | A separator-free text, the separator and a rest split into that text followed by the rest's parts. |
| JsBuiltins.SplitWithout | src/time-picker.js:47 | A text without the separator splits into itself alone. |
| JsBuiltins.SplitThree | src/date-utils.js:91 | Three separator-free texts joined by the separator split back into the three. |
| JsBuiltins.PadStart | src/time-picker.js:42 | The result is at least n long, ends with the input, and is filled in front with the pad character. |
| JsBuiltins.Take | src/month-picker.js:55-58 | `slice(0, n)` is the first min(n, length) characters. |
| CoreUtils.SafeValue | src/core-utils.js:8 | A present value is kept; a missing one becomes ''. |
| CoreUtils.SetInputValue | src/core-utils.js:6-11 | Without an element nothing changes. Otherwise the value property and the value attribute both receive `value \|\| ''` (`Shows`). |
| CoreUtils.Registered | src/core-utils.js:29-32 | Registering null changes nothing. Registering a dropdown adds it and nothing else. |
| CoreUtils.RegisteredIdempotent | src/core-utils.js:27-32 | Registering the same dropdown twice is registering it once. |
| CoreUtils.PickerCore.constructor | src/core-utils.js:27 | The registry starts empty. |
| CoreUtils.PickerCore.RegisterDropdown | src/core-utils.js:29-32 | The registry becomes Registered(old registry, dropdown). |
| CoreUtils.PickerCore.CloseAll | src/core-utils.js:34-40 | Every registered dropdown but the excepted one is closed; the excepted one keeps its state. At most the excepted one stays open, and unregistered dropdowns are untouched. |
| CoreUtils.ToggleFromInput | src/default-date-picker.js:53-62 | An open dropdown closes and the others are untouched. A closed one becomes the only open registered dropdown. |
| CalendarGrid.GridLength | src/dual-date-picker.js:204-214 | The grid has one day per day from its first to its last day, and at least 28. |
| CalendarGrid.GridBounds | src/dual-date-picker.js:204-207 | The grid starts on a Sunday no later than the first of the month and ends on a Saturday no earlier than its last day. |
| CalendarGrid.MonthGrid | src/dual-date-picker.js:209-214 | The days the loop collects, from the grid's start to its end. It has no contract of its own. GridDay, MonthGridShape, MonthGridCovers and BuildMonthDays state what it holds. |
| CalendarGrid.MonthGridShape | src/dual-date-picker.js:204-214 | The grid runs over consecutive days from a Sunday to a Saturday, and its length is a multiple of 7. |
| CalendarGrid.MonthGridCovers | src/dual-date-picker.js:204-214 | Every day of the shown month is in the grid. |
| CalendarGrid.BuildMonthDays | src/dual-date-picker.js:209-214 | The while loop pushing days from calendarStart to calendarEnd builds exactly the grid. |
| SinglePicker.BoundMonth | src/default-date-picker.js:39-40 | minMonth/maxMonth are null exactly without a bound. Otherwise they are day 1 of the bound's month. |
| SinglePicker.DayDisabled | src/default-date-picker.js:112-124 | A day is enabled exactly when it is in the shown month and within [minDate, maxDate]. |
| SinglePicker.Cell | src/default-date-picker.js:106-124 | The other-month, today, selected and disabled classes of one day button. |
| SinglePicker.Cells | src/default-date-picker.js:95-124 | One button per grid day, at least 28, the i-th for the day i days after the grid's first. |
| SinglePicker.SelectedCellUnique | src/default-date-picker.js:110-116 | At most one button is marked selected. |
| SinglePicker.EnabledCellsExact | src/default-date-picker.js:112-124 | The enabled buttons are exactly the days of the shown month within the bounds. |
| SinglePicker.InitialMonthWithin | src/default-date-picker.js:30-40 | With ordered bounds and today and the bounds in years the constructor takes literally, the month of the clamped initial day lies between minMonth and maxMonth. |
| SinglePicker.DefaultDatePicker.constructor | src/default-date-picker.js:26-47 | selectedDate is today clamped to the parsed bounds. currentMonth is day 1 of its month. The bound months are set, the dropdown is registered and the input's value and attribute show 'yyyy.MM.dd'. When today's year is taken literally and the bounds are ordered, the picker starts valid. |
| SinglePicker.DefaultDatePicker.WriteInput | src/default-date-picker.js:46 | The input shows the selected day as 'yyyy.MM.dd'. |
| SinglePicker.DefaultDatePicker.Render | src/default-date-picker.js:86-139 | The header is 'yyyy년 M월' of the shown month, and the buttons are those of its grid. |
| SinglePicker.DefaultDatePicker.HandleDateClick | src/default-date-picker.js:76-84 | The day becomes selected. Without an apply button it is also written to the input and the dropdown closes; with one, nothing else changes. |
| SinglePicker.DefaultDatePicker.ClickDay | src/default-date-picker.js:171-177 | A disabled button changes nothing. An enabled one selects its day. Without an apply button the input shows the day and the dropdown closes; with one, the input and dropdown are untouched. A changed selection is a day of the shown month within the bounds. |
| SinglePicker.DefaultDatePicker.Prev | src/default-date-picker.js:155-161 | The move is refused when the previous month is before minMonth. Validity is kept, and an accepted move goes exactly one month back. |
| SinglePicker.DefaultDatePicker.Next | src/default-date-picker.js:163-169 | The move is refused when the next month is after maxMonth. Validity is kept, and an accepted move goes exactly one month forward. |
| SinglePicker.DefaultDatePicker.Apply | src/default-date-picker.js:65-73 | The apply button writes the selected day and closes the dropdown. |
| RangePicker.ShiftMonth | src/dual-date-picker.js:284-296 | The first of the month exactly n months away, for every year (the corrected navigation). |
| RangePicker.ShiftKeepsDayOverflow | src/dual-date-picker.js:33 | As written: from 2025-01-31 the next month is 2025-03-03. From 2024-03-31 the previous month is 2024-03-02, in the same month. |
| RangePicker.LabelOf | src/dual-date-picker.js:167-177 | labelMap[key] is found exactly for the seven preset keys and the names labelMap inherits from Object.prototype. An inherited name gives that member's text, and every value found is non-empty. |
| RangePicker.InheritedText | src/dual-date-picker.js:177-178 | The text an inherited member shows in textContent: '[object Object]' for `__proto__`, the native-function text otherwise. |
| RangePicker.PrevMonthRangeAsWritten | src/dual-date-picker.js:139-146 | 'prevM' as written: startOfMonth and endOfMonth of subMonths(today, 1). It has no contract of its own. PrevMonthPresetOnMarch31 shows where it goes wrong. |
| RangePicker.PrevMonthPresetOnMarch31 | src/dual-date-picker.js:139-146 | As written, 'prevM' on 2024-03-31 gives 2024-03-01 to 2024-03-31. |
| RangePicker.PrevMonthRange | src/dual-date-picker.js:139-146 | The corrected 'prevM': from day 1 to the last day of the month before today's. |
| RangePicker.PresetRange | src/dual-date-picker.js:111-151 | A range exactly for the seven preset keys, null for any other key. |
| RangePicker.PresetSpans | src/dual-date-picker.js:116-128 | 'yesterday' is the single day before today, and 'today' is today. 'last7' and 'last30' end today and span 7 and 30 days. |
| RangePicker.PrevWeekPreset | src/dual-date-picker.js:129-135 | 'prevW' runs from a Sunday to the Saturday six days later. That Saturday is the day before this week's Sunday. |
| RangePicker.MonthPresets | src/dual-date-picker.js:136-146 | 'thisM' runs from the first of today's month to today. 'prevM' is exactly the previous calendar month. |
| RangePicker.PresetOrdered | src/dual-date-picker.js:111-155 | Every preset range starts no later than it ends. |
| RangePicker.InRange | src/dual-date-picker.js:224-233 | With both ends set it is the closed interval. With only a start it is that day. With no start it is the end day alone. |
| RangePicker.DayMark | src/dual-date-picker.js:220-246 | Buttons of other months are disabled. Start, end and pending marks follow the range. Selected means enabled and an end; a selected button is in range. |
| RangePicker.RangeCells | src/dual-date-picker.js:209-246 | One button per grid day, at least 28, the i-th for the day i days after the grid's first. |
| RangePicker.InRangeContiguous | src/dual-date-picker.js:228-233 | The in-range buttons of a calendar form one unbroken run. |
| RangePicker.RangeText | src/dual-date-picker.js:160-162 | The two 'yyyy.MM.dd' texts joined by ' - '. It has no contract of its own. RangeTextSplit states how it splits back. |
| RangePicker.NoSpaceInYmd | src/dual-date-picker.js:160-162 | A 'yyyy.MM.dd' text holds no space. |
| RangePicker.RangeTextSplit | src/dual-date-picker.js:160-162 | The input text splits at its spaces into the start text, '-' and the end text. |
| RangePicker.ShownLabel | src/dual-date-picker.js:177-183 | What labelMap finds for the current key, inherited names included. It is '' exactly when there is no key or labelMap finds nothing. |
| RangePicker.DualDatePicker.constructor | src/dual-date-picker.js:32-68 | The left calendar shows the month before today's, the right one today. The year range defaults to 10 years either side. The range starts as the last seven days under 'last7', and the input's value and attribute show it. When today's year is taken literally the picker starts valid. |
| RangePicker.DualDatePicker.InitDefaultRange | src/dual-date-picker.js:103-109 | The range becomes today - 6 to today with key 'last7'. The input shows it, and an existing label shows '최근 7일'. |
| RangePicker.DualDatePicker.UpdateInputValue | src/dual-date-picker.js:157-184 | Without an input or a complete range nothing changes. Otherwise the range text is written and the label and its hidden flag follow the key. |
| RangePicker.DualDatePicker.HandleDateClick | src/dual-date-picker.js:186-200 | The three-case update: a new start, or an end with swapping when the day is earlier. The preset key and active button are cleared, and start <= end is kept. |
| RangePicker.DualDatePicker.ApplyPreset | src/dual-date-picker.js:111-155 | A known key sets its range; any other key or none changes nothing. start <= end is kept. |
| RangePicker.DualDatePicker.ClickPreset | src/dual-date-picker.js:93-100 | The button alone becomes active. Its data-preset, or null when empty, becomes the key, and its range is applied. |
| RangePicker.DualDatePicker.ApplyDisabled | src/dual-date-picker.js:402-404 | The apply button is enabled exactly when both ends are set. |
| RangePicker.DualDatePicker.Render | src/dual-date-picker.js:399-404 | Both calendars' buttons, and the apply button's disabled flag. |
| RangePicker.DualDatePicker.ClickDay | src/dual-date-picker.js:186-200 | Other-month buttons change nothing. Without a start, or with both ends set, the day becomes a new start with no end. With only a start, an earlier day becomes the start and the old start the end; otherwise the day becomes the end. The preset key and active button are cleared, and start <= end is kept. |
| RangePicker.DualDatePicker.Prev | src/dual-date-picker.js:281-289 | Only the clicked calendar moves, to the first of the previous month. |
| RangePicker.DualDatePicker.Next | src/dual-date-picker.js:291-299 | Only the clicked calendar moves, to the first of the next month. |
| RangePicker.DualDatePicker.ToggleMonthList | src/dual-date-picker.js:316-336 | Only the clicked calendar's month-list flag flips. |
| RangePicker.DualDatePicker.PickMonth | src/dual-date-picker.js:372-387 | That calendar shows day 1 of the picked month and both month lists close. |
| RangePicker.DualDatePicker.ClickApply | src/dual-date-picker.js:84-91 | With both ends set, the input shows the range text and the dropdown closes. An existing label shows the key's label and is hidden exactly when it is ''. Otherwise nothing changes. |
| MonthSelection.ButtonFor | src/month-picker.js:98-117 | The button is selected for the selection and current for today's month. It is disabled exactly when the month is outside the bounds. |
| MonthSelection.MonthButtons | src/month-picker.js:93-121 | Twelve buttons per listed year, the i-th for month i % 12 of year minYear + i / 12. It has no contract of its own. MonthButtonPosition and SelectedButtonUnique state its layout. |
| MonthSelection.MonthButtonPosition | src/month-picker.js:93-121 | Every month of every listed year has exactly one button, at index 12 * (year - minYear) + month. |
| MonthSelection.SelectedButtonUnique | src/month-picker.js:104-106 | At most one button is marked selected. |
| MonthSelection.MonthText | src/month-picker.js:55-59 | The first seven characters of 'yyyy.MM.dd' of day 1 of the month. It has no contract of its own. MonthTextFourDigitYear states its layout. |
| MonthSelection.MonthTextFourDigitYear | src/month-picker.js:55-59 | For a four-digit year the input text is 'yyyy.MM': seven characters, a dot at 4, fields worth the year and month + 1. |
| MonthSelection.MonthPicker.constructor | src/month-picker.js:30-59 | The selection is today's month clamped to the parsed bounds, and the year range defaults to 10 years either side. The dropdown is registered, the input shows 'yyyy.MM' and the picker starts valid. |
| MonthSelection.MonthPicker.BuildMonthButtons | src/month-picker.js:93-121 | The nested year and month loops build exactly the button list: 12 per year, January to December. |
| MonthSelection.MonthPicker.ClickButton | src/month-picker.js:125-135 | A disabled button changes nothing. Another button's year and month become the selection, which is then within the bounds. |
| MonthSelection.MonthPicker.Apply | src/month-picker.js:78-85 | The apply button writes 'yyyy.MM' and closes the dropdown. |
| TimeSelection.TwoDigitField | src/time-picker.js:42 | At least two characters: String(n) with '0' filled in front, and never a ':'. |
| TimeSelection.TwoDigitFieldValue | src/time-picker.js:42 | For 0-99, `String(n).padStart(2, '0')` is two digits worth n. |
| TimeSelection.FormatTime | src/time-picker.js:41-43 | The two padded fields joined by ':'. It has no contract of its own. FormatTimeSplit and FormatTimeFields state its layout. |
| TimeSelection.FormatTimeSplit | src/time-picker.js:41-43 | For any numbers, splitting the text at ':' gives back the two padded fields. |
| TimeSelection.FormatTimeFields | src/time-picker.js:41-43 | For fields 0-99: five characters, a colon at 2, and two-digit halves worth the hour and the minute. |
| TimeSelection.ParseTimeString | src/time-picker.js:45-53 | The empty string gives null, and a result is always a valid hour and minute. |
| TimeSelection.ParseTimeFields | src/time-picker.js:45-53 | For 'A:B' with colon-free fields, null unless both parseInt results are numbers in range, and then those numbers. |
| TimeSelection.ParseTimeNaN | src/time-picker.js:48-50 | A field that parseInt reads as NaN gives null. |
| TimeSelection.ParseTimeDigits | src/time-picker.js:45-53 | For non-empty digit fields, zero padding included, a time exactly when the hour is at most 23 and the minute at most 59, and then the fields' values. |
| TimeSelection.SplitTimeText | src/time-picker.js:47 | 'HH:MM' splits at the colon into its two fields. |
| TimeSelection.ParseFormatTime | src/time-picker.js:41-53 | For fields 0-99, formatTime's text parses back to the fields exactly when they are a valid time, and to null otherwise. |
| TimeSelection.TimeRoundTrip | src/time-picker.js:41-53 | Every valid time survives formatTime and then parseTimeString. |
| TimeSelection.ParseTimeWithoutMinute | src/time-picker.js:47-50 | A text without a colon has no minute and gives null. |
| TimeSelection.AfterClick | src/time-picker.js:131-136 | A NaN value changes nothing. An hour click changes only the hour and a minute click only the minute. |
| TimeSelection.HourOptions | src/time-picker.js:82-90 | 24 'hour' options labelled 0-23; exactly the selected hour is marked. |
| TimeSelection.MinuteOptions | src/time-picker.js:83-97 | 60 'minute' options labelled 0-59; exactly the selected minute is marked. |
| TimeSelection.RenderedOptionClick | src/time-picker.js:82-97 | A click on any rendered option moves the matching field to that option's number. |
| TimeSelection.OneSelectedOption | src/time-picker.js:85-97 | Exactly one hour and one minute option are marked selected. |
| TimeSelection.TimePicker.constructor | src/time-picker.js:21-38 | The selection is the input's time when it parses, the current time otherwise. The dropdown is registered and the input's value and attribute show 'HH:MM'. |
| TimeSelection.TimePicker.WriteInput | src/time-picker.js:37 | The input shows the selection as 'HH:MM'. |
| TimeSelection.TimePicker.Render | src/time-picker.js:80-99 | The header text is 'HH:MM' of the selection, and the 24 hour and 60 minute options mark it. |
| TimeSelection.TimePicker.ClickOption | src/time-picker.js:126-138 | Clicking an option updates the selection as AfterClick describes. |
| TimeSelection.TimePicker.Apply | src/time-picker.js:70-77 | The apply button writes 'HH:MM' and closes the dropdown. |

`subMonths(d, n)` is defined as `addMonths(d, -n)` (`SubMonths`), as in the source.

## Left out

- Time of day, the local time zone and daylight saving, and epoch milliseconds. A date is its civil day, and `getTime()` comparisons are modelled as day-number comparisons.
- HTML strings, `innerHTML`, `querySelector`, class-list styling beyond the dropdown's `open` class, and event-listener wiring. The handlers are methods, and a rendered button is its index in the list it came from.
- The scroll-centring helpers (`_scrollToSelected`, `_scrollToSelectedYear`, `_scrollMonthPickerToYear`), which compute pixel offsets from layout values.
- The DOM insertion and removal of the inline month list (`_toggleInlineMonthPicker`). Only its open flag is modelled.
- The markup of the inline month list in the range picker (its selected and current marks).
- The document-level outside-click listener in `PickerCore`, and `attachFocusClassToContainer`.
- `scripts/init-structure.js` (file-system scaffolding) and `src/index.js` (re-exports) are not part of this model.
- `new Date()`: today and the current hour and minute are parameters.
- Date: JavaScript time values are limited to 8.64e15 ms either side of 1970-01-01, about years -271821 to 275760 (TimeClip, section 21.4.1 of ECMA-262). A date beyond that is an Invalid Date in the source. The model has no such limit, so ParseYmd, Construct, AddMonths, AddDays, ClampDate and DayDisabled treat such dates as ordinary days.
- RangePicker.InheritedText: the text of a native function follows the NativeFunction form of `Function.prototype.toString`. Its exact white space is implementation-defined; the common engine layout is modelled.
- FormatDate: the `date.toString()` fallback for an unknown format is `None`, because the engine's text for it is not modelled.
- StringToNumber: `Number()` is modelled on the texts the parsers can see without leading white space.
  - Covered: the empty string, decimal digits, and a sign followed by digits.
  - Every other text is NaN, including white space, decimal points, exponents and hexadecimal.
- ParseInt is exact on unbounded integers. Double-precision rounding of very long digit strings is not modelled.
- DataAttribute: a data attribute is read back through `parseInt(String(n))`. The integer comes back unchanged.
- The pickers' dropdown element is taken to exist. The source would throw on a missing one when the input is clicked.
- StartOfWeek and EndOfWeek state the Sunday and Saturday facts only for years the Date constructor takes literally (below 0 or above 99). For years 0-99 the constructor moves the date to 1900-1999.
- MonthStartEnd, StartOfMonthMonotone, InitialMonthWithin, MonthPresets, PresetOrdered and EnabledCellsExact carry the same restriction to such years.
- SinglePicker.DefaultDatePicker.constructor and RangePicker.DualDatePicker.constructor promise validity only when today's year is such a year. The single-date picker also needs ordered bounds.
- ParseYmdRoundTrip is stated for years of 100 and more. Years 1-99 are covered by ParseYmdTwoDigitYear.
- MonthTextFourDigitYear and FormatYmdFourDigitYear state the character positions for four-digit years only; DottedTextFields covers every year.
- ParseFormatTime is stated for fields 0-99, the ones that pad to two digits.
- TimeSelection.TimePicker.ClickOption accepts any data-type and data-value. RenderedOptionClick states what the rendered options do.
- RangePicker.DualDatePicker.Prev, Next and the initial left month use the corrected ShiftMonth. PresetRange uses the corrected PrevMonthRange. The as-written behaviour is kept in the members named under "Findings".

## Findings

| source | as written | input that shows it | evidently intended | confidence | as-written member | corrected member |
|---|---|---|---|---|---|---|
| src/dual-date-picker.js:33 | The shown months move with `subMonths`/`addMonths` of a full date. `setMonth` keeps the day of month, so a day that the target month lacks overflows into the month after it. The same holds for the prev/next buttons (src/dual-date-picker.js:284-296). | today = 2024-03-31: the left calendar starts on 2024-03-02, the same month as the right one. From 2025-01-31, next shows 2025-03-03, skipping February. | The calendar moves to the first of the month n months away. | not executed | RangePicker.ShiftKeepsDayOverflow | RangePicker.ShiftMonth |
| src/dual-date-picker.js:139-146 | 'prevM' takes `startOfMonth`/`endOfMonth` of `subMonths(t, 1)`, which overflows in the same way. | today = 2024-03-31: the range is 2024-03-01 to 2024-03-31, the current month. | The range covers exactly the previous calendar month, day 1 to its last day. | not executed | RangePicker.PrevMonthPresetOnMarch31 | RangePicker.PrevMonthRange |
