// TimePicker: an hour/minute picker whose input holds 'HH:MM'. The initial
// selection is read from the input's value, and the hour and minute option
// buttons change it.

module TimeSelection {
  import opened JsBuiltins
  import opened CoreUtils

  datatype Time = Time(hour: int, minute: int)

  /** String(n).padStart(2, '0'). */
  function TwoDigitField(n: int): (r: string)
    ensures |r| >= 2 && |r| >= |NumberToString(n)|
    ensures r[|r| - |NumberToString(n)|..] == NumberToString(n)
    ensures forall i :: 0 <= i < |r| - |NumberToString(n)| ==> r[i] == '0'
    ensures ':' !in r
  {
    var t := NumberToString(n);
    var r := PadStart(t, 2, '0');
    NumberToStringDigits(n);
    ColonFree(r, |r| - |t|);
    r
  }

  /** Zeros in front of a number's text leave no ':' in it. */
  lemma ColonFree(r: string, k: nat)
    requires k <= |r|
    requires forall i :: 0 <= i < k ==> r[i] == '0'
    requires AllDigits(r[k..]) || (|r[k..]| >= 2 && r[k] == '-' && AllDigits(r[k + 1..]))
    ensures ':' !in r
  {
    forall i | k < i < |r|
      ensures r[i] != ':'
    {
      assert r[i] == r[k..][i - k] == r[k + 1..][i - k - 1];
    }
  }

  /** A number 0-99 pads to two digits that read back as the number. */
  lemma TwoDigitFieldValue(n: int)
    requires 0 <= n <= 99
    ensures var s := TwoDigitField(n); |s| == 2 && AllDigits(s) && DigitsValue(s) == n
  {
    var t := NatToString(n);
    NatToStringLength(n);
    NatToStringDigits(n);
    if n < 10 {
      LeadingZero(t);
      assert TwoDigitField(n) == PadStart("0" + t, 2, '0') == "0" + t;
    }
  }

  /** formatTime(h, m): the two padded fields joined by ':'. */
  function FormatTime(h: int, m: int): string {
    TwoDigitField(h) + ":" + TwoDigitField(m)
  }

  /** Splitting the text at ':' gives back the two padded fields, whatever the numbers. */
  lemma FormatTimeSplit(h: int, m: int)
    ensures Split(FormatTime(h, m), ':') == [TwoDigitField(h), TwoDigitField(m)]
  {
    var hh, mm := TwoDigitField(h), TwoDigitField(m);
    assert hh + ":" + mm == hh + [':'] + mm;
    SplitAfter(hh, ':', mm);
    SplitWithout(mm, ':');
  }

  /** For fields 0-99 the text is 'HH:MM', each half the digits of its field. */
  lemma FormatTimeFields(h: int, m: int)
    requires 0 <= h <= 99 && 0 <= m <= 99
    ensures var s := FormatTime(h, m);
      && |s| == 5 && s[2] == ':'
      && s[..2] == TwoDigitField(h) && s[3..] == TwoDigitField(m)
      && AllDigits(s[..2]) && DigitsValue(s[..2]) == h
      && AllDigits(s[3..]) && DigitsValue(s[3..]) == m
  {
    var hh, mm := TwoDigitField(h), TwoDigitField(m);
    TwoDigitFieldValue(h);
    TwoDigitFieldValue(m);
    var s := hh + ":" + mm;
    assert s[..2] == hh && s[3..] == mm;
  }

  /** parseTimeString: null for an empty string, for a NaN hour or minute (a missing
      minute is parseInt(undefined), NaN) and for an hour outside 0-23 or a minute
      outside 0-59. */
  function ParseTimeString(str: string): (r: Option<Time>)
    ensures str == "" ==> r == None
    ensures r.Some? ==> 0 <= r.value.hour <= 23 && 0 <= r.value.minute <= 59
  {
    if str == "" then None
    else
      var parts := Split(str, ':');
      var h := ParseInt(parts[0]);
      var m := if |parts| >= 2 then ParseInt(parts[1]) else None;
      if h.None? || m.None? then None
      else if h.value < 0 || h.value > 23 || m.value < 0 || m.value > 59 then None
      else Some(Time(h.value, m.value))
  }

  /** parseTimeString of a text with exactly one colon, between the fields a and b. */
  lemma ParseTimeFields(a: string, b: string)
    requires ':' !in a && ':' !in b
    ensures var h, m := ParseInt(a), ParseInt(b);
      ParseTimeString(a + ":" + b) ==
        if h.Some? && m.Some? && 0 <= h.value <= 23 && 0 <= m.value <= 59 then Some(Time(h.value, m.value)) else None
  {
    assert a + ":" + b == a + [':'] + b;
    SplitAfter(a, ':', b);
    SplitWithout(b, ':');
  }

  /** An hour or minute field that parseInt reads as NaN gives null. */
  lemma ParseTimeNaN(a: string, b: string)
    requires ':' !in a && ':' !in b
    requires ParseInt(a).None? || ParseInt(b).None?
    ensures ParseTimeString(a + ":" + b) == None
  {
    ParseTimeFields(a, b);
  }

  /** Two non-empty digit fields (zero-padded or not) give their values exactly when
      they are a valid hour and minute, and null otherwise. */
  lemma ParseTimeDigits(a: string, b: string)
    requires AllDigits(a) && AllDigits(b) && a != [] && b != []
    ensures var r := ParseTimeString(a + ":" + b);
      && (r.Some? <==> DigitsValue(a) <= 23 && DigitsValue(b) <= 59)
      && (r.Some? ==> r.value == Time(DigitsValue(a), DigitsValue(b)))
  {
    DigitsExclude(a, ':');
    DigitsExclude(b, ':');
    ParseTimeFields(a, b);
  }

  /** The text of two-digit fields splits at the colon into the two fields. */
  lemma SplitTimeText(h: int, m: int)
    requires 0 <= h <= 99 && 0 <= m <= 99
    ensures Split(FormatTime(h, m), ':') == [TwoDigitField(h), TwoDigitField(m)]
  {
    var a, b := TwoDigitField(h), TwoDigitField(m);
    TwoDigitFieldValue(h);
    TwoDigitFieldValue(m);
    DigitsExclude(a, ':');
    DigitsExclude(b, ':');
    assert FormatTime(h, m) == a + [':'] + b;
    SplitAfter(a, ':', b);
    SplitWithout(b, ':');
  }

  /** formatTime's text parses back to its fields exactly when they are a valid time. */
  lemma ParseFormatTime(h: int, m: int)
    requires 0 <= h <= 99 && 0 <= m <= 99
    ensures ParseTimeString(FormatTime(h, m)) == if h <= 23 && m <= 59 then Some(Time(h, m)) else None
  {
    SplitTimeText(h, m);
    TwoDigitFieldValue(h);
    TwoDigitFieldValue(m);
    assert FormatTime(h, m) != "";
    var parts := Split(FormatTime(h, m), ':');
    assert ParseInt(parts[0]) == Some(h) && ParseInt(parts[1]) == Some(m);
  }

  /** Round trip: every valid time survives formatTime then parseTimeString. */
  lemma TimeRoundTrip(t: Time)
    requires 0 <= t.hour <= 23 && 0 <= t.minute <= 59
    ensures ParseTimeString(FormatTime(t.hour, t.minute)) == Some(t)
  {
    ParseFormatTime(t.hour, t.minute);
  }

  /** A text without a colon has no minute field, so it does not parse. */
  lemma ParseTimeWithoutMinute(str: string)
    requires ':' !in str
    ensures ParseTimeString(str) == None
  {
    SplitWithout(str, ':');
  }

  /** The selection after a click on an option button with the given data-type and
      data-value: a NaN value changes nothing, and only the matching field moves. */
  function AfterClick(selected: Time, kind: string, value: string): (r: Time)
    ensures ParseInt(value).None? ==> r == selected
    ensures kind == "hour" && ParseInt(value).Some? ==> r == Time(ParseInt(value).value, selected.minute)
    ensures kind == "minute" && ParseInt(value).Some? ==> r == Time(selected.hour, ParseInt(value).value)
    ensures kind != "hour" && kind != "minute" ==> r == selected
  {
    var v := ParseInt(value);
    if v.None? then selected
    else
      var r := if kind == "hour" then Time(v.value, selected.minute) else selected;
      if kind == "minute" then Time(r.hour, v.value) else r
  }

  predicate ValidTime(t: Time) {
    0 <= t.hour <= 23 && 0 <= t.minute <= 59
  }

  /** One option button of a list. */
  datatype TimeOption = TimeOption(kind: string, value: string, selected: bool)

  /** One 'hour' option per hour 0-23, labelled by its number; only the selected hour is marked. */
  function HourOptions(selected: Time): (r: seq<TimeOption>)
    ensures |r| == 24
    ensures forall h :: 0 <= h < 24 ==> r[h].kind == "hour" && r[h].value == NumberToString(h) && (r[h].selected <==> h == selected.hour)
  {
    seq(24, h requires 0 <= h < 24 => TimeOption("hour", NumberToString(h), h == selected.hour))
  }

  /** One 'minute' option per minute 0-59, labelled by its number; only the selected minute is marked. */
  function MinuteOptions(selected: Time): (r: seq<TimeOption>)
    ensures |r| == 60
    ensures forall m :: 0 <= m < 60 ==> r[m].kind == "minute" && r[m].value == NumberToString(m) && (r[m].selected <==> m == selected.minute)
  {
    seq(60, m requires 0 <= m < 60 => TimeOption("minute", NumberToString(m), m == selected.minute))
  }

  /** A click on any rendered option keeps a valid selection valid and moves the
      matching field to the option's number. */
  lemma RenderedOptionClick(selected: Time, i: int)
    requires ValidTime(selected)
    ensures 0 <= i < 24 ==> AfterClick(selected, "hour", HourOptions(selected)[i].value) == Time(i, selected.minute)
    ensures 0 <= i < 60 ==> AfterClick(selected, "minute", MinuteOptions(selected)[i].value) == Time(selected.hour, i)
  {
    ParseIntNumberToString(i);
  }

  /** With a valid selection, exactly one hour option and one minute option are selected. */
  lemma OneSelectedOption(selected: Time)
    requires ValidTime(selected)
    ensures var hours := HourOptions(selected);
      hours[selected.hour].selected && forall i :: 0 <= i < 24 && hours[i].selected ==> i == selected.hour
    ensures var minutes := MinuteOptions(selected);
      minutes[selected.minute].selected && forall i :: 0 <= i < 60 && minutes[i].selected ==> i == selected.minute
  {
  }

  class TimePicker {
    const input: InputElement?
    const dropdown: Dropdown
    const hasApplyButton: bool
    var selectedHour: int
    var selectedMinute: int

    function Selected(): Time
      reads this
    {
      Time(selectedHour, selectedMinute)
    }

    predicate Valid()
      reads this
    {
      ValidTime(Selected())
    }

    /** The initial selection is the input's time when it parses, the current time
        otherwise; the input is then rewritten as 'HH:MM'. */
    constructor (core: PickerCore, input: InputElement?, dropdown: Dropdown, hasApplyButton: bool,
                 nowHour: int, nowMinute: int)
      requires 0 <= nowHour <= 23 && 0 <= nowMinute <= 59
      modifies core, input
      ensures Valid()
      ensures this.input == input && this.dropdown == dropdown && this.hasApplyButton == hasApplyButton
      ensures var parsed := ParseTimeString(if input == null then "" else old(input.value));
        Selected() == if parsed.Some? then parsed.value else Time(nowHour, nowMinute)
      ensures core.dropdowns == Registered(old(core.dropdowns), dropdown)
      ensures input != null ==> input.Shows(FormatTime(selectedHour, selectedMinute))
    {
      var text := if input == null then "" else input.value;
      var parsed := ParseTimeString(text);
      var initial := if parsed.Some? then parsed.value else Time(nowHour, nowMinute);
      assert ValidTime(initial);
      this.input, this.dropdown, this.hasApplyButton := input, dropdown, hasApplyButton;
      selectedHour, selectedMinute := initial.hour, initial.minute;
      new;
      assert Valid() && Selected() == initial;
      core.RegisterDropdown(dropdown);
      assert Selected() == initial;
      WriteInput();
    }

    /** setInputValue(this.input, formatTime(this.selectedHour, this.selectedMinute)) */
    method WriteInput()
      modifies input
      ensures input != null ==> input.Shows(FormatTime(selectedHour, selectedMinute))
    {
      SetInputValue(input, Some(FormatTime(selectedHour, selectedMinute)));
    }

    /** render: the header text and the two option lists. */
    method Render() returns (current: string, hours: seq<TimeOption>, minutes: seq<TimeOption>)
      ensures current == FormatTime(selectedHour, selectedMinute)
      ensures hours == HourOptions(Selected()) && minutes == MinuteOptions(Selected())
    {
      var h, m := selectedHour, selectedMinute;
      hours := seq(24, i requires 0 <= i < 24 => TimeOption("hour", NumberToString(i), i == h));
      minutes := seq(60, i requires 0 <= i < 60 => TimeOption("minute", NumberToString(i), i == m));
      current := FormatTime(h, m);
    }

    /** The list click handler for an option with the given data-type and data-value. */
    method ClickOption(kind: string, value: string)
      modifies this
      ensures Selected() == AfterClick(old(Selected()), kind, value)
    {
      var v := ParseInt(value);
      if v.None? {
        return;
      }
      if kind == "hour" {
        selectedHour := v.value;
      }
      if kind == "minute" {
        selectedMinute := v.value;
      }
    }

    /** The apply button: write 'HH:MM' and close the dropdown. */
    method Apply()
      modifies input, dropdown
      ensures hasApplyButton ==>
        (!dropdown.open && (input != null ==> input.Shows(FormatTime(selectedHour, selectedMinute))))
      ensures !hasApplyButton ==> unchanged(dropdown) && (input != null ==> unchanged(input))
    {
      if !hasApplyButton {
        return;
      }
      WriteInput();
      dropdown.open := false;
    }
  }
}
