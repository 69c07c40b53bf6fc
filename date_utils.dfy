// Civil-date arithmetic of the picker library (DateUtils).
//
// A JavaScript Date is a time value; the pickers only ever look at its civil
// year, month (0-11) and day. Here a date is that civil triple, kept valid by a
// subset type, and DayNumber gives its position on the time line (days since
// 1970-01-01), which is what getTime() comparisons see once time of day is
// ignored. Shifting days or months goes through MakeDay, the normalisation of
// ECMA-262, section 21.4.1 (MakeDay/MakeDate): a day or month outside its range
// overflows into the neighbouring months and years.

module DateUtils {
  import opened JsBuiltins

  predicate IsLeapYear(year: int) {
    year % 4 == 0 && (year % 100 != 0 || year % 400 == 0)
  }

  function DaysInMonth(year: int, month: int): (n: int)
    requires 0 <= month < 12
    ensures 28 <= n <= 31
    ensures n == 29 <==> month == 1 && IsLeapYear(year)
  {
    if month == 1 then (if IsLeapYear(year) then 29 else 28)
    else if month == 3 || month == 5 || month == 8 || month == 10 then 30
    else 31
  }

  datatype CivilDate = CivilDate(year: int, month: int, day: int)

  predicate ValidCivil(c: CivilDate) {
    0 <= c.month < 12 && 1 <= c.day <= DaysInMonth(c.year, c.month)
  }

  /** A calendar day of the proleptic Gregorian calendar; month is 0-based as in getMonth(). */
  type Date = c: CivilDate | ValidCivil(c) witness CivilDate(1970, 0, 1)

  /** A {year, month} record as built by parseYearMonth and clampMonth; month is not range-checked. */
  datatype YearMonth = YearMonth(year: int, month: int)

  // ---------------------------------------------------------------------------
  // The time line

  /** Months counted from year 0: the month ordinal of (year, month). */
  function MonthOrdinal(year: int, month: int): int {
    12 * year + month
  }

  lemma OrdinalParts(year: int, month: int)
    requires 0 <= month < 12
    ensures MonthOrdinal(year, month) / 12 == year && MonthOrdinal(year, month) % 12 == month
  {
  }

  /** Length of the month with ordinal k. */
  function MonthLength(k: int): (n: int)
    ensures 28 <= n <= 31
  {
    DaysInMonth(k / 12, k % 12)
  }

  const EpochMonth: int := 12 * 1970

  /** Day number (days since 1970-01-01) of the first day of the month with ordinal k. */
  function MonthStartDay(k: int): int
    decreases if k >= EpochMonth then k - EpochMonth else EpochMonth - k
  {
    if k == EpochMonth then 0
    else if k > EpochMonth then MonthStartDay(k - 1) + MonthLength(k - 1)
    else MonthStartDay(k + 1) - MonthLength(k)
  }

  lemma MonthStartDayStep(k: int)
    ensures MonthStartDay(k + 1) == MonthStartDay(k) + MonthLength(k)
  {
  }

  /** A month ends before every later month starts. */
  lemma {:induction false} MonthStartDayMonotone(j: int, k: int)
    requires j < k
    ensures MonthStartDay(j) + MonthLength(j) <= MonthStartDay(k)
    decreases k - j
  {
    MonthStartDayStep(j);
    if j + 1 < k {
      MonthStartDayMonotone(j + 1, k);
    }
  }

  /** Position of a date on the time line: Day(t) of ECMA-262 for its midnight. */
  function DayNumber(d: Date): int {
    MonthStartDay(MonthOrdinal(d.year, d.month)) + d.day - 1
  }

  /** getDay(): 0 is Sunday; 1970-01-01 was a Thursday. */
  function WeekDay(d: Date): (w: int)
    ensures 0 <= w < 7
  {
    (DayNumber(d) + 4) % 7
  }

  /** Lexicographic order on (year, month, day). */
  predicate LexBefore(a: Date, b: Date) {
    a.year < b.year || (a.year == b.year && (a.month < b.month || (a.month == b.month && a.day < b.day)))
  }

  /** The time line orders dates as the calendar does. */
  lemma {:induction false} DayNumberOrder(a: Date, b: Date)
    ensures DayNumber(a) < DayNumber(b) <==> LexBefore(a, b)
  {
    var ka, kb := MonthOrdinal(a.year, a.month), MonthOrdinal(b.year, b.month);
    OrdinalParts(a.year, a.month);
    OrdinalParts(b.year, b.month);
    if ka < kb {
      MonthStartDayMonotone(ka, kb);
    } else if kb < ka {
      MonthStartDayMonotone(kb, ka);
    }
  }

  /** No two calendar days share a day number. */
  lemma DayNumberInjective(a: Date, b: Date)
    ensures DayNumber(a) == DayNumber(b) <==> a == b
  {
    DayNumberOrder(a, b);
    DayNumberOrder(b, a);
  }

  /** Day d of the month with ordinal k, for any d: an out-of-range day is carried
      into the previous or next months, one month at a time. */
  function Normalize(k: int, d: int): (r: Date)
    ensures DayNumber(r) == MonthStartDay(k) + d - 1
    ensures 1 <= d <= MonthLength(k) ==> r == CivilDate(k / 12, k % 12, d)
    decreases if d < 1 then 33 - d else d
  {
    if d < 1 then
      MonthStartDayStep(k - 1);
      Normalize(k - 1, d + MonthLength(k - 1))
    else if d > MonthLength(k) then
      MonthStartDayStep(k);
      Normalize(k + 1, d - MonthLength(k))
    else
      CivilDate(k / 12, k % 12, d)
  }

  /** A positive day is only ever carried forward: it lands in month k or later. */
  lemma {:induction false} NormalizeForward(k: int, d: int)
    requires d >= 1
    ensures MonthOrdinal(Normalize(k, d).year, Normalize(k, d).month) >= k
    decreases d
  {
    if d > MonthLength(k) {
      NormalizeForward(k + 1, d - MonthLength(k));
    }
  }

  /** A day of a 31-day range past the end of month k lands early in month k + 1. */
  lemma NormalizeOverflow(k: int, d: int)
    ensures MonthLength(k) < d <= 31 ==> Normalize(k, d) == CivilDate((k + 1) / 12, (k + 1) % 12, d - MonthLength(k))
  {
    if MonthLength(k) < d <= 31 {
      assert Normalize(k, d) == Normalize(k + 1, d - MonthLength(k));
      assert 1 <= d - MonthLength(k) <= MonthLength(k + 1);
    }
  }

  /** MakeDay(year, month, date) of ECMA-262: month and date may be out of range. */
  function MakeDay(year: int, month: int, date: int): (r: Date)
    ensures DayNumber(r) == MonthStartDay(MonthOrdinal(year, month)) + date - 1
  {
    Normalize(MonthOrdinal(year, month), date)
  }

  /** Years the Date constructor takes literally; it reads 0-99 as 1900-1999. */
  predicate FullYear(year: int) {
    year < 0 || year > 99
  }

  function ConstructorYear(year: int): (y: int)
    ensures FullYear(y)
    ensures FullYear(year) ==> y == year
    ensures !FullYear(year) ==> y == 1900 + year
  {
    if 0 <= year <= 99 then 1900 + year else year
  }

  /** new Date(year, month, date). */
  function Construct(year: int, month: int, date: int): (r: Date)
    ensures DayNumber(r) == MonthStartDay(MonthOrdinal(ConstructorYear(year), month)) + date - 1
  {
    MakeDay(ConstructorYear(year), month, date)
  }

  // ---------------------------------------------------------------------------
  // DateUtils members

  /** addMonths: setMonth(getMonth() + months) keeps the day, which overflows into
      the month after the target when the target month is too short. */
  function AddMonths(date: Date, months: int): (r: Date)
    ensures var k := MonthOrdinal(date.year, date.month) + months;
      if date.day <= MonthLength(k) then r == CivilDate(k / 12, k % 12, date.day)
      else r == CivilDate((k + 1) / 12, (k + 1) % 12, date.day - MonthLength(k))
  {
    var k := MonthOrdinal(date.year, date.month) + months;
    assert MonthOrdinal(date.year, date.month + months) == k;
    NormalizeOverflow(k, date.day);
    MakeDay(date.year, date.month + months, date.day)
  }

  function SubMonths(date: Date, months: int): (r: Date)
    ensures var k := MonthOrdinal(date.year, date.month) - months;
      MonthOrdinal(r.year, r.month) == (if date.day <= MonthLength(k) then k else k + 1)
  {
    AddMonths(date, -months)
  }

  /** addDays: setDate(getDate() + days) moves exactly that many days along the time line. */
  function AddDays(date: Date, days: int): (r: Date)
    ensures DayNumber(r) == DayNumber(date) + days
  {
    MakeDay(date.year, date.month, date.day + days)
  }

  function SubDays(date: Date, days: int): (r: Date)
    ensures DayNumber(r) == DayNumber(date) - days
  {
    AddDays(date, -days)
  }

  /** The month ordinal of a date built from ordinal k. */
  lemma OrdinalOfParts(k: int)
    ensures MonthOrdinal(k / 12, k % 12) == k
  {
  }

  /** From the first of a month, shifting by n months lands on the first of the month n
      months away. */
  lemma AddMonthsFirstDay(date: Date, n: int)
    requires date.day == 1
    ensures AddMonths(date, n).day == 1
    ensures MonthOrdinal(AddMonths(date, n).year, AddMonths(date, n).month) == MonthOrdinal(date.year, date.month) + n
  {
    OrdinalOfParts(MonthOrdinal(date.year, date.month) + n);
  }

  /** One month forward is later and one month back is earlier, whatever the day. */
  lemma MonthShiftOrder(date: Date)
    ensures DayNumber(SubMonths(date, 1)) < DayNumber(date) < DayNumber(AddMonths(date, 1))
  {
    var k := MonthOrdinal(date.year, date.month);
    ShiftDayNumber(date, 1);
    ShiftDayNumber(date, -1);
    MonthStartDayStep(k - 1);
    MonthStartDayStep(k);
  }

  /** Shifting by n months lands MonthStartDay(k + n) + day - 1, overflow included. */
  lemma ShiftDayNumber(date: Date, n: int)
    ensures DayNumber(AddMonths(date, n)) == MonthStartDay(MonthOrdinal(date.year, date.month) + n) + date.day - 1
  {
    assert MonthOrdinal(date.year, date.month + n) == MonthOrdinal(date.year, date.month) + n;
  }

  /** Moving n days forward and n days back returns the same day. */
  lemma AddDaysRoundTrip(d: Date, n: int)
    ensures AddDays(AddDays(d, n), -n) == d
  {
    DayNumberInjective(AddDays(AddDays(d, n), -n), d);
  }

  /** Moving by a and then by b is moving by a + b. */
  lemma AddDaysAdd(d: Date, a: int, b: int)
    ensures AddDays(AddDays(d, a), b) == AddDays(d, a + b)
  {
    DayNumberInjective(AddDays(AddDays(d, a), b), AddDays(d, a + b));
  }

  /** new Date(y, m, 1) of the date's own year and month. */
  function StartOfMonth(date: Date): (r: Date)
    ensures r == CivilDate(ConstructorYear(date.year), date.month, 1)
  {
    OrdinalParts(ConstructorYear(date.year), date.month);
    Construct(date.year, date.month, 1)
  }

  /** new Date(y, m + 1, 0): day 0 of the next month is the last day of this one. */
  function EndOfMonth(date: Date): (r: Date)
    ensures var y := ConstructorYear(date.year);
      r == CivilDate(y, date.month, DaysInMonth(y, date.month))
  {
    var y := ConstructorYear(date.year);
    var k := MonthOrdinal(y, date.month);
    OrdinalParts(y, date.month);
    assert MonthOrdinal(y, date.month + 1) == k + 1;
    assert Normalize(k + 1, 0) == Normalize(k, MonthLength(k));
    Construct(date.year, date.month + 1, 0)
  }

  lemma WeekDayShift(d: Date, r: Date)
    requires DayNumber(r) == DayNumber(d) - WeekDay(d)
    ensures WeekDay(r) == 0
  {
    WeekFloor(DayNumber(d) + 4, DayNumber(r) + 4);
  }

  lemma WeekDayShiftEnd(d: Date, r: Date)
    requires DayNumber(r) == DayNumber(d) + (6 - WeekDay(d))
    ensures WeekDay(r) == 6
  {
    WeekCeiling(DayNumber(d) + 4, DayNumber(r) + 4);
  }

  lemma WeekFloor(x: int, t: int)
    requires t == x - x % 7
    ensures t % 7 == 0
  {
    assert t == 7 * (x / 7);
  }

  lemma WeekCeiling(x: int, t: int)
    requires t == x + (6 - x % 7)
    ensures t % 7 == 6
  {
    assert t == 7 * (x / 7) + 6;
  }

  /** Moving n days moves the weekday by n, modulo 7. */
  lemma WeekDayOffset(a: Date, b: Date, n: int)
    requires DayNumber(b) == DayNumber(a) + n
    ensures WeekDay(b) == (WeekDay(a) + n) % 7
  {
    ModOffset(DayNumber(a) + 4, n);
  }

  lemma ModOffset(x: int, n: int)
    ensures (x + n) % 7 == (x % 7 + n) % 7
  {
    var q := x / 7;
    assert x == 7 * q + x % 7;
    assert x + n == 7 * q + (x % 7 + n);
  }

  /** The Sunday of the date's week. */
  function StartOfWeek(date: Date): (r: Date)
    ensures FullYear(date.year) ==>
      WeekDay(r) == 0 && DayNumber(date) - 6 <= DayNumber(r) <= DayNumber(date)
  {
    var r := Construct(date.year, date.month, date.day - WeekDay(date));
    if FullYear(date.year) then WeekDayShift(date, r); r else r
  }

  /** The Saturday of the date's week. */
  function EndOfWeek(date: Date): (r: Date)
    ensures FullYear(date.year) ==>
      WeekDay(r) == 6 && DayNumber(date) <= DayNumber(r) <= DayNumber(date) + 6
  {
    var r := Construct(date.year, date.month, date.day + (6 - WeekDay(date)));
    if FullYear(date.year) then WeekDayShiftEnd(date, r); r else r
  }

  function IsSameDay(a: Date, b: Date): (r: bool)
    ensures r <==> DayNumber(a) == DayNumber(b)
  {
    DayNumberInjective(a, b);
    a.year == b.year && a.month == b.month && a.day == b.day
  }

  function IsSameMonth(a: Date, b: Date): (r: bool)
    ensures r <==> MonthOrdinal(a.year, a.month) == MonthOrdinal(b.year, b.month)
  {
    a.year == b.year && a.month == b.month
  }

  /** getTime() comparison. */
  function IsBefore(a: Date, b: Date): (r: bool)
    ensures r <==> LexBefore(a, b)
  {
    DayNumberOrder(a, b);
    DayNumber(a) < DayNumber(b)
  }

  function IsAfter(a: Date, b: Date): (r: bool)
    ensures r <==> LexBefore(b, a)
  {
    DayNumberOrder(b, a);
    DayNumber(a) > DayNumber(b)
  }

  /** Both ends of the interval belong to it. */
  function IsWithinInterval(date: Date, start: Date, end: Date): (r: bool)
    ensures r <==> !IsBefore(date, start) && !IsAfter(date, end)
    ensures date == start || date == end ==> (r <==> !IsAfter(start, end))
  {
    var t := DayNumber(date);
    t >= DayNumber(start) && t <= DayNumber(end)
  }

  /** The two-character day or month field: '0' + n below 10, n otherwise. */
  function TwoDigits(n: int): string {
    if n < 10 then "0" + NumberToString(n) else NumberToString(n)
  }

  lemma TwoDigitsValue(n: int)
    requires 1 <= n <= 99
    ensures |TwoDigits(n)| == 2 && AllDigits(TwoDigits(n)) && DigitsValue(TwoDigits(n)) == n
  {
    NatToStringLength(n);
    NatToStringDigits(n);
    if n < 10 {
      LeadingZero(NatToString(n));
    }
  }

  const YmdFormat: string := "yyyy.MM.dd"
  const YearMonthFormat: string := "yyyy년 M월"
  const MonthFormat: string := "M월"

  /** The 'yyyy.MM.dd' text: the year as String() writes it, then the month and the
      day on two digits. */
  function DottedText(date: Date): string {
    NumberToString(date.year) + "." + TwoDigits(date.month + 1) + "." + TwoDigits(date.day)
  }

  /** The fields of the 'yyyy.MM.dd' text: the year's digits, then '.', the two digits
      of the 1-based month, '.', and the two digits of the day. */
  lemma DottedTextFields(date: Date)
    ensures var s, y := DottedText(date), NumberToString(date.year);
      var n := |y|;
      && |s| == n + 6 && s[..n] == y && s[n] == '.' && s[n + 3] == '.'
      && AllDigits(s[n + 1..n + 3]) && DigitsValue(s[n + 1..n + 3]) == date.month + 1
      && AllDigits(s[n + 4..]) && DigitsValue(s[n + 4..]) == date.day
  {
    TwoDigitsValue(date.month + 1);
    TwoDigitsValue(date.day);
    DotFields(NumberToString(date.year), TwoDigits(date.month + 1), TwoDigits(date.day));
  }

  lemma DotFields(y: string, mm: string, dd: string)
    requires |mm| == 2 && |dd| == 2
    ensures var s, n := y + "." + mm + "." + dd, |y|;
      && |s| == n + 6 && s[..n] == y && s[n] == '.' && s[n + 3] == '.'
      && s[n + 1..n + 3] == mm && s[n + 4..] == dd
  {
    var s := y + "." + mm + "." + dd;
    assert s[..|y|] == y && s[|y| + 1..|y| + 3] == mm && s[|y| + 4..] == dd;
  }

  /** formatDate for the three formats the pickers use; any other format falls back to
      Date.prototype.toString(), which is not modelled (None). */
  function FormatDate(date: Date, format: string): (r: Option<string>)
    ensures r.Some? <==> format == YmdFormat || format == YearMonthFormat || format == MonthFormat
    ensures format == YmdFormat ==> r.value == DottedText(date)
  {
    var y := NumberToString(date.year);
    if format == YmdFormat then Some(DottedText(date))
    else if format == YearMonthFormat then Some(y + "년 " + NumberToString(date.month + 1) + "월")
    else if format == MonthFormat then Some(NumberToString(date.month + 1) + "월")
    else None
  }

  /** The 'yyyy.MM.dd' text of a date with a four-digit year. */
  lemma FormatYmdFourDigitYear(date: Date)
    requires 1000 <= date.year <= 9999
    ensures FormatDate(date, YmdFormat).Some?
    ensures var s := FormatDate(date, YmdFormat).value;
      && |s| == 10 && s[4] == '.' && s[7] == '.'
      && AllDigits(s[..4]) && DigitsValue(s[..4]) == date.year
      && AllDigits(s[5..7]) && DigitsValue(s[5..7]) == date.month + 1
      && AllDigits(s[8..]) && DigitsValue(s[8..]) == date.day
  {
    NatToStringLength(date.year);
    NatToStringDigits(date.year);
    DottedTextFields(date);
  }

  // ---------------------------------------------------------------------------
  // Parsers

  /** parseYmd: 'YYYY-MM-DD' through Number() on each '-'-separated field; an empty
      string, a missing field or a field that is 0 or NaN gives null. */
  function ParseYmd(str: string): (r: Option<Date>)
    ensures str == "" ==> r == None
    ensures |Split(str, '-')| < 3 ==> r == None
    ensures r.Some? ==> r.value.year >= 100
  {
    if str == "" then None
    else
      var parts := Split(str, '-');
      if |parts| < 3 then None
      else
        var y, m, d := StringToNumber(parts[0]), StringToNumber(parts[1]), StringToNumber(parts[2]);
        if !Truthy(y) || !Truthy(m) || !Truthy(d) then None
        else
          Some(ParsedDate(y.value, m.value, d.value))
  }

  /** new Date(y, m - 1, d) of three positive fields: never before year 100, and
      exactly (y, m - 1, d) in the constructor's year when month and day are in range. */
  function ParsedDate(y: int, m: int, d: int): (r: Date)
    requires y >= 1 && m >= 1 && d >= 1
    ensures r.year >= 100
    ensures m <= 12 && d <= DaysInMonth(ConstructorYear(y), m - 1) ==> r == CivilDate(ConstructorYear(y), m - 1, d)
  {
    var r := Construct(y, m - 1, d);
    NormalizeForward(MonthOrdinal(ConstructorYear(y), m - 1), d);
    YearFromOrdinal(r, ConstructorYear(y), m - 1);
    ConstructInRange(y, m - 1, d);
    r
  }

  /** new Date(y, m, d) with month and day in range is (y, m, d) in the constructor's year. */
  lemma ConstructInRange(y: int, m: int, d: int)
    ensures 0 <= m < 12 && 1 <= d <= DaysInMonth(ConstructorYear(y), m) ==>
      Construct(y, m, d) == CivilDate(ConstructorYear(y), m, d)
  {
    if 0 <= m < 12 && 1 <= d <= DaysInMonth(ConstructorYear(y), m) {
      ConstructValid(ConstructorYear(y), CivilDate(ConstructorYear(y), m, d));
    }
  }

  /** A date whose month ordinal is at least that of (year, month), month 0-11 or
      later, is in year or after it. */
  lemma YearFromOrdinal(r: Date, year: int, month: int)
    requires month >= 0 && MonthOrdinal(r.year, r.month) >= MonthOrdinal(year, month)
    ensures r.year >= year
  {
  }

  /** parseYmd of a text that splits into exactly the fields a, b and c. */
  lemma ParseYmdFields(str: string, a: string, b: string, c: string)
    requires str == a + "-" + b + "-" + c
    requires '-' !in a && '-' !in b && '-' !in c
    ensures var y, m, d := StringToNumber(a), StringToNumber(b), StringToNumber(c);
      ParseYmd(str) == if Truthy(y) && Truthy(m) && Truthy(d) then Some(ParsedDate(y.value, m.value, d.value)) else None
  {
    assert str == a + ['-'] + b + ['-'] + c;
    SplitThree(a, b, c, '-');
  }

  /** parseYmd of three '-'-free fields: null when a field is not a number. */
  lemma ParseYmdNaN(a: string, b: string, c: string)
    requires '-' !in a && '-' !in b && '-' !in c
    requires StringToNumber(a).None? || StringToNumber(b).None? || StringToNumber(c).None?
    ensures ParseYmd(a + "-" + b + "-" + c) == None
  {
    ParseYmdFields(a + "-" + b + "-" + c, a, b, c);
  }

  /** parseYmd of three digit fields (zero-padded or not): null exactly when a field
      is empty or zero, and otherwise the Date constructor of year, month - 1 and day. */
  lemma ParseYmdDigits(a: string, b: string, c: string)
    requires AllDigits(a) && AllDigits(b) && AllDigits(c)
    ensures ParseYmd(a + "-" + b + "-" + c) ==
      if DigitsValue(a) == 0 || DigitsValue(b) == 0 || DigitsValue(c) == 0 then None
      else Some(ParsedDate(DigitsValue(a), DigitsValue(b), DigitsValue(c)))
  {
    DigitsExclude(a, '-');
    DigitsExclude(b, '-');
    DigitsExclude(c, '-');
    ParseYmdNumbers(a, b, c, DigitsValue(a), DigitsValue(b), DigitsValue(c));
  }

  /** The zero-padded 'YYYY-MM-DD' text of a date from year 100 on parses back to it. */
  lemma ParseYmdZeroPadded(x: Date)
    requires x.year >= 100
    ensures ParseYmd(NatToString(x.year) + "-" + TwoDigits(x.month + 1) + "-" + TwoDigits(x.day)) == Some(x)
  {
    NatToStringDigits(x.year);
    TwoDigitsValue(x.month + 1);
    TwoDigitsValue(x.day);
    ParseYmdDigits(NatToString(x.year), TwoDigits(x.month + 1), TwoDigits(x.day));
  }

  /** parseYmd of three '-'-free fields that Number() reads as y, m and d. */
  lemma ParseYmdNumbers(a: string, b: string, c: string, y: int, m: int, d: int)
    requires '-' !in a && '-' !in b && '-' !in c
    requires StringToNumber(a) == Some(y) && StringToNumber(b) == Some(m) && StringToNumber(c) == Some(d)
    ensures ParseYmd(a + "-" + b + "-" + c) ==
      if y == 0 || m == 0 || d == 0 then None else Some(ParsedDate(y, m, d))
  {
    ParseYmdFields(a + "-" + b + "-" + c, a, b, c);
  }

  /** parseYearMonth: 'YYYY-MM' to {year, month - 1} under the same rules, without
      range checks. */
  function ParseYearMonth(str: string): (r: Option<YearMonth>)
    ensures str == "" ==> r == None
    ensures '-' !in str ==> r == None
    ensures r.Some? ==> r.value.year >= 1 && r.value.month >= 0
  {
    if str == "" then None
    else
      var parts := Split(str, '-');
      if |parts| < 2 then None
      else
        var y, m := StringToNumber(parts[0]), StringToNumber(parts[1]);
        if !Truthy(y) || !Truthy(m) then None
        else Some(YearMonth(y.value, m.value - 1))
  }

  /** parseYearMonth of a text that splits into exactly the fields a and b. */
  lemma ParseYearMonthFields(str: string, a: string, b: string)
    requires str == a + "-" + b
    requires '-' !in a && '-' !in b
    ensures var y, m := StringToNumber(a), StringToNumber(b);
      ParseYearMonth(str) == if Truthy(y) && Truthy(m) then Some(YearMonth(y.value, m.value - 1)) else None
  {
    assert str == a + ['-'] + b;
    SplitAfter(a, '-', b);
    SplitWithout(b, '-');
  }

  /** parseYearMonth of two '-'-free fields: null when a field is not a number. */
  lemma ParseYearMonthNaN(a: string, b: string)
    requires '-' !in a && '-' !in b
    requires StringToNumber(a).None? || StringToNumber(b).None?
    ensures ParseYearMonth(a + "-" + b) == None
  {
    ParseYearMonthFields(a + "-" + b, a, b);
  }

  /** parseYearMonth of two digit fields (zero-padded or not): null exactly when a
      field is empty or zero, and otherwise {year, month - 1}. */
  lemma ParseYearMonthDigits(a: string, b: string)
    requires AllDigits(a) && AllDigits(b)
    ensures var r := ParseYearMonth(a + "-" + b);
      && (r.None? <==> DigitsValue(a) == 0 || DigitsValue(b) == 0)
      && (r.Some? ==> r.value.year == DigitsValue(a) && r.value.month + 1 == DigitsValue(b))
  {
    DigitsExclude(a, '-');
    DigitsExclude(b, '-');
    ParseYearMonthFields(a + "-" + b, a, b);
  }

  /** The text 'Y-M-D' of a date: decimal fields, 1-based month, no padding. */
  function YmdText(x: Date): string
    requires x.year >= 0
  {
    NatToString(x.year) + "-" + NatToString(x.month + 1) + "-" + NatToString(x.day)
  }

  lemma SplitYmdText(x: Date)
    requires x.year >= 0
    ensures Split(YmdText(x), '-') == [NatToString(x.year), NatToString(x.month + 1), NatToString(x.day)]
  {
    NoDashInDigits(x.year);
    NoDashInDigits(x.month + 1);
    NoDashInDigits(x.day);
    SplitThree(NatToString(x.year), NatToString(x.month + 1), NatToString(x.day), '-');
  }

  lemma NoDashInDigits(n: nat)
    ensures '-' !in NatToString(n)
  {
    NatToStringDigits(n);
    DigitsExclude(NatToString(n), '-');
  }

  /** parseYmd reads the three fields of 'Y-M-D' back and hands them to the Date constructor. */
  lemma ParseYmdText(x: Date)
    requires x.year >= 1
    ensures ParseYmd(YmdText(x)) == Some(Construct(x.year, x.month, x.day))
  {
    SplitYmdText(x);
    NatToStringDigits(x.year);
    NatToStringDigits(x.month + 1);
    NatToStringDigits(x.day);
    var parts := Split(YmdText(x), '-');
    assert StringToNumber(parts[0]) == Some(x.year);
    assert StringToNumber(parts[1]) == Some(x.month + 1);
    assert StringToNumber(parts[2]) == Some(x.day);
  }

  lemma ConstructValid(year: int, x: Date)
    requires FullYear(year)
    requires 1 <= x.day <= DaysInMonth(year, x.month)
    ensures Construct(year, x.month, x.day) == CivilDate(year, x.month, x.day)
  {
    OrdinalParts(year, x.month);
    assert MonthLength(MonthOrdinal(year, x.month)) == DaysInMonth(year, x.month);
  }

  /** Writing a date as 'Y-M-D' and parsing it back gives the date, for years the Date
      constructor takes literally. */
  lemma ParseYmdRoundTrip(x: Date)
    requires x.year >= 100
    ensures ParseYmd(YmdText(x)) == Some(x)
  {
    ParseYmdText(x);
    ConstructValid(x.year, x);
  }

  lemma TwentiethCenturyLeap(y: int)
    requires 1 <= y <= 99
    ensures IsLeapYear(1900 + y) == IsLeapYear(y)
  {
    var q, r := y / 4, y % 4;
    assert 1900 + y == 4 * (475 + q) + r;
  }

  /** Years 1-99 are read by the Date constructor as 1901-1999. */
  lemma ParseYmdTwoDigitYear(x: Date)
    requires 1 <= x.year <= 99
    ensures ParseYmd(YmdText(x)).Some?
    ensures ParseYmd(YmdText(x)).value == CivilDate(1900 + x.year, x.month, x.day)
  {
    ParseYmdText(x);
    TwentiethCenturyLeap(x.year);
    ConstructValid(1900 + x.year, x);
  }

  /** 'Y-M' with y >= 1 and a 1-based month m + 1 parses back to {year: y, month: m}. */
  lemma ParseYearMonthRoundTrip(y: nat, m: nat)
    requires y >= 1
    ensures ParseYearMonth(NatToString(y) + "-" + NatToString(m + 1)) == Some(YearMonth(y, m))
  {
    var ys, ms := NatToString(y), NatToString(m + 1);
    NatToStringDigits(y);
    NatToStringDigits(m + 1);
    DigitsExclude(ys, '-');
    DigitsExclude(ms, '-');
    SplitAfter(ys, '-', ms);
    SplitWithout(ms, '-');
  }

  /** A zero month field is falsy: parseYearMonth gives null. */
  lemma ParseYearMonthZeroMonth(y: nat)
    ensures ParseYearMonth(NatToString(y) + "-0") == None
  {
    var ys := NatToString(y);
    NatToStringDigits(y);
    DigitsExclude(ys, '-');
    assert ys + "-0" == ys + ['-'] + "0";
    SplitAfter(ys, '-', "0");
    SplitWithout("0", '-');
    assert StringToNumber("0") == Some(0);
  }

  /** startOfMonth and endOfMonth are the first and the last day of the date's own month
      (for years the Date constructor takes literally), and every day of the month lies
      between them. */
  lemma MonthStartEnd(d: Date, x: Date)
    requires FullYear(d.year)
    requires IsSameMonth(x, d)
    ensures IsSameMonth(StartOfMonth(d), d) && StartOfMonth(d).day == 1
    ensures IsSameMonth(EndOfMonth(d), d) && !IsSameMonth(AddDays(EndOfMonth(d), 1), d)
    ensures DayNumber(StartOfMonth(d)) <= DayNumber(x) <= DayNumber(EndOfMonth(d))
  {
    var e := EndOfMonth(d);
    DayNumberOrder(e, AddDays(e, 1));
  }

  /** startOfMonth keeps the order of dates whose years the Date constructor takes literally. */
  lemma StartOfMonthMonotone(a: Date, b: Date)
    requires FullYear(a.year) && FullYear(b.year)
    requires DayNumber(a) <= DayNumber(b)
    ensures DayNumber(StartOfMonth(a)) <= DayNumber(StartOfMonth(b))
  {
    DayNumberOrder(b, a);
    DayNumberOrder(StartOfMonth(b), StartOfMonth(a));
  }

  // ---------------------------------------------------------------------------
  // Clamping

  predicate InBounds(date: Date, min: Option<Date>, max: Option<Date>) {
    (min.None? || DayNumber(min.value) <= DayNumber(date))
    && (max.None? || DayNumber(date) <= DayNumber(max.value))
  }

  predicate BoundsOrdered(min: Option<Date>, max: Option<Date>) {
    min.None? || max.None? || DayNumber(min.value) <= DayNumber(max.value)
  }

  /** clampDate: the min bound wins over the max bound when both are violated. */
  function ClampDate(date: Date, min: Option<Date>, max: Option<Date>): (r: Date)
    ensures BoundsOrdered(min, max) ==> InBounds(r, min, max)
    ensures InBounds(date, min, max) ==> r == date
    ensures r == date || Some(r) == min || Some(r) == max
  {
    var t := DayNumber(date);
    if min.Some? && t < DayNumber(min.value) then min.value
    else if max.Some? && t > DayNumber(max.value) then max.value
    else date
  }

  lemma ClampDateIdempotent(date: Date, min: Option<Date>, max: Option<Date>)
    requires BoundsOrdered(min, max)
    ensures ClampDate(ClampDate(date, min, max), min, max) == ClampDate(date, min, max)
  {
  }

  /** isBeforeMonth: (y, m) strictly before the bound, lexicographically; false without a bound. */
  function IsBeforeMonth(y: int, m: int, bound: Option<YearMonth>): (r: bool)
    ensures r ==> bound.Some?
    ensures bound.Some? && 0 <= m < 12 && 0 <= bound.value.month < 12 ==>
      (r <==> MonthOrdinal(y, m) < MonthOrdinal(bound.value.year, bound.value.month))
  {
    if bound.None? then false
    else if y < bound.value.year then true
    else if y == bound.value.year && m < bound.value.month then true
    else false
  }

  /** isAfterMonth: (y, m) strictly after the bound; never true together with isBeforeMonth. */
  function IsAfterMonth(y: int, m: int, bound: Option<YearMonth>): (r: bool)
    ensures r ==> bound.Some? && !IsBeforeMonth(y, m, bound)
    ensures bound.Some? && 0 <= m < 12 && 0 <= bound.value.month < 12 ==>
      (r <==> MonthOrdinal(y, m) > MonthOrdinal(bound.value.year, bound.value.month))
  {
    if bound.None? then false
    else if y > bound.value.year then true
    else if y == bound.value.year && m > bound.value.month then true
    else false
  }

  predicate MonthInBounds(ym: YearMonth, min: Option<YearMonth>, max: Option<YearMonth>) {
    !IsBeforeMonth(ym.year, ym.month, min) && !IsAfterMonth(ym.year, ym.month, max)
  }

  predicate MonthBoundsOrdered(min: Option<YearMonth>, max: Option<YearMonth>) {
    min.None? || !IsAfterMonth(min.value.year, min.value.month, max)
  }

  /** clampMonth: a fresh {year, month} record; the min bound is tested first. */
  function ClampMonth(ym: YearMonth, min: Option<YearMonth>, max: Option<YearMonth>): (r: YearMonth)
    ensures MonthBoundsOrdered(min, max) ==> MonthInBounds(r, min, max)
    ensures MonthInBounds(ym, min, max) ==> r == ym
    ensures r == ym || Some(r) == min || Some(r) == max
  {
    if min.Some? && IsBeforeMonth(ym.year, ym.month, min) then YearMonth(min.value.year, min.value.month)
    else if max.Some? && IsAfterMonth(ym.year, ym.month, max) then YearMonth(max.value.year, max.value.month)
    else YearMonth(ym.year, ym.month)
  }

  lemma ClampMonthIdempotent(ym: YearMonth, min: Option<YearMonth>, max: Option<YearMonth>)
    requires MonthBoundsOrdered(min, max)
    ensures ClampMonth(ClampMonth(ym, min, max), min, max) == ClampMonth(ym, min, max)
  {
  }
}
