/**
 * Proleptic Gregorian calendar dates as Python's `datetime.date` and pandas'
 * day-granular timestamps use them: day numbers (`date.toordinal()`),
 * weekday names (`strftime('%A')`, `Series.dt.day_name()`), subtraction of
 * days (`DateOffset(days=n)`) and of calendar months and years with the day
 * clamped to the target month (`DateOffset(months=n)`, `DateOffset(years=n)`),
 * and the two text forms the system reads and writes: `YYYY-MM-DD` (the
 * full-date form of section 5.6 of RFC 3339) and `D Mon YYYY`.
 */
module Calendar {
  import opened Wrappers
  import opened Text

  datatype Date = Date(year: int, month: int, day: int)

  predicate IsLeapYear(y: int) {
    y % 4 == 0 && (y % 100 != 0 || y % 400 == 0)
  }

  function DaysInMonth(y: int, m: int): (n: int)
    requires 1 <= m <= 12
    ensures 28 <= n <= 31
    ensures n == 29 <==> m == 2 && IsLeapYear(y)
  {
    if m == 2 then (if IsLeapYear(y) then 29 else 28)
    else if m == 4 || m == 6 || m == 9 || m == 11 then 30
    else 31
  }

  /** A real calendar day: a month 1..12 and a day that month has. */
  predicate Valid(d: Date) {
    1 <= d.month <= 12 && 1 <= d.day <= DaysInMonth(d.year, d.month)
  }

  function DaysInYear(y: int): int {
    if IsLeapYear(y) then 366 else 365
  }

  /** Days in the years before `y`, counted from 1 January of year 1. */
  function DaysBeforeYear(y: int): int {
    var p := y - 1;
    365 * p + p / 4 - p / 100 + p / 400
  }

  /** Days in the months of year `y` before month `m`. */
  function DaysBeforeMonth(y: int, m: int): int
    requires 1 <= m <= 12
  {
    var common := [0, 31, 59, 90, 120, 151, 181, 212, 243, 273, 304, 334][m - 1];
    if m > 2 && IsLeapYear(y) then common + 1 else common
  }

  /** The day number of `d`; 1 January of year 1 is day 1 (Python's `toordinal`). */
  function Ordinal(d: Date): int
    requires Valid(d)
  {
    DaysBeforeYear(d.year) + DaysBeforeMonth(d.year, d.month) + d.day
  }

  lemma YearLength(y: int)
    ensures DaysBeforeYear(y + 1) == DaysBeforeYear(y) + DaysInYear(y)
  {
    DivStep(y, 4);
    DivStep(y, 100);
    DivStep(y, 400);
    DivisorChain(y);
    var leap := if IsLeapYear(y) then 1 else 0;
    var a, b, c := if y % 4 == 0 then 1 else 0, if y % 100 == 0 then 1 else 0, if y % 400 == 0 then 1 else 0;
    assert a - b + c == leap;
  }

  /** A multiple of 400 is a multiple of 100, and a multiple of 100 one of 4. */
  lemma DivisorChain(y: int)
    ensures y % 400 == 0 ==> y % 100 == 0
    ensures y % 100 == 0 ==> y % 4 == 0
  {
    if y % 400 == 0 {
      var q := y / 400;
      assert y == 100 * (4 * q);
      MultipleMod(4 * q, 100);
    }
    if y % 100 == 0 {
      var q := y / 100;
      assert y == 4 * (25 * q);
      MultipleMod(25 * q, 4);
    }
  }

  lemma MultipleMod(x: int, k: int)
    requires k == 4 || k == 100
    ensures (k * x) % k == 0
  {
  }

  /** Going from `y - 1` to `y` adds one to `y / k` exactly when `k` divides `y`. */
  lemma DivStep(y: int, k: int)
    requires k == 4 || k == 100 || k == 400
    ensures y / k == (y - 1) / k + (if y % k == 0 then 1 else 0)
  {
  }

  lemma MonthLength(y: int, m: int)
    requires 1 <= m < 12
    ensures DaysBeforeMonth(y, m + 1) == DaysBeforeMonth(y, m) + DaysInMonth(y, m)
  {
  }

  /** The day before `d`, rolling back over month and year ends. */
  function PrevDay(d: Date): (p: Date)
    requires Valid(d)
    ensures Valid(p) && Ordinal(p) == Ordinal(d) - 1
  {
    if d.day > 1 then Date(d.year, d.month, d.day - 1)
    else if d.month > 1 then
      MonthLength(d.year, d.month - 1);
      Date(d.year, d.month - 1, DaysInMonth(d.year, d.month - 1))
    else
      YearLength(d.year - 1);
      Date(d.year - 1, 12, 31)
  }

  /** `d - DateOffset(days=n)`. */
  function SubDays(d: Date, n: nat): (r: Date)
    requires Valid(d)
    ensures Valid(r) && Ordinal(r) == Ordinal(d) - n
  {
    if n == 0 then d else PrevDay(SubDays(d, n - 1))
  }

  /**
   * `d - DateOffset(months=n)`: step back `n` calendar months and clamp the
   * day to the length of the month reached.
   */
  function SubMonths(d: Date, n: nat): (r: Date)
    requires Valid(d)
    ensures Valid(r)
    ensures r.year * 12 + r.month == d.year * 12 + d.month - n
    ensures r.day == if d.day <= DaysInMonth(r.year, r.month) then d.day else DaysInMonth(r.year, r.month)
  {
    var total := d.year * 12 + (d.month - 1) - n;
    var y, m := total / 12, total % 12 + 1;
    Date(y, m, if d.day <= DaysInMonth(y, m) then d.day else DaysInMonth(y, m))
  }

  /** `d - DateOffset(years=n)`: the same month `n` years back; 29 February becomes 28 February. */
  function SubYears(d: Date, n: nat): (r: Date)
    requires Valid(d)
    ensures Valid(r) && r.year == d.year - n && r.month == d.month
    ensures r.day == d.day || (d.month == 2 && d.day == 29 && r.day == 28 && !IsLeapYear(r.year))
  {
    var y := d.year - n;
    Date(y, d.month, if d.day <= DaysInMonth(y, d.month) then d.day else DaysInMonth(y, d.month))
  }

  /** Day number of the first of a month. */
  function MonthStart(y: int, m: int): int
    requires 1 <= m <= 12
  {
    DaysBeforeYear(y) + DaysBeforeMonth(y, m)
  }

  /** The first of the next month is as many days later as the month is long. */
  lemma NextMonthStart(y: int, m: int)
    requires 1 <= m <= 12
    ensures m < 12 ==> MonthStart(y, m + 1) == MonthStart(y, m) + DaysInMonth(y, m)
    ensures m == 12 ==> MonthStart(y + 1, 1) == MonthStart(y, m) + DaysInMonth(y, m)
  {
    if m == 12 {
      YearLength(y);
    }
  }

  /** The day number of the first day of month number `t`, counting months as `year * 12 + month - 1`. */
  function MonthIndexStart(t: int): int {
    MonthStart(t / 12, t % 12 + 1)
  }

  /** Consecutive months start at least 28 days apart. */
  lemma MonthIndexStep(t: int)
    ensures MonthIndexStart(t + 1) >= MonthIndexStart(t) + 28
  {
    var y, m := t / 12, t % 12 + 1;
    NextMonthStart(y, m);
    if m < 12 {
      assert (t + 1) / 12 == y && (t + 1) % 12 + 1 == m + 1;
    } else {
      assert (t + 1) / 12 == y + 1 && (t + 1) % 12 + 1 == 1;
    }
  }

  /** A sequence that grows by at least 28 per step grows by `28 * n` over `n` steps. */
  lemma {:induction false} StepsAccumulate(f: int -> int, t: int, n: nat)
    requires forall k :: f(k + 1) >= f(k) + 28
    ensures f(t + n) >= f(t) + 28 * n
  {
    if n > 0 {
      StepsAccumulate(f, t, n - 1);
      assert f(t + (n - 1) + 1) >= f(t + (n - 1)) + 28;
    }
  }

  /** Months `n` apart start at least `28 * n` days apart. */
  lemma MonthIndexDistance(t: int, n: nat)
    ensures MonthIndexStart(t + n) >= MonthIndexStart(t) + 28 * n
  {
    forall k ensures MonthIndexStart(k + 1) >= MonthIndexStart(k) + 28 {
      MonthIndexStep(k);
    }
    StepsAccumulate(MonthIndexStart, t, n);
  }

  /**
   * The cutoff of `DateOffset(months=n)` lies at least 28 days per month
   * before the day it is taken from.
   */
  lemma SubMonthsDistance(d: Date, n: nat)
    requires Valid(d)
    ensures Ordinal(d) - Ordinal(SubMonths(d, n)) >= 28 * n
  {
    var r := SubMonths(d, n);
    var t := r.year * 12 + r.month - 1;
    assert (t + n) / 12 == d.year && (t + n) % 12 + 1 == d.month;
    assert t / 12 == r.year && t % 12 + 1 == r.month;
    MonthIndexDistance(t, n);
  }

  /**
   * A valid day, with day number `o` in month number `t`, lies after the
   * start of its month and no later than the start of the next.
   */
  lemma OrdinalInMonth(d: Date, t: int, o: int)
    requires Valid(d) && t == d.year * 12 + d.month - 1 && o == Ordinal(d)
    ensures MonthIndexStart(t) < o <= MonthIndexStart(t + 1)
  {
    assert t / 12 == d.year && t % 12 + 1 == d.month;
    NextMonthStart(d.year, d.month);
    if d.month < 12 {
      assert (t + 1) / 12 == d.year && (t + 1) % 12 + 1 == d.month + 1;
    } else {
      assert (t + 1) / 12 == d.year + 1 && (t + 1) % 12 + 1 == 1;
    }
  }

  /**
   * Intervals `(f(t), f(t + 1)]` of a sequence that grows by at least 28 per
   * step do not overlap: a number lies in the interval of at most one `t`.
   */
  lemma {:induction false} StepIntervalsDisjoint(f: int -> int, s: int, t: int, o: int)
    requires forall k :: f(k + 1) >= f(k) + 28
    requires f(s) < o <= f(s + 1) && f(t) < o <= f(t + 1)
    ensures s == t
  {
    if s < t {
      StepsAccumulate(f, s + 1, t - s - 1);
    } else if t < s {
      StepsAccumulate(f, t + 1, s - t - 1);
    }
  }

  lemma MonthIndexUnique(y1: int, m1: int, y2: int, m2: int)
    requires 1 <= m1 <= 12 && 1 <= m2 <= 12
    requires y1 * 12 + m1 == y2 * 12 + m2
    ensures y1 == y2 && m1 == m2
  {
  }

  /** A day number lies in the span of one month only. */
  lemma MonthIntervalsDisjoint(s: int, t: int, o: int)
    requires MonthIndexStart(s) < o <= MonthIndexStart(s + 1)
    requires MonthIndexStart(t) < o <= MonthIndexStart(t + 1)
    ensures s == t
  {
    forall k ensures MonthIndexStart(k + 1) >= MonthIndexStart(k) + 28 {
      MonthIndexStep(k);
    }
    StepIntervalsDisjoint(MonthIndexStart, s, t, o);
  }

  /** Dates with the same day number lie in the same month. */
  lemma SameOrdinalSameMonth(a: Date, b: Date)
    requires Valid(a) && Valid(b) && Ordinal(a) == Ordinal(b)
    ensures a.year * 12 + a.month == b.year * 12 + b.month
  {
    var ta, tb, o := a.year * 12 + a.month - 1, b.year * 12 + b.month - 1, Ordinal(a);
    OrdinalInMonth(a, ta, o);
    OrdinalInMonth(b, tb, o);
    MonthIntervalsDisjoint(ta, tb, o);
  }

  /** Distinct valid dates have distinct day numbers. */
  lemma OrdinalInjective(a: Date, b: Date)
    requires Valid(a) && Valid(b) && Ordinal(a) == Ordinal(b)
    ensures a == b
  {
    SameOrdinalSameMonth(a, b);
    MonthIndexUnique(a.year, a.month, b.year, b.month);
  }

  /** `a` is no later than `b`: years, then months, then days compared. */
  predicate NotLater(a: Date, b: Date) {
    a.year < b.year || (a.year == b.year && (a.month < b.month || (a.month == b.month && a.day <= b.day)))
  }

  lemma MonthOrder(a: Date, b: Date, ta: int, tb: int, oa: int, ob: int)
    requires Valid(a) && Valid(b)
    requires ta == a.year * 12 + a.month - 1 && tb == b.year * 12 + b.month - 1
    requires oa == Ordinal(a) && ob == Ordinal(b) && ta < tb
    ensures oa < ob
  {
    OrdinalInMonth(a, ta, oa);
    OrdinalInMonth(b, tb, ob);
    forall k ensures MonthIndexStart(k + 1) >= MonthIndexStart(k) + 28 {
      MonthIndexStep(k);
    }
    StepIntervalsOrdered(MonthIndexStart, ta, tb, oa, ob);
  }

  /** Along a sequence that grows by at least 28 per step, a later interval holds larger numbers. */
  lemma StepIntervalsOrdered(f: int -> int, s: int, t: int, o: int, p: int)
    requires forall k :: f(k + 1) >= f(k) + 28
    requires f(s) < o <= f(s + 1) && f(t) < p <= f(t + 1) && s < t
    ensures o < p
  {
    StepsAccumulate(f, s + 1, t - s - 1);
  }

  /** On real dates, comparing field by field orders the days as their day numbers do. */
  lemma NotLaterOrdinal(a: Date, b: Date)
    requires Valid(a) && Valid(b)
    ensures NotLater(a, b) <==> Ordinal(a) <= Ordinal(b)
  {
    var ta, tb := a.year * 12 + a.month - 1, b.year * 12 + b.month - 1;
    if ta < tb {
      MonthOrder(a, b, ta, tb, Ordinal(a), Ordinal(b));
    } else if tb < ta {
      MonthOrder(b, a, tb, ta, Ordinal(b), Ordinal(a));
    } else {
      MonthIndexUnique(a.year, a.month, b.year, b.month);
    }
  }

  // ---------------------------------------------------------------------
  // Weekdays

  /** Monday is 0 and Sunday is 6, as Python's `date.weekday()`. */
  function Weekday(d: Date): (w: nat)
    requires Valid(d)
    ensures w < 7
  {
    (Ordinal(d) + 6) % 7
  }

  const WeekdayNames: seq<string> :=
    ["Monday", "Tuesday", "Wednesday", "Thursday", "Friday", "Saturday", "Sunday"]

  /** The English weekday name (`strftime('%A')`, `dt.day_name()`). */
  function DayName(d: Date): (name: string)
    requires Valid(d)
    ensures name in WeekdayNames
    ensures name == WeekdayNames[Weekday(d)]
  {
    WeekdayNames[Weekday(d)]
  }

  lemma WeekdayNamesDistinct()
    ensures forall i, j :: 0 <= i < j < 7 ==> WeekdayNames[i] != WeekdayNames[j]
  {
  }

  /** Fixed points of the calendar: 1 January of year 1 and 1 January 2024 were Mondays. */
  lemma WeekdayAnchors()
    ensures Weekday(Date(1, 1, 1)) == 0 && DayName(Date(1, 1, 1)) == "Monday"
    ensures DayName(Date(2024, 1, 1)) == "Monday"
    ensures DayName(Date(2024, 8, 10)) == "Saturday"
  {
  }

  /** The next day has the next weekday, Sunday wrapping round to Monday. */
  lemma WeekdaySuccessor(a: Date, b: Date)
    requires Valid(a) && Valid(b) && Ordinal(b) == Ordinal(a) + 1
    ensures Weekday(b) == (Weekday(a) + 1) % 7
    ensures DayName(b) == WeekdayNames[(Weekday(a) + 1) % 7]
    ensures DayName(a) == "Sunday" <==> DayName(b) == "Monday"
  {
    WeekdayShift(Ordinal(a), Weekday(a), 1);
  }

  /** Days a week apart share their weekday name. */
  lemma WeekdayPeriod(a: Date, b: Date)
    requires Valid(a) && Valid(b) && Ordinal(b) == Ordinal(a) + 7
    ensures DayName(b) == DayName(a)
  {
    WeekdayShift(Ordinal(a), Weekday(a), 7);
  }

  lemma WeekdayShift(n: int, w: int, k: nat)
    requires w == (n + 6) % 7
    ensures (n + k + 6) % 7 == (w + k) % 7
  {
  }

  // ---------------------------------------------------------------------
  // Text forms

  predicate IsLetter(c: char) {
    'A' <= c <= 'Z' || 'a' <= c <= 'z'
  }

  /** The English abbreviation of a month (`strftime('%b')` in the C locale). */
  function MonthAbbreviation(m: int): (s: string)
    requires 1 <= m <= 12
    ensures |s| == 3 && forall i :: 0 <= i < 3 ==> IsLetter(s[i])
  {
    match m
    case 1 => "Jan" case 2 => "Feb" case 3 => "Mar" case 4 => "Apr"
    case 5 => "May" case 6 => "Jun" case 7 => "Jul" case 8 => "Aug"
    case 9 => "Sep" case 10 => "Oct" case 11 => "Nov" case _ => "Dec"
  }

  /** Python's `datetime.date` accepts years 1 to 9999. */
  predicate InPythonRange(d: Date) {
    Valid(d) && 1 <= d.year <= 9999
  }

  /** `strftime('%Y-%m-%d')`: the RFC 3339 full-date form. */
  function IsoString(d: Date): (s: string)
    requires InPythonRange(d)
    ensures |s| == 10 && s[4] == '-' && s[7] == '-'
  {
    Pad4(d.year) + "-" + Pad2(d.month) + "-" + Pad2(d.day)
  }

  datatype DateError = Malformed(text: string) | OutOfRange(text: string)

  /** A day field of `strptime`: one or two digits with value 1..31. */
  function ParseDayField(s: string): Option<nat> {
    if IsDigits(s) && |s| <= 2 && 1 <= DigitsValue(s) <= 31 then Some(DigitsValue(s)) else None
  }

  /** A month field of `strptime('%m')`: one or two digits with value 1..12. */
  function ParseMonthField(s: string): Option<nat> {
    if IsDigits(s) && |s| <= 2 && 1 <= DigitsValue(s) <= 12 then Some(DigitsValue(s)) else None
  }

  /** A year field of `strptime('%Y')`: exactly four digits. */
  function ParseYearField(s: string): Option<nat> {
    if IsDigits(s) && |s| == 4 then Some(DigitsValue(s)) else None
  }

  /** A month field of `strptime('%b')`: one of the English three-letter abbreviations. */
  function ParseMonthName(s: string): (r: Option<nat>)
    ensures r.Some? ==> 1 <= r.value <= 12 && MonthAbbreviation(r.value) == s
    ensures r.None? ==> forall m :: 1 <= m <= 12 ==> MonthAbbreviation(m) != s
  {
    if s == "Jan" then Some(1) else if s == "Feb" then Some(2) else if s == "Mar" then Some(3)
    else if s == "Apr" then Some(4) else if s == "May" then Some(5) else if s == "Jun" then Some(6)
    else if s == "Jul" then Some(7) else if s == "Aug" then Some(8) else if s == "Sep" then Some(9)
    else if s == "Oct" then Some(10) else if s == "Nov" then Some(11) else if s == "Dec" then Some(12)
    else None
  }

  /**
   * The last step of `strptime`: the fields must name a real day in
   * years 1..9999, otherwise `ValueError`.
   */
  function CheckDate(y: nat, m: nat, d: nat, text: string): (r: Result<Date, DateError>)
    requires 1 <= m <= 12
    ensures r.Ok? <==> 1 <= y <= 9999 && d <= DaysInMonth(y, m) && d >= 1
    ensures r.Ok? ==> r.value == Date(y, m, d) && InPythonRange(r.value)
  {
    if 1 <= y <= 9999 && 1 <= d <= DaysInMonth(y, m) then Ok(Date(y, m, d)) else Err(OutOfRange(text))
  }

  /**
   * The `-`-separated fields fit `%Y-%m-%d`: four year digits, then a
   * month 1..12 and a day 1..31 of one or two digits each.
   */
  predicate IsoFieldsFit(p: seq<string>) {
    |p| == 3
    && IsDigits(p[0]) && |p[0]| == 4
    && IsDigits(p[1]) && |p[1]| <= 2 && 1 <= DigitsValue(p[1]) <= 12
    && IsDigits(p[2]) && |p[2]| <= 2 && 1 <= DigitsValue(p[2]) <= 31
  }

  /** The date the fitting fields spell. */
  function IsoFieldsDate(p: seq<string>): Date
    requires IsoFieldsFit(p)
  {
    Date(DigitsValue(p[0]), DigitsValue(p[1]), DigitsValue(p[2]))
  }

  /**
   * `datetime.strptime(s, '%Y-%m-%d')`: text that does not fit the format
   * is malformed, fitting text that names no day of years 1..9999 is out
   * of range, and otherwise the result is the date the fields spell.
   */
  function ParseIsoDate(s: string): (r: Result<Date, DateError>)
    ensures r.Ok? ==> InPythonRange(r.value)
    ensures r == Err(Malformed(s)) <==> !IsoFieldsFit(Split(s, "-"))
    ensures r == Err(OutOfRange(s)) <==>
              IsoFieldsFit(Split(s, "-")) && !InPythonRange(IsoFieldsDate(Split(s, "-")))
    ensures r.Ok? ==> IsoFieldsFit(Split(s, "-")) && r.value == IsoFieldsDate(Split(s, "-"))
  {
    var parts := Split(s, "-");
    if |parts| != 3 then Err(Malformed(s))
    else match (ParseYearField(parts[0]), ParseMonthField(parts[1]), ParseDayField(parts[2]))
      case (Some(y), Some(m), Some(d)) => CheckDate(y, m, d, s)
      case _ => Err(Malformed(s))
  }

  /** Reading back a written date gives the date: document ids name the day they were written for. */
  lemma IsoRoundTrip(d: Date)
    requires InPythonRange(d)
    ensures ParseIsoDate(IsoString(d)) == Ok(d)
  {
    var y, m, dd := Pad4(d.year), Pad2(d.month), Pad2(d.day);
    var s := IsoString(d);
    NotADigit(y, '-');
    NotADigit(m, '-');
    NotADigit(dd, '-');
    SplitThree(y, m, dd, '-');
    assert Split(s, "-") == [y, m, dd];
    IsoFields(d, y, m, dd);
    ParseIsoParts(s, [y, m, dd], d.year, d.month, d.day);
  }

  lemma IsoFields(d: Date, y: string, m: string, dd: string)
    requires InPythonRange(d) && y == Pad4(d.year) && m == Pad2(d.month) && dd == Pad2(d.day)
    ensures ParseYearField(y) == Some(d.year)
    ensures ParseMonthField(m) == Some(d.month)
    ensures ParseDayField(dd) == Some(d.day)
  {
  }

  lemma ParseIsoParts(s: string, parts: seq<string>, y: nat, m: nat, d: nat)
    requires Split(s, "-") == parts && |parts| == 3
    requires ParseYearField(parts[0]) == Some(y) && ParseMonthField(parts[1]) == Some(m) && ParseDayField(parts[2]) == Some(d)
    ensures ParseIsoDate(s) == CheckDate(y, m, d, s)
  {
  }

  lemma NotADigit(s: string, c: char)
    requires IsDigits(s) && !IsDigitChar(c)
    ensures c !in s
  {
  }

  /**
   * The space-separated fields fit `%d %b %Y`: a day 1..31 of one or two
   * digits, an English month abbreviation, then four year digits.
   */
  predicate DayMonthYearFieldsFit(p: seq<string>) {
    |p| == 3
    && IsDigits(p[0]) && |p[0]| <= 2 && 1 <= DigitsValue(p[0]) <= 31
    && ParseMonthName(p[1]).Some?
    && IsDigits(p[2]) && |p[2]| == 4
  }

  /** The date the fitting fields spell. */
  function DayMonthYearFieldsDate(p: seq<string>): Date
    requires DayMonthYearFieldsFit(p)
  {
    Date(DigitsValue(p[2]), ParseMonthName(p[1]).value, DigitsValue(p[0]))
  }

  /**
   * `datetime.strptime(s, '%d %b %Y')` with single spaces between the
   * fields: malformed, out of range or the date spelled, as for
   * `ParseIsoDate`.
   */
  function ParseDayMonthYear(s: string): (r: Result<Date, DateError>)
    ensures r.Ok? ==> InPythonRange(r.value)
    ensures r == Err(Malformed(s)) <==> !DayMonthYearFieldsFit(Split(s, " "))
    ensures r == Err(OutOfRange(s)) <==>
              DayMonthYearFieldsFit(Split(s, " ")) && !InPythonRange(DayMonthYearFieldsDate(Split(s, " ")))
    ensures r.Ok? ==> DayMonthYearFieldsFit(Split(s, " ")) && r.value == DayMonthYearFieldsDate(Split(s, " "))
  {
    var parts := Split(s, " ");
    if |parts| != 3 then Err(Malformed(s))
    else match (ParseDayField(parts[0]), ParseMonthName(parts[1]), ParseYearField(parts[2]))
      case (Some(d), Some(m), Some(y)) => CheckDate(y, m, d, s)
      case _ => Err(Malformed(s))
  }

  /** The `D Mon YYYY` form of a date, as the step report writes it. */
  function DayMonthYearString(d: Date): string
    requires InPythonRange(d)
  {
    NatToString(d.day) + " " + MonthAbbreviation(d.month) + " " + Pad4(d.year)
  }

  /** Reading a `D Mon YYYY` date gives the date back. */
  lemma DayMonthYearRoundTrip(d: Date)
    requires InPythonRange(d)
    ensures ParseDayMonthYear(DayMonthYearString(d)) == Ok(d)
  {
    var ds, ms, ys := NatToString(d.day), MonthAbbreviation(d.month), Pad4(d.year);
    DayMonthYearFields(d);
    MonthNameRoundTrip(d.month);
    DayYearFields(d, ds, ys);
    ParseDayMonthYearParts(DayMonthYearString(d), [ds, ms, ys], d.day, d.month, d.year);
  }

  lemma DayYearFields(d: Date, ds: string, ys: string)
    requires InPythonRange(d) && ds == NatToString(d.day) && ys == Pad4(d.year)
    ensures ParseDayField(ds) == Some(d.day) && ParseYearField(ys) == Some(d.year)
  {
    NatToStringRoundTrip(d.day);
  }

  lemma ParseDayMonthYearParts(s: string, parts: seq<string>, d: nat, m: nat, y: nat)
    requires Split(s, " ") == parts && |parts| == 3
    requires ParseDayField(parts[0]) == Some(d) && ParseMonthName(parts[1]) == Some(m) && ParseYearField(parts[2]) == Some(y)
    ensures ParseDayMonthYear(s) == CheckDate(y, m, d, s)
  {
  }

  lemma DayMonthYearFields(d: Date)
    requires InPythonRange(d)
    ensures Split(DayMonthYearString(d), " ") == [NatToString(d.day), MonthAbbreviation(d.month), Pad4(d.year)]
  {
    var ds, ms, ys := NatToString(d.day), MonthAbbreviation(d.month), Pad4(d.year);
    NotADigit(ds, ' ');
    NotADigit(ys, ' ');
    assert ' ' !in ms by {
      assert forall i :: 0 <= i < |ms| ==> ms[i] != ' ';
    }
    SplitThree(ds, ms, ys, ' ');
  }

  lemma MonthNameRoundTrip(m: int)
    requires 1 <= m <= 12
    ensures ParseMonthName(MonthAbbreviation(m)) == Some(m)
  {
  }
}
