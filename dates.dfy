/**
 * Calendar-date primitives the calendar component takes from date-fns
 * (getYear, getMonth, startOfMonth, startOfWeek, endOfWeek, addDays,
 * addMonths, subMonths, addYears, subYears, isSameDay, isSameMonth) and the
 * `new Date(year, month, 1)` constructor, on dates without a time of day.
 *
 * The calendar is the proleptic Gregorian one, for every integer year.
 * Days are numbered by `Serial`, the count of days since 1970-01-01.
 */
module Dates {

  /** A calendar date: month is 0..11 (January is 0), day is 1-based. */
  datatype Date = Date(year: int, month: int, day: int)

  predicate IsLeapYear(year: int) {
    year % 4 == 0 && (year % 100 != 0 || year % 400 == 0)
  }

  function DaysInMonth(year: int, month: int): (n: int)
    requires 0 <= month < 12
    ensures 28 <= n <= 31
    ensures n == 29 <==> month == 1 && IsLeapYear(year)
  {
    if month == 1 then (if IsLeapYear(year) then 29 else 28)
    else if month == 3 || month == 5 || month == 8 || month == 10 then 30
    else 31
  }

  function DaysInYear(year: int): int {
    if IsLeapYear(year) then 366 else 365
  }

  /** A date that exists: a month 0..11 and a day within that month. */
  predicate ValidDate(d: Date) {
    0 <= d.month < 12 && 1 <= d.day <= DaysInMonth(d.year, d.month)
  }

  predicate IsSameDay(a: Date, b: Date) {
    a == b
  }

  predicate IsSameMonth(a: Date, b: Date) {
    a.year == b.year && a.month == b.month
  }

  /** Months counted from January of year 0; one more per month. */
  function MonthIndex(d: Date): int {
    d.year * 12 + d.month
  }

  lemma MonthIndexInjective(a: Date, b: Date)
    requires 0 <= a.month < 12 && 0 <= b.month < 12
    requires MonthIndex(a) == MonthIndex(b)
    ensures a.year == b.year && a.month == b.month
  {
  }

  // ---------------------------------------------------------------------
  // Day numbering

  /** Days of the year that come before the 1st of `month` (0..12). */
  function DaysBeforeMonth(year: int, month: int): (n: int)
    requires 0 <= month <= 12
    ensures month == 12 ==> n == DaysInYear(year)
  {
    var leap := if month >= 2 && IsLeapYear(year) then 1 else 0;
    leap + (match month
      case 0 => 0 case 1 => 31 case 2 => 59 case 3 => 90
      case 4 => 120 case 5 => 151 case 6 => 181 case 7 => 212
      case 8 => 243 case 9 => 273 case 10 => 304 case 11 => 334
      case _ => 365)
  }

  /** Each month starts DaysInMonth after the previous one. */
  lemma DaysBeforeMonthStep(year: int, month: int)
    requires 0 <= month < 12
    ensures DaysBeforeMonth(year, month) + DaysInMonth(year, month) == DaysBeforeMonth(year, month + 1)
  {
  }

  /** Leap years strictly before `year`, up to a constant. */
  function LeapYearsBefore(year: int): int {
    (year - 1) / 4 - (year - 1) / 100 + (year - 1) / 400
  }

  /** Days from 1970-01-01 to the 1st of January of `year`. */
  function DaysBeforeYear(year: int): int {
    365 * (year - 1970) + LeapYearsBefore(year) - LeapYearsBefore(1970)
  }

  /** Consecutive years start DaysInYear apart. */
  lemma DaysBeforeNextYear(year: int)
    ensures DaysBeforeYear(year + 1) == DaysBeforeYear(year) + DaysInYear(year)
  {
    LeapYearsStep(year);
  }

  /** A year adds one to the leap count exactly when it is itself a leap year. */
  lemma LeapYearsStep(y: int)
    ensures LeapYearsBefore(y + 1) == LeapYearsBefore(y) + (if IsLeapYear(y) then 1 else 0)
  {
    var a, b, c := y / 4 - (y - 1) / 4, y / 100 - (y - 1) / 100, y / 400 - (y - 1) / 400;
    DivStep(y, 4);
    DivStep(y, 100);
    DivStep(y, 400);
    if y % 400 == 0 {
      MultipleOf400(y);
    } else if y % 100 == 0 {
      MultipleOf100(y);
    }
  }

  /** Floor division by `k` goes up by one exactly at the multiples of `k`. */
  lemma DivStep(y: int, k: int)
    requires k == 4 || k == 100 || k == 400
    ensures y / k - (y - 1) / k == if y % k == 0 then 1 else 0
  {
  }

  /** A multiple of 400 is a multiple of 100 and of 4. */
  lemma MultipleOf400(y: int)
    requires y % 400 == 0
    ensures y % 100 == 0 && y % 4 == 0
  {
  }

  /** A multiple of 100 is a multiple of 4. */
  lemma MultipleOf100(y: int)
    requires y % 100 == 0
    ensures y % 4 == 0
  {
  }

  lemma {:induction false} DaysBeforeYearMonotone(a: int, b: int)
    requires a <= b
    ensures DaysBeforeYear(a) + 365 * (b - a) <= DaysBeforeYear(b)
    decreases b - a
  {
    if a < b {
      DaysBeforeYearMonotone(a, b - 1);
      DaysBeforeNextYear(b - 1);
    }
  }

  lemma DaysBeforeMonthMonotone(year: int, m1: int, m2: int)
    requires 0 <= m1 < m2 <= 12
    ensures DaysBeforeMonth(year, m1) + DaysInMonth(year, m1) <= DaysBeforeMonth(year, m2)
  {
  }

  /** The day number of `d`: days since 1970-01-01 (negative before it). */
  function Serial(d: Date): int
    requires 0 <= d.month < 12
  {
    DaysBeforeYear(d.year) + DaysBeforeMonth(d.year, d.month) + d.day - 1
  }

  /** A valid date's day number falls within its own year and month. */
  lemma SerialBounds(d: Date)
    requires ValidDate(d)
    ensures DaysBeforeYear(d.year) <= Serial(d) < DaysBeforeYear(d.year + 1)
    ensures Serial(Date(d.year, d.month, 1)) <= Serial(d)
    ensures Serial(d) < Serial(Date(d.year, d.month, 1)) + DaysInMonth(d.year, d.month)
  {
    DaysBeforeNextYear(d.year);
    DaysBeforeMonthMonotone(d.year, d.month, 12);
  }

  /** A valid date in an earlier year has a smaller day number. */
  lemma SerialYearOrder(a: Date, b: Date)
    requires ValidDate(a) && ValidDate(b) && a.year < b.year
    ensures Serial(a) < Serial(b)
  {
    SerialBounds(a);
    SerialBounds(b);
    DaysBeforeYearMonotone(a.year + 1, b.year);
  }

  /** A valid date in an earlier month of the same year has a smaller day number. */
  lemma SerialMonthOrder(a: Date, b: Date)
    requires ValidDate(a) && ValidDate(b) && a.year == b.year && a.month < b.month
    ensures Serial(a) < Serial(b)
  {
    DaysBeforeMonthMonotone(a.year, a.month, b.month);
  }

  /** Distinct valid dates have distinct day numbers. */
  lemma SerialInjective(a: Date, b: Date)
    requires ValidDate(a) && ValidDate(b)
    requires Serial(a) == Serial(b)
    ensures a == b
  {
    if a.year < b.year {
      SerialYearOrder(a, b);
      assert false;
    } else if b.year < a.year {
      SerialYearOrder(b, a);
      assert false;
    } else if a.month < b.month {
      SerialMonthOrder(a, b);
      assert false;
    } else if b.month < a.month {
      SerialMonthOrder(b, a);
      assert false;
    }
  }

  /** Day of the week as JavaScript's getDay numbers it: Sunday is 0; 1970-01-01 was a Thursday. */
  function DayOfWeek(d: Date): (w: int)
    requires 0 <= d.month < 12
    ensures 0 <= w < 7
  {
    (Serial(d) + 4) % 7
  }

  // ---------------------------------------------------------------------
  // Stepping by days

  /** The following day (rolls over the month and the year). */
  function NextDay(d: Date): (r: Date)
    requires ValidDate(d)
    ensures ValidDate(r)
  {
    if d.day < DaysInMonth(d.year, d.month) then Date(d.year, d.month, d.day + 1)
    else if d.month < 11 then Date(d.year, d.month + 1, 1)
    else Date(d.year + 1, 0, 1)
  }

  /** The following day is numbered one more. */
  lemma NextDaySerial(d: Date)
    requires ValidDate(d)
    ensures Serial(NextDay(d)) == Serial(d) + 1
  {
    if d.day == DaysInMonth(d.year, d.month) {
      DaysBeforeMonthStep(d.year, d.month);
      DaysBeforeNextYear(d.year);
    }
  }

  /** The preceding day (rolls back over the month and the year). */
  function PrevDay(d: Date): (r: Date)
    requires ValidDate(d)
    ensures ValidDate(r)
  {
    if d.day > 1 then Date(d.year, d.month, d.day - 1)
    else if d.month > 0 then Date(d.year, d.month - 1, DaysInMonth(d.year, d.month - 1))
    else Date(d.year - 1, 11, 31)
  }

  /** The preceding day is numbered one less. */
  lemma PrevDaySerial(d: Date)
    requires ValidDate(d)
    ensures Serial(PrevDay(d)) + 1 == Serial(d)
  {
    if d.day == 1 {
      if d.month > 0 {
        DaysBeforeMonthStep(d.year, d.month - 1);
      } else {
        DaysBeforeNextYear(d.year - 1);
      }
    }
  }

  /** date-fns addDays: `n` calendar days later (earlier when `n` is negative). */
  function AddDays(d: Date, n: int): (r: Date)
    requires ValidDate(d)
    ensures ValidDate(r)
    decreases if n < 0 then -n else n
  {
    if n == 0 then d
    else if n > 0 then NextDay(AddDays(d, n - 1))
    else PrevDay(AddDays(d, n + 1))
  }

  /** `n` days later is numbered `n` more. */
  lemma {:induction false} AddDaysSerial(d: Date, n: int)
    requires ValidDate(d)
    ensures Serial(AddDays(d, n)) == Serial(d) + n
    decreases if n < 0 then -n else n
  {
    if n > 0 {
      AddDaysSerial(d, n - 1);
      NextDaySerial(AddDays(d, n - 1));
    } else if n < 0 {
      AddDaysSerial(d, n + 1);
      PrevDaySerial(AddDays(d, n + 1));
    }
  }

  /** One day more than `k` days later is the day after `k` days later (a proof step for the day loop). */
  lemma AddDaysNext(d: Date, k: int, k1: int)
    requires ValidDate(d) && 0 <= k && k1 == k + 1
    ensures AddDays(d, k1) == NextDay(AddDays(d, k))
  {
    assert k1 - 1 == k;
  }

  /** date-fns startOfMonth. */
  function StartOfMonth(d: Date): (r: Date)
    requires ValidDate(d)
    ensures ValidDate(r) && IsSameMonth(r, d) && Serial(r) <= Serial(d)
    ensures Serial(d) == Serial(r) + d.day - 1
  {
    Date(d.year, d.month, 1)
  }

  /** Going back to the Sunday of `d`'s week and then `k` days on lands on weekday `k` mod 7. */
  lemma DayOfWeekAligned(d: Date, r: Date, k: int)
    requires 0 <= d.month < 12 && 0 <= r.month < 12 && 0 <= k
    requires Serial(r) == Serial(d) - DayOfWeek(d) + k
    ensures DayOfWeek(r) == k % 7
  {
    WeekdayShift(Serial(d), Serial(r), k);
  }

  lemma WeekdayShift(a: int, b: int, k: int)
    requires 0 <= k && b == a - (a + 4) % 7 + k
    ensures (b + 4) % 7 == k % 7
  {
    var s := a + 4;
    assert b + 4 == 7 * (s / 7 + k / 7) + k % 7;
  }

  /** date-fns startOfWeek with weeks starting on Sunday: the Sunday on or before `d`. */
  function StartOfWeek(d: Date): (r: Date)
    requires ValidDate(d)
    ensures ValidDate(r) && DayOfWeek(r) == 0
    ensures Serial(r) == Serial(d) - DayOfWeek(d)
    ensures Serial(d) - 6 <= Serial(r) <= Serial(d)
  {
    var r := AddDays(d, -DayOfWeek(d));
    AddDaysSerial(d, -DayOfWeek(d));
    DayOfWeekAligned(d, r, 0);
    r
  }

  /** date-fns endOfWeek with weeks starting on Sunday: the Saturday on or after `d`. */
  function EndOfWeek(d: Date): (r: Date)
    requires ValidDate(d)
    ensures ValidDate(r) && DayOfWeek(r) == 6
    ensures Serial(r) == Serial(d) + 6 - DayOfWeek(d)
    ensures Serial(d) <= Serial(r) <= Serial(d) + 6
  {
    var r := AddDays(d, 6 - DayOfWeek(d));
    AddDaysSerial(d, 6 - DayOfWeek(d));
    DayOfWeekAligned(d, r, 6);
    r
  }

  // ---------------------------------------------------------------------
  // Stepping by months and years

  function Min(a: int, b: int): int {
    if a <= b then a else b
  }

  /**
   * date-fns addMonths: the same day `n` months later (earlier when `n` is
   * negative). When the target month is shorter than the day, the day is
   * clamped to that month's last day (Jan 31 + 1 month is Feb 28 or 29).
   */
  function AddMonths(d: Date, n: int): (r: Date)
    requires ValidDate(d)
    ensures ValidDate(r)
    ensures MonthIndex(r) == MonthIndex(d) + n
    ensures r.day <= d.day
    ensures r.day < d.day ==> r.day == DaysInMonth(r.year, r.month)
  {
    var target := MonthIndex(d) + n;
    var year, month := target / 12, target % 12;
    Date(year, month, Min(d.day, DaysInMonth(year, month)))
  }

  /** date-fns subMonths. */
  function SubMonths(d: Date, n: int): (r: Date)
    requires ValidDate(d)
    ensures ValidDate(r) && MonthIndex(r) == MonthIndex(d) - n
    ensures r.day <= d.day
    ensures r.day < d.day ==> r.day == DaysInMonth(r.year, r.month)
  {
    AddMonths(d, -n)
  }

  /** date-fns addYears: `n` times twelve months, with the same day clamping (Feb 29 + 1 year is Feb 28). */
  function AddYears(d: Date, n: int): (r: Date)
    requires ValidDate(d)
    ensures ValidDate(r) && r.year == d.year + n && r.month == d.month
    ensures r.day <= d.day
    ensures r.day < d.day ==> r.day == DaysInMonth(r.year, r.month)
  {
    var r := AddMonths(d, 12 * n);
    MonthIndexInjective(r, Date(d.year + n, d.month, d.day));
    r
  }

  /** date-fns subYears. */
  function SubYears(d: Date, n: int): (r: Date)
    requires ValidDate(d)
    ensures ValidDate(r) && r.year == d.year - n && r.month == d.month
    ensures r.day <= d.day
    ensures r.day < d.day ==> r.day == DaysInMonth(r.year, r.month)
  {
    AddYears(d, -n)
  }

  // ---------------------------------------------------------------------
  // The Date constructor

  /**
   * `new Date(year, month, 1)` as ECMAScript defines it: a month outside
   * 0..11 carries into the year, and a year from 0 to 99 is read as
   * 1900 + year.
   */
  function JsFirstOfMonth(year: int, month: int): (r: Date)
    ensures ValidDate(r) && r.day == 1
    ensures 0 <= year <= 99 ==> MonthIndex(r) == (1900 + year) * 12 + month
    ensures !(0 <= year <= 99) ==> MonthIndex(r) == year * 12 + month
  {
    var y := if 0 <= year <= 99 then 1900 + year else year;
    Date(y + month / 12, month % 12, 1)
  }

  /** The 1st of `month` in `year`, the month carrying into the year as in JsFirstOfMonth, every year read as written. */
  function FirstOfMonth(year: int, month: int): (r: Date)
    ensures ValidDate(r) && r.day == 1
    ensures MonthIndex(r) == year * 12 + month
  {
    Date(year + month / 12, month % 12, 1)
  }

  /** For a month 0..11, FirstOfMonth is exactly the date (year, month, 1). */
  lemma FirstOfMonthInRange(year: int, month: int)
    requires 0 <= month < 12
    ensures FirstOfMonth(year, month) == Date(year, month, 1)
  {
    MonthIndexInjective(FirstOfMonth(year, month), Date(year, month, 1));
  }

  /** The as-written constructor puts years 0..99 in the twentieth century. */
  lemma JsFirstOfMonthTwoDigitYear(year: int, month: int)
    requires 0 <= year <= 99 && 0 <= month < 12
    ensures JsFirstOfMonth(year, month) == Date(1900 + year, month, 1)
    ensures JsFirstOfMonth(year, month) != FirstOfMonth(year, month)
  {
    MonthIndexInjective(JsFirstOfMonth(year, month), Date(1900 + year, month, 1));
    FirstOfMonthInRange(year, month);
  }

  /** Outside years 0..99 the as-written constructor and FirstOfMonth agree. */
  lemma JsFirstOfMonthOtherYears(year: int, month: int)
    requires !(0 <= year <= 99)
    ensures JsFirstOfMonth(year, month) == FirstOfMonth(year, month)
  {
  }

  // ---------------------------------------------------------------------
  // Comparison

  /** `a <= b` on two dates: `a` is the same day as `b` or an earlier one. */
  predicate IsOnOrBefore(a: Date, b: Date) {
    a.year < b.year
    || (a.year == b.year && (a.month < b.month || (a.month == b.month && a.day <= b.day)))
  }

  /** Comparing valid dates field by field agrees with comparing their day numbers. */
  lemma IsOnOrBeforeSerial(a: Date, b: Date)
    requires ValidDate(a) && ValidDate(b)
    ensures IsOnOrBefore(a, b) <==> Serial(a) <= Serial(b)
  {
    if a.year < b.year {
      SerialYearOrder(a, b);
    } else if b.year < a.year {
      SerialYearOrder(b, a);
    } else if a.month < b.month {
      SerialMonthOrder(a, b);
    } else if b.month < a.month {
      SerialMonthOrder(b, a);
    }
  }
}
