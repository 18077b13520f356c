/**
 * Time values as the JavaScript `Date` object and Python's `datetime` see them, with local
 * time taken to be UTC: an instant is a count of milliseconds since 1970-01-01T00:00:00Z,
 * a day number counts days since that date, and the proleptic Gregorian calendar maps day
 * numbers to (year, month, day).
 *
 * `DayFromYear` is the ECMAScript formula; its inverse `CivilFromDays` searches for the year
 * and then the month, and `CivilRoundTrip` proves that the two agree.
 */
module Calendar {

  /** Milliseconds since 1970-01-01T00:00:00Z. */
  type Instant = int

  const MsPerMinute: int := 60000
  const MsPerHour: int := 3600000
  const MsPerDay: int := 86400000

  /** The day number of an instant (floor division: instants before 1970 fall on negative days). */
  function DayOf(t: Instant): int {
    t / MsPerDay
  }

  function HourOf(t: Instant): (h: int)
    ensures 0 <= h < 24
  {
    (t % MsPerDay) / MsPerHour
  }

  function MinuteOf(t: Instant): (m: int)
    ensures 0 <= m < 60
  {
    ((t % MsPerDay) / MsPerMinute) % 60
  }

  /** Whole minutes, as every slot and every parsed appointment time is. */
  predicate MinuteAligned(t: Instant) {
    t % MsPerMinute == 0
  }

  /** A minute-aligned instant is its day, hour and minute put back together. */
  lemma Decompose(t: Instant)
    requires MinuteAligned(t)
    ensures t == DayOf(t) * MsPerDay + HourOf(t) * MsPerHour + MinuteOf(t) * MsPerMinute
  {
    var w := t % MsPerDay;
    assert t == DayOf(t) * MsPerDay + w;
    assert w % MsPerMinute == 0;
    assert w == HourOf(t) * MsPerHour + MinuteOf(t) * MsPerMinute;
  }

  /** The fields of `day * MsPerDay + hour * MsPerHour + minute * MsPerMinute` are the given ones. */
  lemma FieldsOfSlot(day: int, hour: int, minute: int)
    requires 0 <= hour < 24 && 0 <= minute < 60
    ensures var t := day * MsPerDay + hour * MsPerHour + minute * MsPerMinute;
      DayOf(t) == day && HourOf(t) == hour && MinuteOf(t) == minute && MinuteAligned(t)
  {
    var w := hour * MsPerHour + minute * MsPerMinute;
    var t := day * MsPerDay + w;
    assert 0 <= w < MsPerDay;
    assert t % MsPerDay == w;
    assert w / MsPerMinute == hour * 60 + minute;
  }

  // ---------------------------------------------------------------------------------------
  // Years
  // ---------------------------------------------------------------------------------------

  predicate IsLeap(y: int) {
    y % 4 == 0 && (y % 100 != 0 || y % 400 == 0)
  }

  function DaysInYear(y: int): int {
    if IsLeap(y) then 366 else 365
  }

  /** The day number of January 1st of year `y` (ECMAScript's DayFromYear). */
  function DayFromYear(y: int): int {
    365 * (y - 1970) + (y - 1969) / 4 - (y - 1901) / 100 + (y - 1601) / 400
  }

  /** Each term of `DayFromYear` grows by one exactly when `y` is a multiple of its divisor. */
  lemma Step4(y: int)
    ensures (y - 1968) / 4 == (y - 1969) / 4 + (if y % 4 == 0 then 1 else 0)
  {
    var q, r := y / 4, y % 4;
    assert y == 4 * q + r && 0 <= r < 4;
    assert y - 1968 == 4 * (q - 492) + r;
    if r == 0 {
      assert y - 1969 == 4 * (q - 493) + 3;
    } else {
      assert y - 1969 == 4 * (q - 492) + (r - 1);
    }
  }

  lemma Step100(y: int)
    ensures (y - 1900) / 100 == (y - 1901) / 100 + (if y % 100 == 0 then 1 else 0)
  {
    var q, r := y / 100, y % 100;
    assert y == 100 * q + r && 0 <= r < 100;
    assert y - 1900 == 100 * (q - 19) + r;
    if r == 0 {
      assert y - 1901 == 100 * (q - 20) + 99;
    } else {
      assert y - 1901 == 100 * (q - 19) + (r - 1);
    }
  }

  lemma Step400(y: int)
    ensures (y - 1600) / 400 == (y - 1601) / 400 + (if y % 400 == 0 then 1 else 0)
  {
    var q, r := y / 400, y % 400;
    assert y == 400 * q + r && 0 <= r < 400;
    assert y - 1600 == 400 * (q - 4) + r;
    if r == 0 {
      assert y - 1601 == 400 * (q - 5) + 399;
    } else {
      assert y - 1601 == 400 * (q - 4) + (r - 1);
    }
  }

  /** A multiple of 400 is one of 100, and a multiple of 100 is one of 4. */
  lemma MultiplesNest(y: int)
    ensures y % 400 == 0 ==> y % 100 == 0
    ensures y % 100 == 0 ==> y % 4 == 0
  {
    var q := y / 400;
    assert y == 400 * q + y % 400;
    var p := y / 100;
    assert y == 100 * p + y % 100;
    if y % 400 == 0 {
      assert y == 100 * (4 * q);
    }
    if y % 100 == 0 {
      assert y == 4 * (25 * p);
    }
  }

  lemma {:induction false} YearLength(y: int)
    ensures DayFromYear(y + 1) == DayFromYear(y) + DaysInYear(y)
  {
    Step4(y);
    Step100(y);
    Step400(y);
    MultiplesNest(y);
  }

  lemma {:induction false} DayFromYearMonotone(a: int, b: int)
    requires a <= b
    ensures DayFromYear(a) <= DayFromYear(b)
    decreases b - a
  {
    if a < b {
      YearLength(a);
      DayFromYearMonotone(a + 1, b);
    }
  }

  // ---------------------------------------------------------------------------------------
  // Months
  // ---------------------------------------------------------------------------------------

  function DaysInMonth(y: int, m: int): int
    requires 1 <= m <= 12
  {
    if m == 2 then (if IsLeap(y) then 29 else 28)
    else if m == 4 || m == 6 || m == 9 || m == 11 then 30
    else 31
  }

  /** Days of year `y` before the first of month `m`. */
  function DaysBeforeMonth(y: int, m: int): (r: int)
    requires 1 <= m <= 12
    ensures 0 <= r
  {
    if m == 1 then 0 else DaysBeforeMonth(y, m - 1) + DaysInMonth(y, m - 1)
  }

  /** The twelve months make up the year. */
  lemma MonthsFillYear(y: int)
    ensures DaysBeforeMonth(y, 12) + DaysInMonth(y, 12) == DaysInYear(y)
  {
    var leap := if IsLeap(y) then 1 else 0;
    assert DaysBeforeMonth(y, 2) == 31;
    assert DaysBeforeMonth(y, 3) == 59 + leap;
    assert DaysBeforeMonth(y, 4) == 90 + leap;
    assert DaysBeforeMonth(y, 5) == 120 + leap;
    assert DaysBeforeMonth(y, 6) == 151 + leap;
    assert DaysBeforeMonth(y, 7) == 181 + leap;
    assert DaysBeforeMonth(y, 8) == 212 + leap;
    assert DaysBeforeMonth(y, 9) == 243 + leap;
    assert DaysBeforeMonth(y, 10) == 273 + leap;
    assert DaysBeforeMonth(y, 11) == 304 + leap;
    assert DaysBeforeMonth(y, 12) == 334 + leap;
  }

  /** Each month starts where the previous one ends. */
  lemma MonthStep(y: int, m: int)
    requires 1 <= m < 12
    ensures DaysBeforeMonth(y, m + 1) == DaysBeforeMonth(y, m) + DaysInMonth(y, m)
  {
  }

  // ---------------------------------------------------------------------------------------
  // Civil dates and day numbers
  // ---------------------------------------------------------------------------------------

  /** A calendar date; `month` runs 1..12 as written in date strings. */
  datatype Civil = Civil(year: int, month: int, day: int)

  predicate ValidCivil(c: Civil) {
    1 <= c.month <= 12 && 1 <= c.day <= DaysInMonth(c.year, c.month)
  }

  function DaysFromCivil(c: Civil): int
    requires 1 <= c.month <= 12
  {
    DayFromYear(c.year) + DaysBeforeMonth(c.year, c.month) + c.day - 1
  }

  /**
   * ECMAScript's MakeDay for integer arguments: a month outside 0..11 carries into the year
   * and a day outside the month carries into the following or previous months.
   */
  function MakeDay(year: int, month0: int, day: int): int {
    DaysFromCivil(Civil(year + month0 / 12, month0 % 12 + 1, 1)) + day - 1
  }

  /** `Date.UTC` and the `Date` constructor read a year 0..99 as 1900..1999. */
  function MakeFullYear(y: int): int {
    if 0 <= y <= 99 then 1900 + y else y
  }

  /**
   * `Date.UTC(year, month0, day, hour, minute)`, and `new Date(year, month0, day, hour,
   * minute)` with local time equal to UTC, for integer arguments.
   */
  function UtcInstant(year: int, month0: int, day: int, hour: int, minute: int): Instant {
    MakeDay(MakeFullYear(year), month0, day) * MsPerDay + hour * MsPerHour + minute * MsPerMinute
  }

  /** For a real date outside years 0..99, `Date.UTC` lands on that date's day number. */
  lemma UtcInstantOfCivil(c: Civil, z: int, hour: int, minute: int)
    requires ValidCivil(c) && !(0 <= c.year <= 99) && z == DaysFromCivil(c)
    ensures UtcInstant(c.year, c.month - 1, c.day, hour, minute)
         == z * MsPerDay + hour * MsPerHour + minute * MsPerMinute
  {
    assert (c.month - 1) / 12 == 0 && (c.month - 1) % 12 == c.month - 1;
  }

  /** The year containing day `z`, searching upward from year `y`. */
  function YearUp(z: int, y: int): (r: int)
    requires DayFromYear(y) <= z
    ensures y <= r && DayFromYear(r) <= z < DayFromYear(r + 1)
    decreases z - DayFromYear(y)
  {
    YearLength(y);
    if z < DayFromYear(y + 1) then y else YearUp(z, y + 1)
  }

  /** The year containing day `z`, searching downward from year `y`. */
  function YearDown(z: int, y: int): (r: int)
    requires z < DayFromYear(y + 1)
    ensures r <= y && DayFromYear(r) <= z < DayFromYear(r + 1)
    decreases DayFromYear(y + 1) - z
  {
    YearLength(y);
    if DayFromYear(y) <= z then y else YearDown(z, y - 1)
  }

  /** The year containing day `z`: the one whose first day is at or before `z` and whose successor's is after. */
  function YearOfDay(z: int): (r: int)
    ensures DayFromYear(r) <= z < DayFromYear(r + 1)
  {
    if 0 <= z then YearUp(z, 1970) else YearDown(z, 1969)
  }

  /** The month of year `y` containing day-of-year `doy`, searching from month `m`. */
  function MonthOfYearDay(y: int, doy: int, m: int): (r: int)
    requires 0 <= doy < DaysInYear(y) && 1 <= m <= 12 && DaysBeforeMonth(y, m) <= doy
    ensures m <= r <= 12 && DaysBeforeMonth(y, r) <= doy < DaysBeforeMonth(y, r) + DaysInMonth(y, r)
    decreases 12 - m
  {
    if m == 12 then
      MonthsFillYear(y);
      m
    else if doy < DaysBeforeMonth(y, m) + DaysInMonth(y, m) then m
    else
      MonthStep(y, m);
      MonthOfYearDay(y, doy, m + 1)
  }

  /** The calendar date of day number `z`. */
  function CivilFromDays(z: int): (c: Civil)
    ensures ValidCivil(c) && DaysFromCivil(c) == z
  {
    var y := YearOfDay(z);
    YearLength(y);
    var doy := z - DayFromYear(y);
    var m := MonthOfYearDay(y, doy, 1);
    Civil(y, m, doy - DaysBeforeMonth(y, m) + 1)
  }

  /**
   * The calendar is a bijection: a valid date and the date of its day number coincide, and
   * a day number is the day number of its date.
   */
  lemma CivilRoundTrip(c: Civil)
    requires ValidCivil(c)
    ensures CivilFromDays(DaysFromCivil(c)) == c
  {
    DaysFromCivilInjective(CivilFromDays(DaysFromCivil(c)), c);
  }

  /** Distinct valid dates have distinct day numbers. */
  lemma DaysFromCivilInjective(a: Civil, b: Civil)
    requires ValidCivil(a) && ValidCivil(b) && DaysFromCivil(a) == DaysFromCivil(b)
    ensures a == b
  {
    SameYear(a, b);
    if a.month < b.month {
      MonthsAreOrdered(a.year, a.month, b.month);
    } else if a.month > b.month {
      MonthsAreOrdered(a.year, b.month, a.month);
    }
  }

  /** Two valid dates on the same day number are in the same year. */
  lemma SameYear(a: Civil, b: Civil)
    requires ValidCivil(a) && ValidCivil(b) && DaysFromCivil(a) == DaysFromCivil(b)
    ensures a.year == b.year
  {
    InYear(a);
    InYear(b);
    OneYearPerDay(a.year, b.year, DaysFromCivil(a));
  }

  /** Years do not overlap: a day lies in one year only. */
  lemma OneYearPerDay(y1: int, y2: int, z: int)
    requires DayFromYear(y1) <= z < DayFromYear(y1 + 1)
    requires DayFromYear(y2) <= z < DayFromYear(y2 + 1)
    ensures y1 == y2
  {
    if y1 < y2 {
      DayFromYearMonotone(y1 + 1, y2);
    } else if y1 > y2 {
      DayFromYearMonotone(y2 + 1, y1);
    }
  }

  /** A valid date's day number lies within its year. */
  lemma InYear(c: Civil)
    requires ValidCivil(c)
    ensures DayFromYear(c.year) <= DaysFromCivil(c) < DayFromYear(c.year + 1)
  {
    YearLength(c.year);
    MonthsFillYear(c.year);
    if c.month < 12 {
      MonthsAreOrdered(c.year, c.month, 12);
    }
  }

  /** A later month starts after the whole of an earlier one. */
  lemma {:induction false} MonthsAreOrdered(y: int, a: int, b: int)
    requires 1 <= a < b <= 12
    ensures DaysBeforeMonth(y, a) + DaysInMonth(y, a) <= DaysBeforeMonth(y, b)
    decreases b - a
  {
    MonthStep(y, a);
    if a + 1 < b {
      MonthStep(y, a + 1);
      MonthsAreOrdered(y, a + 1, b);
    }
  }

  /** The year of day `z` is at least `y` exactly when `z` is on or after January 1st of `y`. */
  lemma YearOfDayAtLeast(z: int, y: int)
    ensures YearOfDay(z) >= y <==> z >= DayFromYear(y)
  {
    var r := YearOfDay(z);
    if r >= y {
      DayFromYearMonotone(y, r);
    } else {
      DayFromYearMonotone(r + 1, y);
    }
  }

  // ---------------------------------------------------------------------------------------
  // Days of the week
  // ---------------------------------------------------------------------------------------

  /** JavaScript's `getDay()`: 0 is Sunday; 1970-01-01 was a Thursday (4). */
  function JsDay(z: int): (r: int)
    ensures 0 <= r < 7
  {
    (z + 4) % 7
  }

  /** Python's `weekday()`: 0 is Monday; 1970-01-01 was a Thursday (3). */
  function PyWeekday(z: int): (r: int)
    ensures 0 <= r < 7
  {
    (z + 3) % 7
  }

  /** The Node test (`getDay()` is 0 or 6) and the Python test (`weekday() >= 5`) pick the same days. */
  lemma WeekendTestsAgree(z: int)
    ensures (JsDay(z) == 0 || JsDay(z) == 6) <==> PyWeekday(z) >= 5
  {
  }
}
