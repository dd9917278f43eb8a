/**
 * The local calendar under JavaScript's `Date`: instants are integer
 * milliseconds on the local wall clock, day 0 is 1970-01-01 (a Thursday), and
 * the calendar is the proleptic Gregorian one. Months are numbered 0..11 and
 * days of the week 0 (Sunday) .. 6 (Saturday), as `getMonth` and `getDay` do.
 */
module Calendar {

  const MsPerSecond: int := 1000
  const MsPerMinute: int := 60000
  const MsPerHour: int := 3600000
  const MsPerDay: int := 86400000

  /** The epoch day an instant falls on, and the time of day inside it. */
  function DayOf(t: int): int {
    t / MsPerDay
  }

  function TimeOfDay(t: int): (ms: int)
    ensures 0 <= ms < MsPerDay
    ensures DayOf(t) * MsPerDay + ms == t
  {
    t % MsPerDay
  }

  /** The first and the last millisecond of an epoch day. */
  function DayStart(day: int): int {
    day * MsPerDay
  }

  function DayEnd(day: int): int {
    day * MsPerDay + MsPerDay - 1
  }

  lemma DayOfBounds(day: int, t: int)
    ensures DayOf(t) == day <==> DayStart(day) <= t <= DayEnd(day)
  {
    var q := DayOf(t);
    assert q * MsPerDay <= t < q * MsPerDay + MsPerDay;
    if q < day {
      assert q * MsPerDay + MsPerDay <= day * MsPerDay;
    } else if q > day {
      assert day * MsPerDay + MsPerDay <= q * MsPerDay;
    }
  }

  predicate Leap(y: int) {
    y % 4 == 0 && (y % 100 != 0 || y % 400 == 0)
  }

  function DaysInYear(y: int): int {
    if Leap(y) then 366 else 365
  }

  function DaysInMonth(y: int, m: int): (n: int)
    requires 0 <= m < 12
    ensures 28 <= n <= 31
  {
    if m == 1 then (if Leap(y) then 29 else 28)
    else if m == 3 || m == 5 || m == 8 || m == 10 then 30
    else 31
  }

  /** Days of the year before the first of month `m` (`m == 12` gives the whole year). */
  function DaysBeforeMonth(y: int, m: int): int
    requires 0 <= m <= 12
  {
    [0, 31, 59, 90, 120, 151, 181, 212, 243, 273, 304, 334, 365][m]
      + (if Leap(y) && m >= 2 then 1 else 0)
  }

  lemma DaysBeforeMonthStep(y: int, m: int)
    requires 0 <= m < 12
    ensures DaysBeforeMonth(y, m + 1) == DaysBeforeMonth(y, m) + DaysInMonth(y, m)
    ensures DaysBeforeMonth(y, 0) == 0 && DaysBeforeMonth(y, 12) == DaysInYear(y)
  {
  }

  lemma DaysBeforeMonthMonotone(y: int, a: int, b: int)
    requires 0 <= a < b <= 12
    ensures DaysBeforeMonth(y, a) + DaysInMonth(y, a) <= DaysBeforeMonth(y, b)
  {
  }

  /** Epoch day of January 1 of year `y`. */
  function YearStart(y: int): int
    decreases if y >= 1970 then y - 1970 else 1970 - y
  {
    if y == 1970 then 0
    else if y > 1970 then YearStart(y - 1) + DaysInYear(y - 1)
    else YearStart(y + 1) - DaysInYear(y)
  }

  lemma YearStartStep(y: int)
    ensures YearStart(y + 1) == YearStart(y) + DaysInYear(y)
  {
  }

  lemma {:induction false} YearStartMonotone(a: int, b: int)
    requires a <= b
    ensures YearStart(a) + 365 * (b - a) <= YearStart(b)
    decreases b - a
  {
    if a < b {
      YearStartMonotone(a, b - 1);
      YearStartStep(b - 1);
    }
  }

  /** The year whose days contain epoch day `n`, searched upward from year `y`. */
  function FindYearUp(n: int, y: int): (r: int)
    requires YearStart(y) <= n
    ensures YearStart(r) <= n < YearStart(r + 1)
    decreases n - YearStart(y)
  {
    YearStartStep(y);
    if n < YearStart(y + 1) then y else FindYearUp(n, y + 1)
  }

  /** The same, searched downward from year `y`. */
  function FindYearDown(n: int, y: int): (r: int)
    requires n < YearStart(y + 1)
    ensures YearStart(r) <= n < YearStart(r + 1)
    decreases YearStart(y + 1) - n
  {
    YearStartStep(y);
    YearStartStep(y - 1);
    if YearStart(y) <= n then y else FindYearDown(n, y - 1)
  }

  /** The year of epoch day `n`. */
  function YearOf(n: int): (y: int)
    ensures YearStart(y) <= n < YearStart(y + 1)
  {
    if n >= 0 then FindYearUp(n, 1970) else FindYearDown(n, 1969)
  }

  /** The month of year `y` holding day `offset` of that year, searched downward from month `m`. */
  function FindMonth(y: int, offset: int, m: int): (r: int)
    requires 0 <= offset && 0 <= m < 12 && offset < DaysBeforeMonth(y, m + 1)
    ensures 0 <= r <= m
    ensures DaysBeforeMonth(y, r) <= offset < DaysBeforeMonth(y, r + 1)
  {
    if DaysBeforeMonth(y, m) <= offset then m else FindMonth(y, offset, m - 1)
  }

  /** A calendar date as `getFullYear`, `getMonth` and `getDate` report it. */
  datatype Civil = Civil(year: int, month: int, day: int)

  predicate ValidCivil(c: Civil) {
    0 <= c.month < 12 && 1 <= c.day <= DaysInMonth(c.year, c.month)
  }

  /** Epoch day of the first of month `m` of year `y`, for a month index in 0..11. */
  function MonthStart(y: int, m: int): int
    requires 0 <= m < 12
  {
    YearStart(y) + DaysBeforeMonth(y, m)
  }

  /**
   * Epoch day of `new Date(y, m, d)`: the month index and the day may lie
   * outside their ranges and roll over into neighbouring months and years.
   */
  function DayFromCivil(y: int, m: int, d: int): int {
    MonthStart(y + m / 12, m % 12) + d - 1
  }

  /** The calendar date of epoch day `n`; the inverse of DayFromCivil. */
  function CivilOf(n: int): (c: Civil)
    ensures ValidCivil(c)
    ensures DayFromCivil(c.year, c.month, c.day) == n
  {
    var y := YearOf(n);
    YearStartStep(y);
    DaysBeforeMonthStep(y, 11);
    var off := n - YearStart(y);
    var m := FindMonth(y, off, 11);
    DaysBeforeMonthStep(y, m);
    Civil(y, m, off - DaysBeforeMonth(y, m) + 1)
  }

  /** Every valid date is the date of exactly one epoch day. */
  lemma CivilOfDayFromCivil(c: Civil)
    requires ValidCivil(c)
    ensures CivilOf(DayFromCivil(c.year, c.month, c.day)) == c
  {
    var n := DayFromCivil(c.year, c.month, c.day);
    assert n == MonthStart(c.year, c.month) + c.day - 1;
    DaysBeforeMonthStep(c.year, c.month);
    YearOfValid(c, n);
    var off := n - YearStart(c.year);
    FindMonthOf(c.year, off, c.month);
  }

  /** The year of a valid date's epoch day is the date's year. */
  lemma YearOfValid(c: Civil, n: int)
    requires ValidCivil(c) && n == MonthStart(c.year, c.month) + c.day - 1
    ensures YearOf(n) == c.year
  {
    DaysBeforeMonthStep(c.year, c.month);
    DaysBeforeMonthMonotone(c.year, c.month, 12);
    DaysBeforeMonthStep(c.year, 11);
    YearStartStep(c.year);
    var y := YearOf(n);
    if y < c.year {
      YearStartMonotone(y + 1, c.year);
    } else if y > c.year {
      YearStartMonotone(c.year + 1, y);
    }
  }

  /** The month search finds the one month whose days hold `off`. */
  lemma FindMonthOf(y: int, off: int, m: int)
    requires 0 <= m < 12 && DaysBeforeMonth(y, m) <= off < DaysBeforeMonth(y, m + 1)
    ensures DaysBeforeMonth(y, 12) > off && FindMonth(y, off, 11) == m
  {
    DaysBeforeMonthStep(y, 11);
    if m < 11 {
      DaysBeforeMonthMonotone(y, m, 12);
    }
    var r := FindMonth(y, off, 11);
    if r < m {
      DaysBeforeMonthMonotone(y, r, m);
    } else if r > m {
      DaysBeforeMonthMonotone(y, m, r);
    }
  }

  /** Two instants lie on the same calendar date exactly when they lie on the same epoch day. */
  lemma SameCivilSameDay(a: int, b: int)
    ensures CivilOf(a) == CivilOf(b) <==> a == b
  {
  }

  /** The day of the week of an epoch day, 0 = Sunday (`Date.prototype.getDay`). */
  function DayOfWeek(n: int): (w: int)
    ensures 0 <= w < 7
  {
    (n + 4) % 7
  }

  /** Advancing the day of the month by `k` moves the epoch day by `k` (overflow rolls over). */
  lemma DayFromCivilShift(y: int, m: int, d: int, k: int)
    ensures DayFromCivil(y, m, d + k) == DayFromCivil(y, m, d) + k
  {
  }

  /** The first of the month after month `m` comes `DaysInMonth(y, m)` days after the first of `m`. */
  lemma NextMonthStart(y: int, m: int)
    requires 0 <= m < 12
    ensures DayFromCivil(y, m + 1, 1) == MonthStart(y, m) + DaysInMonth(y, m)
  {
    DaysBeforeMonthStep(y, m);
    if m == 11 {
      assert (m + 1) / 12 == 1 && (m + 1) % 12 == 0;
      YearStartStep(y);
    } else {
      assert (m + 1) / 12 == 0 && (m + 1) % 12 == m + 1;
    }
  }

  // The accessors and setters of `Date` used by the app, on local instants.

  /** `d.getDate()`, `d.getMonth()`, `d.getFullYear()` and `d.getDay()`. */
  function GetDate(t: int): int {
    CivilOf(DayOf(t)).day
  }

  function GetMonth(t: int): int {
    CivilOf(DayOf(t)).month
  }

  function GetFullYear(t: int): int {
    CivilOf(DayOf(t)).year
  }

  function GetDay(t: int): int {
    DayOfWeek(DayOf(t))
  }

  /** `d.getHours()` and `d.getMinutes()`. */
  function GetHours(t: int): (h: int)
    ensures 0 <= h < 24
  {
    TimeOfDay(t) / MsPerHour
  }

  function GetMinutes(t: int): (m: int)
    ensures 0 <= m < 60
  {
    TimeOfDay(t) % MsPerHour / MsPerMinute
  }

  /** The two-digit-year rule of `new Date(y, …)`: years 0..99 mean 1900..1999. */
  function FullYear(y: int): (r: int)
    ensures 100 <= y || y < 0 ==> r == y
    ensures 0 <= y < 100 ==> r == y + 1900
  {
    if 0 <= y <= 99 then 1900 + y else y
  }

  /** `new Date(y, m, d)`: local midnight of that (possibly rolled-over) date, years 0..99 read as 1900..1999. */
  function NewDate(y: int, m: int, d: int): int {
    DayStart(DayFromCivil(FullYear(y), m, d))
  }

  /** `d.setHours(h, mi, s, ms)`: same calendar day, new time of day. */
  function SetHours(t: int, h: int, mi: int, s: int, ms: int): int {
    DayStart(DayOf(t)) + h * MsPerHour + mi * MsPerMinute + s * MsPerSecond + ms
  }

  /** `d.setDate(n)`: day `n` of the same month, rolling over; the time of day is kept. */
  function SetDate(t: int, n: int): int {
    var c := CivilOf(DayOf(t));
    DayStart(DayFromCivil(c.year, c.month, n)) + TimeOfDay(t)
  }

  /** `d.setMonth(m)`: the same day of month `m`, rolling over; the time of day is kept. */
  function SetMonth(t: int, m: int): int {
    var c := CivilOf(DayOf(t));
    DayStart(DayFromCivil(c.year, m, c.day)) + TimeOfDay(t)
  }

  /** Setting the hours to 00:00:00.000 or 23:59:59.999 gives the first or last millisecond of the day. */
  lemma SetHoursBounds(t: int)
    ensures SetHours(t, 0, 0, 0, 0) == DayStart(DayOf(t))
    ensures SetHours(t, 23, 59, 59, 999) == DayEnd(DayOf(t))
  {
  }

  /** An instant on a day's first millisecond plus a time of day stays on that day. */
  lemma DayOfAt(day: int, ms: int)
    requires 0 <= ms < MsPerDay
    ensures DayOf(DayStart(day) + ms) == day && TimeOfDay(DayStart(day) + ms) == ms
  {
    DayOfBounds(day, DayStart(day) + ms);
  }

  /** `d.setDate(d.getDate() + k)` moves `d` by exactly `k` days. */
  lemma SetDateShift(t: int, k: int)
    ensures SetDate(t, GetDate(t) + k) == t + k * MsPerDay
  {
    var c := CivilOf(DayOf(t));
    DayFromCivilShift(c.year, c.month, c.day, k);
  }
}
