/**
 * The preset date ranges of the reports page (`handleDateRangeChange` and the
 * initial current-week range). A range is stored as the epoch days of its
 * first and last dates.
 */
module ReportRanges {
  import opened Wrappers
  import opened Calendar
  import opened DateUtils

  datatype DayRange = DayRange(startDay: int, endDay: int)

  /** `date.toISOString().split('T')[0]`, read as the date's own day. */
  function DateField(t: int): int { DayOf(t) }

  lemma DayOfDayStart(d: int, ms: int)
    requires 0 <= ms < MsPerDay
    ensures DayOf(DayStart(d) + ms) == d
  {
    DayOfAt(d, ms);
  }

  /** `setDate(getDate() + k)` followed by `setHours(...)` lands on the day `k` days away. */
  lemma ShiftedDay(now: int, k: int)
    ensures DayOf(SetHours(SetDate(now, GetDate(now) + k), 0, 0, 0, 0)) == DayOf(now) + k
    ensures DayOf(SetHours(SetDate(now, GetDate(now) + k), 23, 59, 59, 999)) == DayOf(now) + k
  {
    SetDateShift(now, k);
    var t := now + k * MsPerDay;
    assert DayOf(t) == DayOf(now) + k by {
      DayOfAt(DayOf(now) + k, TimeOfDay(now));
    }
    SetHoursBounds(t);
    DayOfDayStart(DayOf(t), 0);
    DayOfDayStart(DayOf(t), MsPerDay - 1);
  }

  lemma ShiftedDayTo(now: int, k: int, n: int)
    requires n == GetDate(now) + k
    ensures DayOf(SetHours(SetDate(now, n), 0, 0, 0, 0)) == DayOf(now) + k
    ensures DayOf(SetHours(SetDate(now, n), 23, 59, 59, 999)) == DayOf(now) + k
  {
    ShiftedDay(now, k);
  }

  /**
   * `new Date(y, m, d)` followed by `setHours(...)` stays on that (rolled-over)
   * day, of year `y` from 100 on and of year `1900 + y` for `y` in 0..99.
   */
  lemma NewDateDay(y: int, m: int, d: int)
    ensures DayOf(SetHours(NewDate(y, m, d), 0, 0, 0, 0)) == DayFromCivil(FullYear(y), m, d)
    ensures DayOf(SetHours(NewDate(y, m, d), 23, 59, 59, 999)) == DayFromCivil(FullYear(y), m, d)
  {
    DayOfDayStart(DayFromCivil(FullYear(y), m, d), 0);
    SetHoursBounds(NewDate(y, m, d));
    DayOfDayStart(DayFromCivil(FullYear(y), m, d), MsPerDay - 1);
  }

  lemma MonthEndDay(y: int, m: int)
    requires 0 <= m < 12
    ensures DayFromCivil(y, m, 1) == MonthStart(y, m)
    ensures DayFromCivil(y, m + 1, 0) == LastDayOfMonth(y, m)
  {
    NextMonthStart(y, m);
    DayFromCivilShift(y, m + 1, 0, 1);
  }

  lemma YearEndDay(y: int)
    ensures DayFromCivil(y, 0, 1) == YearStart(y)
    ensures DayFromCivil(y, 11, 31) == YearStart(y + 1) - 1
  {
    DaysBeforeMonthStep(y, 11);
    YearStartStep(y);
  }

  /** The "today" case: midnight and 23:59:59.999 of `now`'s day. */
  method TodayRange(now: int) returns (r: DayRange)
    ensures r == DayRange(DayOf(now), DayOf(now))
  {
    var start := SetHours(now, 0, 0, 0, 0);
    var end := SetHours(now, 23, 59, 59, 999);
    SetHoursBounds(now);
    DayOfDayStart(DayOf(now), 0);
    DayOfDayStart(DayOf(now), MsPerDay - 1);
    r := DayRange(DateField(start), DateField(end));
  }

  /** The "week" case: back `getDay()` days to Sunday and forward to Saturday. */
  method WeekRange(now: int) returns (r: DayRange)
    ensures r == DayRange(DayOf(now) - GetDay(now), DayOf(now) + 6 - GetDay(now))
  {
    var day := GetDay(now);
    var first, last := GetDate(now) - day, GetDate(now) + (6 - day);
    var start := SetDate(now, first);
    start := SetHours(start, 0, 0, 0, 0);
    var end := SetDate(now, last);
    end := SetHours(end, 23, 59, 59, 999);
    ShiftedDayTo(now, -day, first);
    ShiftedDayTo(now, 6 - day, last);
    r := DayRange(DateField(start), DateField(end));
  }

  /**
   * The "month" case: day 1 of this month to day 0 of the next. The year goes
   * through `new Date`, so a year in 0..99 is read as 1900..1999.
   */
  method MonthRange(now: int) returns (r: DayRange)
    ensures var y := FullYear(GetFullYear(now));
      r == DayRange(MonthStart(y, GetMonth(now)), LastDayOfMonth(y, GetMonth(now)))
    ensures 100 <= GetFullYear(now) ==>
      r == DayRange(MonthStart(GetFullYear(now), GetMonth(now)), LastDayOfMonth(GetFullYear(now), GetMonth(now)))
  {
    var y, m := GetFullYear(now), GetMonth(now);
    var start := NewDate(y, m, 1);
    start := SetHours(start, 0, 0, 0, 0);
    var end := NewDate(y, m + 1, 0);
    end := SetHours(end, 23, 59, 59, 999);
    NewDateDay(y, m, 1);
    NewDateDay(y, m + 1, 0);
    MonthEndDay(FullYear(y), m);
    r := DayRange(DateField(start), DateField(end));
  }

  /** The "year" case: January 1 to December 31 of this year (a year in 0..99 read as 1900..1999). */
  method YearRange(now: int) returns (r: DayRange)
    ensures var y := FullYear(GetFullYear(now));
      r == DayRange(YearStart(y), YearStart(y + 1) - 1)
    ensures 100 <= GetFullYear(now) ==>
      r == DayRange(YearStart(GetFullYear(now)), YearStart(GetFullYear(now) + 1) - 1)
  {
    var y := GetFullYear(now);
    var start := NewDate(y, 0, 1);
    start := SetHours(start, 0, 0, 0, 0);
    var end := NewDate(y, 11, 31);
    end := SetHours(end, 23, 59, 59, 999);
    NewDateDay(y, 0, 1);
    NewDateDay(y, 11, 31);
    YearEndDay(FullYear(y));
    r := DayRange(DateField(start), DateField(end));
  }

  /**
   * The range a preset selects, or `None` for "custom" and any other value,
   * which keep the current dates.
   */
  method RangeFor(range: string, now: int) returns (r: Option<DayRange>)
    ensures range == "today" ==> r == Some(DayRange(DayOf(now), DayOf(now)))
    ensures range == "week" ==> r == Some(DayRange(DayOf(now) - GetDay(now), DayOf(now) + 6 - GetDay(now)))
    ensures var y := FullYear(GetFullYear(now));
      range == "month" ==> r == Some(DayRange(MonthStart(y, GetMonth(now)), LastDayOfMonth(y, GetMonth(now))))
    ensures var y := FullYear(GetFullYear(now));
      range == "year" ==> r == Some(DayRange(YearStart(y), YearStart(y + 1) - 1))
    ensures range != "today" && range != "week" && range != "month" && range != "year" ==> r == None
  {
    var d;
    if range == "today" {
      d := TodayRange(now);
    } else if range == "week" {
      d := WeekRange(now);
    } else if range == "month" {
      d := MonthRange(now);
    } else if range == "year" {
      d := YearRange(now);
    } else {
      return None;
    }
    r := Some(d);
  }

  /** The week preset runs from the Sunday to the Saturday of the week that contains `now`. */
  lemma WeekRangeIsSundayToSaturday(now: int)
    ensures var first, last := DayOf(now) - GetDay(now), DayOf(now) + 6 - GetDay(now);
      DayOfWeek(first) == 0 && DayOfWeek(last) == 6 && last == first + 6 && first <= DayOf(now) <= last
  {
  }

  /** The month preset runs from the first to the last day of the month that contains `now`. */
  lemma MonthRangeContainsNow(now: int)
    ensures var c := CivilOf(DayOf(now));
      var first, last := MonthStart(c.year, c.month), LastDayOfMonth(c.year, c.month);
      first <= DayOf(now) <= last &&
      CivilOf(first) == Civil(c.year, c.month, 1) &&
      CivilOf(last) == Civil(c.year, c.month, DaysInMonth(c.year, c.month))
  {
    var c := CivilOf(DayOf(now));
    CivilOfDayFromCivil(Civil(c.year, c.month, 1));
    CivilOfDayFromCivil(Civil(c.year, c.month, DaysInMonth(c.year, c.month)));
  }

  /** The year preset runs from January 1 to December 31 of the year that contains `now`. */
  lemma YearRangeContainsNow(now: int)
    ensures var y := CivilOf(DayOf(now)).year;
      YearStart(y) <= DayOf(now) <= YearStart(y + 1) - 1
  {
    var c := CivilOf(DayOf(now));
    DaysBeforeMonthMonotone(c.year, c.month, 12);
    DaysBeforeMonthStep(c.year, 11);
    YearStartStep(c.year);
  }
}
