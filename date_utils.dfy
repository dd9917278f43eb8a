/**
 * The date helpers: duration and relative-time formatting on integers, and the
 * day, week and month bounds of a local instant.
 */
module DateUtils {
  import opened Numerals
  import opened Calendar

  /** `formatDuration(minutes)`: "Xm" under an hour, else "Xh Ym" with "Ym" dropped on whole hours. */
  function FormatDuration(minutes: int): (r: string)
    ensures 0 <= minutes < 60 ==> r == NatToString(minutes) + "m"
    ensures minutes >= 60 && minutes % 60 == 0 ==> r == NatToString(minutes / 60) + "h "
    ensures minutes >= 60 && minutes % 60 != 0 ==>
              r == NatToString(minutes / 60) + "h " + NatToString(minutes % 60) + "m"
  {
    var hours := FloorDiv(minutes, 60);
    var mins := JsRem(minutes, 60);
    if hours == 0 then IntToString(mins) + "m"
    else IntToString(hours) + "h " + (if mins > 0 then IntToString(mins) + "m" else "")
  }

  /** Different non-negative durations never share a label. */
  lemma FormatDurationInjective(a: int, b: int)
    requires a >= 0 && b >= 0
    requires FormatDuration(a) == FormatDuration(b)
    ensures a == b
  {
    if a < 60 && b < 60 {
      DigitsPrefixUnique(NatToString(a), "m", NatToString(b), "m");
      NatToStringInjective(a, b);
    } else if a < 60 {
      assert FormatDuration(b) == HoursLabel(b / 60, b % 60);
      MinutesLabelNotHours(a, b / 60, b % 60);
    } else if b < 60 {
      assert FormatDuration(a) == HoursLabel(a / 60, a % 60);
      MinutesLabelNotHours(b, a / 60, a % 60);
    } else {
      assert FormatDuration(a) == HoursLabel(a / 60, a % 60);
      assert FormatDuration(b) == HoursLabel(b / 60, b % 60);
      HoursLabelInjective(a / 60, a % 60, b / 60, b % 60);
    }
  }

  /** The label of a duration of at least an hour, from its hours and remaining minutes. */
  function HoursLabel(h: nat, m: nat): string {
    NatToString(h) + "h " + if m == 0 then "" else NatToString(m) + "m"
  }

  lemma MinutesLabelNotHours(m: nat, h: nat, r: nat)
    ensures NatToString(m) + "m" != HoursLabel(h, r)
  {
    var tail := "h " + if r == 0 then "" else NatToString(r) + "m";
    assert HoursLabel(h, r) == NatToString(h) + tail;
    if NatToString(m) + "m" == NatToString(h) + tail {
      DigitsPrefixUnique(NatToString(m), "m", NatToString(h), tail);
    }
  }

  lemma HoursLabelInjective(h1: nat, m1: nat, h2: nat, m2: nat)
    requires HoursLabel(h1, m1) == HoursLabel(h2, m2)
    ensures h1 == h2 && m1 == m2
  {
    var t1 := "h " + if m1 == 0 then "" else NatToString(m1) + "m";
    var t2 := "h " + if m2 == 0 then "" else NatToString(m2) + "m";
    assert HoursLabel(h1, m1) == NatToString(h1) + t1 && HoursLabel(h2, m2) == NatToString(h2) + t2;
    DigitsPrefixUnique(NatToString(h1), t1, NatToString(h2), t2);
    NatToStringInjective(h1, h2);
    if m1 != 0 && m2 != 0 {
      assert t1[2..] == NatToString(m1) + "m" && t2[2..] == NatToString(m2) + "m";
      DigitsPrefixUnique(NatToString(m1), "m", NatToString(m2), "m");
      NatToStringInjective(m1, m2);
    }
  }


  datatype TimeUnit = Minute | Hour | Day | Month | Year

  /** What `formatDistanceToNow` says: "just now", or a count of one unit ago. */
  datatype Distance = JustNow | Ago(count: int, unit: TimeUnit)

  /** The threshold ladder on the millisecond difference `now - then`. */
  function DistanceOf(diffMs: int): Distance {
    var diffSec := FloorDiv(diffMs, 1000);
    if diffSec < 60 then JustNow
    else
      var diffMin := FloorDiv(diffSec, 60);
      if diffMin < 60 then Ago(diffMin, Minute)
      else
        var diffHour := FloorDiv(diffMin, 60);
        if diffHour < 24 then Ago(diffHour, Hour)
        else
          var diffDay := FloorDiv(diffHour, 24);
          if diffDay < 30 then Ago(diffDay, Day)
          else
            var diffMonth := FloorDiv(diffDay, 30);
            if diffMonth < 12 then Ago(diffMonth, Month)
            else Ago(FloorDiv(diffMonth, 12), Year)
  }

  /** Milliseconds in one unit: a month is 30 days and a year 12 such months. */
  function UnitMs(u: TimeUnit): int {
    match u
    case Minute => MsPerMinute
    case Hour => MsPerHour
    case Day => MsPerDay
    case Month => 30 * MsPerDay
    case Year => 360 * MsPerDay
  }

  /**
   * The ladder picks exactly one unit by the size of the difference (future
   * instants, with a negative difference, are "just now"), and its count is the
   * whole number of those units in the difference, never zero.
   */
  lemma DistanceLadder(diffMs: int)
    ensures DistanceOf(diffMs) == JustNow <==> diffMs < MsPerMinute
    ensures DistanceOf(diffMs).Ago? ==>
      DistanceOf(diffMs).count == diffMs / UnitMs(DistanceOf(diffMs).unit) >= 1
    ensures DistanceOf(diffMs) == Ago(diffMs / MsPerMinute, Minute) <==> MsPerMinute <= diffMs < MsPerHour
    ensures DistanceOf(diffMs) == Ago(diffMs / MsPerHour, Hour) <==> MsPerHour <= diffMs < MsPerDay
    ensures DistanceOf(diffMs) == Ago(diffMs / MsPerDay, Day) <==> MsPerDay <= diffMs < 30 * MsPerDay
    ensures (DistanceOf(diffMs) == Ago(diffMs / (30 * MsPerDay), Month)) <==>
              (30 * MsPerDay <= diffMs < 360 * MsPerDay)
    ensures DistanceOf(diffMs) == Ago(diffMs / (360 * MsPerDay), Year) <==> 360 * MsPerDay <= diffMs
  {
    var sec := diffMs / 1000;
    var min := sec / 60;
    var hour := min / 60;
    var day := hour / 24;
    var month := day / 30;
    assert min == diffMs / 60000;
    assert hour == diffMs / 3600000;
    assert day == diffMs / 86400000;
    assert month == diffMs / (30 * 86400000);
    assert month / 12 == diffMs / (360 * 86400000);
  }

  function UnitName(u: TimeUnit): string {
    match u
    case Minute => "minute"
    case Hour => "hour"
    case Day => "day"
    case Month => "month"
    case Year => "year"
  }

  /** The English text: the unit takes a plural "s" unless the count is exactly 1. */
  function Render(d: Distance): (s: string)
    ensures d.JustNow? <==> s == "just now"
  {
    match d
    case JustNow => "just now"
    case Ago(n, u) =>
      var text := IntToString(n) + " " + UnitName(u) + (if n != 1 then "s" else "") + " ago";
      assert text[0] == IntToString(n)[0];
      text
  }

  /** The unit's own text and the plural "s" added exactly when the count is not 1. */
  function Tail(n: int, u: TimeUnit): string {
    " " + UnitName(u) + (if n != 1 then "s" else "") + " ago"
  }

  /**
   * The wording of an `Ago` result: the count's numeral, a space and the unit's
   * name, then "s ago" exactly when the count is not 1 (" ago" alone otherwise).
   */
  lemma RenderAgo(n: nat, u: TimeUnit)
    ensures var s, head := Render(Ago(n, u)), NatToString(n) + " " + UnitName(u);
      |head| < |s| && s[..|head|] == head && !IsDigit(s[|NatToString(n)|])
      && (n != 1 <==> s[|head|..] == "s ago")
      && (n == 1 <==> s[|head|..] == " ago")
  {
    var s, head := Render(Ago(n, u)), NatToString(n) + " " + UnitName(u);
    var rest := if n != 1 then "s ago" else " ago";
    RenderParts(n, u);
    assert Tail(n, u) == " " + UnitName(u) + rest;
    SpacedSplit(s, NatToString(n), UnitName(u), rest);
  }

  /** Cutting `num + " " + name + rest` after the name gives back both parts. */
  lemma SpacedSplit(s: string, num: string, name: string, rest: string)
    requires s == num + (" " + name + rest)
    ensures s[..|num + " " + name|] == num + " " + name
    ensures s[|num + " " + name|..] == rest && s[|num|] == ' '
  {
    assert s == (num + " " + name) + rest;
  }

  /** Two distances with non-negative counts that render alike are the same distance. */
  lemma RenderInjective(d1: Distance, d2: Distance)
    requires d1.Ago? ==> d1.count >= 0
    requires d2.Ago? ==> d2.count >= 0
    requires Render(d1) == Render(d2)
    ensures d1 == d2
  {
    if d1.Ago? && d2.Ago? {
      var n1, u1, n2, u2 := d1.count, d1.unit, d2.count, d2.unit;
      RenderParts(n1, u1);
      RenderParts(n2, u2);
      DigitsPrefixUnique(NatToString(n1), Tail(n1, u1), NatToString(n2), Tail(n2, u2));
      NatToStringInjective(n1, n2);
      TailInjective(n1, u1, u2);
    }
  }

  lemma RenderParts(n: nat, u: TimeUnit)
    ensures Render(Ago(n, u)) == NatToString(n) + Tail(n, u)
  {
  }

  lemma TailInjective(n: int, u1: TimeUnit, u2: TimeUnit)
    requires Tail(n, u1) == Tail(n, u2)
    ensures u1 == u2
  {
    var rest := (if n != 1 then "s" else "") + " ago";
    assert Tail(n, u1) == " " + UnitName(u1) + rest;
    assert Tail(n, u2) == " " + UnitName(u2) + rest;
    UnitNameInjective(u1, u2, rest);
  }

  lemma UnitNameInjective(u1: TimeUnit, u2: TimeUnit, rest: string)
    requires " " + UnitName(u1) + rest == " " + UnitName(u2) + rest
    ensures u1 == u2
  {
    assert UnitName(u1) == (" " + UnitName(u1) + rest)[1..1 + |UnitName(u1)|];
    if |UnitName(u1)| == |UnitName(u2)| {
      assert UnitName(u2) == (" " + UnitName(u2) + rest)[1..1 + |UnitName(u2)|];
    }
  }

  /** `formatDistanceToNow(date)` read at instant `now`. */
  function FormatDistanceToNow(now: int, date: int): (s: string)
    ensures s == "just now" <==> now - date < MsPerMinute
  {
    DistanceLadder(now - date);
    Render(DistanceOf(now - date))
  }

  /** A pair of instants bounding a period: `{ start, end }`. */
  datatype Bounds = Bounds(start: int, end: int)

  /** `getDayBounds(date)`: the first and last millisecond of the day of `date`. */
  method GetDayBounds(date: int) returns (b: Bounds)
    ensures b.start == DayStart(DayOf(date)) && b.end == DayEnd(DayOf(date))
    ensures b.start <= date <= b.end
    ensures DayOf(b.start) == DayOf(date) && DayOf(b.end) == DayOf(date)
  {
    var start := date;
    start := SetHours(start, 0, 0, 0, 0);
    var end := date;
    end := SetHours(end, 23, 59, 59, 999);
    b := Bounds(start, end);
    SetHoursBounds(date);
    DayOfBounds(DayOf(date), date);
    DayOfAt(DayOf(date), 0);
    DayOfAt(DayOf(date), MsPerDay - 1);
  }

  /**
   * `getWeekBounds(date)`: the week from Monday 00:00:00.000 to Sunday
   * 23:59:59.999 that holds `date`; a Sunday belongs to the week that began six
   * days before it.
   */
  method GetWeekBounds(date: int) returns (b: Bounds)
    ensures GetDay(b.start) == 1 && b.start == DayStart(DayOf(b.start))
    ensures DayOf(b.start) == DayOf(date) - (if GetDay(date) == 0 then 6 else GetDay(date) - 1)
    ensures DayOf(b.end) == DayOf(b.start) + 6 && b.end == DayEnd(DayOf(b.end))
    ensures b.start <= date <= b.end
  {
    var start := date;
    var day := GetDay(start);
    var diff := GetDate(start) - day + (if day == 0 then -6 else 1);
    start := SetDate(start, diff);
    start := SetHours(start, 0, 0, 0, 0);
    WeekStartProof(date, diff);
    var end := start;
    end := SetDate(end, GetDate(end) + 6);
    end := SetHours(end, 23, 59, 59, 999);
    WeekEndProof(start, WeekMonday(date));
    b := Bounds(start, end);
    WeekContainsDate(date);
  }

  /** Monday of the week of `date`, as an epoch day. */
  function WeekMonday(date: int): int {
    DayOf(date) - (if GetDay(date) == 0 then 6 else GetDay(date) - 1)
  }

  lemma WeekStartProof(date: int, diff: int)
    requires diff == GetDate(date) - GetDay(date) + (if GetDay(date) == 0 then -6 else 1)
    ensures SetHours(SetDate(date, diff), 0, 0, 0, 0) == DayStart(WeekMonday(date))
  {
    var back := if GetDay(date) == 0 then 6 else GetDay(date) - 1;
    assert diff == GetDate(date) - back;
    StepBackDays(date, back, diff);
  }

  /** `setDate(getDate() - back)` then `setHours(0, 0, 0, 0)`: the start of the day `back` days earlier. */
  lemma StepBackDays(date: int, back: int, diff: int)
    requires diff == GetDate(date) - back
    ensures SetHours(SetDate(date, diff), 0, 0, 0, 0) == DayStart(DayOf(date) - back)
  {
    var n := DayOf(date);
    var c := CivilOf(n);
    MidnightDaysBefore(date, n, c, diff, back, TimeOfDay(date));
  }

  lemma MidnightDaysBefore(t: int, n: int, c: Civil, diff: int, back: int, tod: int)
    requires DayOf(t) == n && CivilOf(n) == c && TimeOfDay(t) == tod && 0 <= tod < MsPerDay
    requires DayFromCivil(c.year, c.month, c.day) == n && diff == c.day - back
    ensures SetHours(SetDate(t, diff), 0, 0, 0, 0) == DayStart(n - back)
  {
    SetDateOn(t, c, diff);
    DayFromCivilShift(c.year, c.month, c.day, -back);
    DayOfAt(n - back, tod);
    SetHoursBounds(SetDate(t, diff));
  }

  lemma WeekEndProof(start: int, monday: int)
    requires start == DayStart(monday)
    ensures DayOf(start) == monday
    ensures SetHours(SetDate(start, GetDate(start) + 6), 23, 59, 59, 999) == DayEnd(monday + 6)
    ensures DayOf(DayEnd(monday + 6)) == monday + 6
  {
    DayOfAt(monday, 0);
    SetDateShift(start, 6);
    DayOfAt(monday + 6, 0);
    SetHoursBounds(start + 6 * MsPerDay);
    DayOfAt(monday + 6, MsPerDay - 1);
  }

  lemma WeekContainsDate(date: int)
    ensures DayOfWeek(WeekMonday(date)) == 1
    ensures DayStart(WeekMonday(date)) <= date <= DayEnd(WeekMonday(date) + 6)
  {
    DayOfBounds(DayOf(date), date);
  }

  /** The last day of month `m` of year `y`. */
  function LastDayOfMonth(y: int, m: int): int
    requires 0 <= m < 12
  {
    MonthStart(y, m) + DaysInMonth(y, m) - 1
  }

  /** Year and month index of the month after month `m` of year `y`. */
  function NextYear(y: int, m: int): int { y + (m + 1) / 12 }
  function NextMonth(m: int): int { (m + 1) % 12 }

  /**
   * `getMonthBounds(date)` as written: the start is the first of the month at
   * 00:00:00.000, but the end is found by moving `date` itself into the next
   * month and stepping back to day 0. When the day of the month of `date` is
   * larger than the next month's length, that move rolls over into the month
   * after, and the end lands on the last day of the NEXT month.
   */
  method GetMonthBounds(date: int) returns (b: Bounds)
    ensures var c := CivilOf(DayOf(date));
      b.start == DayStart(MonthStart(c.year, c.month))
    ensures var c := CivilOf(DayOf(date));
      c.day <= DaysInMonth(NextYear(c.year, c.month), NextMonth(c.month))
      ==> b.end == DayEnd(LastDayOfMonth(c.year, c.month))
    ensures var c := CivilOf(DayOf(date));
      c.day > DaysInMonth(NextYear(c.year, c.month), NextMonth(c.month))
      ==> b.end == DayEnd(LastDayOfMonth(NextYear(c.year, c.month), NextMonth(c.month)))
  {
    var start := date;
    start := SetDate(start, 1);
    start := SetHours(start, 0, 0, 0, 0);
    var end := date;
    end := SetMonth(end, GetMonth(end) + 1);
    end := SetDate(end, 0);
    end := SetHours(end, 23, 59, 59, 999);
    b := Bounds(start, end);
    MonthBoundsProof(date);
  }

  lemma MonthBoundsProof(date: int)
    ensures var c := CivilOf(DayOf(date));
      SetHours(SetDate(date, 1), 0, 0, 0, 0) == DayStart(MonthStart(c.year, c.month))
    ensures var c := CivilOf(DayOf(date));
      var e := SetHours(SetDate(SetMonth(date, GetMonth(date) + 1), 0), 23, 59, 59, 999);
      (c.day <= DaysInMonth(NextYear(c.year, c.month), NextMonth(c.month)) ==>
        e == DayEnd(LastDayOfMonth(c.year, c.month)))
      && (c.day > DaysInMonth(NextYear(c.year, c.month), NextMonth(c.month)) ==>
        e == DayEnd(LastDayOfMonth(NextYear(c.year, c.month), NextMonth(c.month))))
  {
    MonthStartProof(date);
    var c := CivilOf(DayOf(date));
    var tod := TimeOfDay(date);
    var y1, m1 := NextYear(c.year, c.month), NextMonth(c.month);
    assert SetMonth(date, GetMonth(date) + 1) == DayStart(DayFromCivil(c.year, c.month + 1, c.day)) + tod;
    var e1 := SetMonth(date, GetMonth(date) + 1);
    if c.day <= DaysInMonth(y1, m1) {
      LandInNextMonth(c.year, c.month, c.day);
      StepBackToDayZero(e1, y1, m1, c.day, tod);
    } else {
      LandAfterNextMonth(c.year, c.month, c.day);
      StepBackToDayZero(e1, NextYear(y1, m1), NextMonth(m1), c.day - DaysInMonth(y1, m1), tod);
    }
  }

  /** Day `d` of the month after `m`, when the next month has that many days. */
  lemma LandInNextMonth(y: int, m: int, d: int)
    requires 0 <= m < 12 && 1 <= d <= DaysInMonth(NextYear(y, m), NextMonth(m))
    ensures ValidCivil(Civil(NextYear(y, m), NextMonth(m), d))
    ensures DayFromCivil(y, m + 1, d) == DayFromCivil(NextYear(y, m), NextMonth(m), d)
    ensures MonthStart(NextYear(y, m), NextMonth(m)) - 1 == LastDayOfMonth(y, m)
  {
    NextMonthStart(y, m);
    if m == 11 {
      assert NextYear(y, m) == y + 1 && NextMonth(m) == 0;
    } else {
      assert NextYear(y, m) == y && NextMonth(m) == m + 1;
    }
  }

  /** Day `d` of the month after `m` rolls over into the month after that when `d` exceeds its length. */
  lemma LandAfterNextMonth(y: int, m: int, d: int)
    requires 0 <= m < 12 && DaysInMonth(NextYear(y, m), NextMonth(m)) < d <= 31
    ensures var y1, m1 := NextYear(y, m), NextMonth(m);
      ValidCivil(Civil(NextYear(y1, m1), NextMonth(m1), d - DaysInMonth(y1, m1)))
      && DayFromCivil(y, m + 1, d) == DayFromCivil(NextYear(y1, m1), NextMonth(m1), d - DaysInMonth(y1, m1))
      && MonthStart(NextYear(y1, m1), NextMonth(m1)) - 1 == LastDayOfMonth(y1, m1)
  {
    var y1, m1 := NextYear(y, m), NextMonth(m);
    assert DayFromCivil(y, m + 1, d) == MonthStart(y1, m1) + d - 1;
    NextMonthStart(y1, m1);
  }

  lemma MonthStartProof(date: int)
    ensures var c := CivilOf(DayOf(date));
      SetHours(SetDate(date, 1), 0, 0, 0, 0) == DayStart(MonthStart(c.year, c.month))
  {
    var c := CivilOf(DayOf(date));
    assert DayFromCivil(c.year, c.month, 1) == MonthStart(c.year, c.month);
    DayOfAt(MonthStart(c.year, c.month), TimeOfDay(date));
    SetHoursBounds(SetDate(date, 1));
  }

  /** `setDate(n)` read off the date the instant already lies on. */
  lemma SetDateOn(t: int, c: Civil, n: int)
    requires CivilOf(DayOf(t)) == c
    ensures SetDate(t, n) == DayStart(DayFromCivil(c.year, c.month, n)) + TimeOfDay(t)
  {
  }

  lemma DayZeroEnd(t: int, n: int, c: Civil, last: int, tod: int)
    requires DayOf(t) == n && CivilOf(n) == c && TimeOfDay(t) == tod && 0 <= tod < MsPerDay
    requires DayFromCivil(c.year, c.month, 0) == last
    ensures SetHours(SetDate(t, 0), 23, 59, 59, 999) == DayEnd(last)
  {
    SetDateOn(t, c, 0);
    DayOfAt(last, tod);
    SetHoursBounds(SetDate(t, 0));
  }

  /** From a valid date, `setDate(0)` then `setHours(23, 59, 59, 999)` reaches the end of the previous month's last day. */
  lemma StepBackToDayZero(t: int, y: int, m: int, d: int, tod: int)
    requires ValidCivil(Civil(y, m, d)) && 0 <= tod < MsPerDay
    requires t == DayStart(DayFromCivil(y, m, d)) + tod
    ensures SetHours(SetDate(t, 0), 23, 59, 59, 999) == DayEnd(MonthStart(y, m) - 1)
  {
    var n := DayFromCivil(y, m, d);
    DayOfAt(n, tod);
    CivilOfDayFromCivil(Civil(y, m, d));
    assert DayFromCivil(y, m, 0) == MonthStart(y, m) - 1;
    DayZeroEnd(t, n, Civil(y, m, d), MonthStart(y, m) - 1, tod);
  }

  /**
   * The corrected month bounds: the end is found by the same steps as in
   * `GetMonthBounds`, but from the first of the month rather than from `date`
   * itself. Day 1 fits into every month, so the move to the next month never
   * rolls over and day 0 of it is always the last day of the month of `date`.
   */
  method GetMonthBoundsCorrected(date: int) returns (b: Bounds)
    ensures var c := CivilOf(DayOf(date));
      b.start == DayStart(MonthStart(c.year, c.month))
      && b.end == DayEnd(LastDayOfMonth(c.year, c.month))
    ensures b.start <= date <= b.end
  {
    var start := date;
    start := SetDate(start, 1);
    start := SetHours(start, 0, 0, 0, 0);
    var end := start;
    end := SetMonth(end, GetMonth(end) + 1);
    end := SetDate(end, 0);
    end := SetHours(end, 23, 59, 59, 999);
    b := Bounds(start, end);
    MonthStartProof(date);
    var c := CivilOf(DayOf(date));
    FirstOfMonthEnd(start, c.year, c.month);
    DateInMonth(date, c);
  }

  /** From the first of a month, `setMonth(getMonth() + 1)`, `setDate(0)` and `setHours(23, 59, 59, 999)` reach the end of that month. */
  lemma FirstOfMonthEnd(s: int, y: int, m: int)
    requires 0 <= m < 12 && s == DayStart(MonthStart(y, m))
    ensures SetHours(SetDate(SetMonth(s, GetMonth(s) + 1), 0), 23, 59, 59, 999) == DayEnd(LastDayOfMonth(y, m))
  {
    FirstOfMonthCivil(s, y, m);
    MonthEndWhenDayFits(s, Civil(y, m, 1), DaysInMonth(NextYear(y, m), NextMonth(m)));
  }

  /** Midnight of the first day of a month lies on day 1 of that month. */
  lemma FirstOfMonthCivil(s: int, y: int, m: int)
    requires 0 <= m < 12 && s == DayStart(MonthStart(y, m))
    ensures CivilOf(DayOf(s)) == Civil(y, m, 1)
  {
    MidnightDay(s, MonthStart(y, m));
    CivilOfMonthStart(y, m);
  }

  /** Midnight of day `n` lies on day `n`. */
  lemma MidnightDay(s: int, n: int)
    requires s == DayStart(n)
    ensures DayOf(s) == n
  {
    DayOfAt(n, 0);
  }

  /** The first day of a month is day 1 of that month. */
  lemma CivilOfMonthStart(y: int, m: int)
    requires 0 <= m < 12
    ensures CivilOf(MonthStart(y, m)) == Civil(y, m, 1)
  {
    assert DayFromCivil(y, m, 1) == MonthStart(y, m);
    CivilOfDayFromCivil(Civil(y, m, 1));
  }

  /** `GetMonthBounds`'s end steps from a date whose day of the month fits into the next month. */
  lemma MonthEndWhenDayFits(t: int, c: Civil, next: int)
    requires c == CivilOf(DayOf(t)) && next == DaysInMonth(NextYear(c.year, c.month), NextMonth(c.month))
    requires c.day <= next
    ensures SetHours(SetDate(SetMonth(t, GetMonth(t) + 1), 0), 23, 59, 59, 999) == DayEnd(LastDayOfMonth(c.year, c.month))
  {
    MonthBoundsProof(t);
  }

  /** `GetMonthBounds`'s end steps from a date whose day of the month exceeds the next month's length. */
  lemma MonthEndWhenDayOverflows(t: int, c: Civil, y1: int, m1: int)
    requires c == CivilOf(DayOf(t)) && y1 == NextYear(c.year, c.month) && m1 == NextMonth(c.month)
    requires c.day > DaysInMonth(y1, m1)
    ensures SetHours(SetDate(SetMonth(t, GetMonth(t) + 1), 0), 23, 59, 59, 999) == DayEnd(LastDayOfMonth(y1, m1))
  {
    MonthBoundsProof(t);
  }

  /** An instant lies between the first millisecond and the last of its own month. */
  lemma DateInMonth(date: int, c: Civil)
    requires c == CivilOf(DayOf(date))
    ensures DayStart(MonthStart(c.year, c.month)) <= date <= DayEnd(LastDayOfMonth(c.year, c.month))
  {
    DayOfBounds(DayOf(date), date);
  }

  /**
   * The inputs that show the discrepancy: on January 31 of a year that is not a
   * leap year (2023, say) the next month has 28 days, so the steps of
   * `GetMonthBounds` end on February 28 rather than on January 31.
   */
  lemma January31Overflow(y: int, t: int)
    requires !Leap(y) && CivilOf(DayOf(t)) == Civil(y, 0, 31)
    ensures SetHours(SetDate(SetMonth(t, GetMonth(t) + 1), 0), 23, 59, 59, 999) == DayEnd(LastDayOfMonth(y, 1))
    ensures LastDayOfMonth(y, 1) != LastDayOfMonth(y, 0)
  {
    assert NextYear(y, 0) == y && NextMonth(0) == 1 && DaysInMonth(y, 1) == 28;
    JanuaryFebruaryEnds(y);
    MonthEndWhenDayOverflows(t, Civil(y, 0, 31), y, 1);
  }

  lemma JanuaryFebruaryEnds(y: int)
    requires !Leap(y)
    ensures LastDayOfMonth(y, 1) == LastDayOfMonth(y, 0) + 28
  {
    DaysBeforeMonthStep(y, 0);
  }
}
