/**
 * The pure computations of the time tracker page: the two duration
 * formatters, today's entries and their total, and the reading of the manual
 * and edit form fields (a date "YYYY-MM-DD" and two clock times "HH:MM") into
 * a validated time entry. Instants are local milliseconds as in Calendar.
 */
module Timer {
  import opened Wrappers
  import opened Numerals
  import opened Text
  import opened Lists
  import opened Calendar
  import opened Records
  import DateUtils

  // ---------------------------------------------------------------------------
  // Formatters

  /** A number rendered with at least two digits, as `n.toString().padStart(2, '0')`. */
  function TwoDigits(n: int): (s: string)
    ensures n >= 0 ==> AllDigits(s) && |s| >= 2 && ParseNat(s) == n
  {
    if n >= 0 then
      ParseNatToString(n);
      PadStartValue(NatToString(n), 2);
      PadStart(NatToString(n), 2)
    else PadStart(IntToString(n), 2)
  }

  /** `formatElapsedTime(seconds)`: hours, minutes and seconds joined by ':'. */
  function FormatElapsedTime(seconds: int): (s: string)
  {
    var hours := FloorDiv(seconds, 3600);
    var minutes := FloorDiv(JsRem(seconds, 3600), 60);
    var secs := JsRem(seconds, 60);
    Join([TwoDigits(hours), TwoDigits(minutes), TwoDigits(secs)], ':')
  }

  /** Numerals joined by a non-digit split back into the same numerals. */
  lemma NumeralsSplit(parts: seq<string>, sep: char)
    requires |parts| >= 1 && !IsDigit(sep)
    requires forall i :: 0 <= i < |parts| ==> AllDigits(parts[i])
    ensures Split(Join(parts, sep), sep) == parts
  {
    SplitJoin(parts, sep);
  }

  /**
   * For a non-negative count, the clock face reads back as three numerals of at
   * least two digits, with minutes and seconds below 60, that add up to the count.
   */
  lemma ElapsedTimeReadsBack(seconds: int)
    requires seconds >= 0
    ensures |Split(FormatElapsedTime(seconds), ':')| == 3
    ensures forall i :: 0 <= i < 3 ==>
              AllDigits(Split(FormatElapsedTime(seconds), ':')[i]) && |Split(FormatElapsedTime(seconds), ':')[i]| >= 2
    ensures var p := Split(FormatElapsedTime(seconds), ':');
            ParseNat(p[1]) < 60 && ParseNat(p[2]) < 60 && |p[1]| == 2 && |p[2]| == 2
            && ParseNat(p[0]) * 3600 + ParseNat(p[1]) * 60 + ParseNat(p[2]) == seconds
  {
    var p := Split(FormatElapsedTime(seconds), ':');
    ElapsedTimeSplit(seconds);
    var h, m, sec := seconds / 3600, seconds % 3600 / 60, seconds % 60;
    SecondsSplit(seconds);
    ClockFace(h, m, sec);
  }

  /** Three fields of a clock face, each at least two digits, minutes and seconds exactly two. */
  lemma ClockFace(h: int, m: int, sec: int)
    requires h >= 0 && 0 <= m < 60 && 0 <= sec < 60
    ensures var p := [TwoDigits(h), TwoDigits(m), TwoDigits(sec)];
            (forall i :: 0 <= i < 3 ==> AllDigits(p[i]) && |p[i]| >= 2)
            && ParseNat(p[0]) == h && ParseNat(p[1]) == m && ParseNat(p[2]) == sec
            && |p[1]| == 2 && |p[2]| == 2
  {
    var a, b, c := TwoDigits(h), TwoDigits(m), TwoDigits(sec);
    TwoDigitsBelow100(m);
    TwoDigitsBelow100(sec);
    ThreeFields(a, b, c);
  }

  lemma ThreeFields(a: string, b: string, c: string)
    requires AllDigits(a) && |a| >= 2 && AllDigits(b) && |b| >= 2 && AllDigits(c) && |c| >= 2
    ensures var p := [a, b, c]; forall i :: 0 <= i < 3 ==> AllDigits(p[i]) && |p[i]| >= 2
  {
    var p := [a, b, c];
    forall i | 0 <= i < 3
      ensures AllDigits(p[i]) && |p[i]| >= 2
    {
      if i == 0 { assert p[i] == a; } else if i == 1 { assert p[i] == b; } else { assert p[i] == c; }
    }
  }

  /** A number below 100 is written with exactly two digits. */
  lemma TwoDigitsBelow100(n: int)
    requires 0 <= n < 100
    ensures |TwoDigits(n)| == 2
  {
    var s := NatToString(n);
    if n >= 10 {
      assert s == NatToString(n / 10) + [DigitChar(n % 10)];
      assert |NatToString(n / 10)| == 1;
    }
    assert |s| <= 2;
  }

  lemma ElapsedTimeSplit(seconds: int)
    requires seconds >= 0
    ensures Split(FormatElapsedTime(seconds), ':') ==
              [TwoDigits(seconds / 3600), TwoDigits(seconds % 3600 / 60), TwoDigits(seconds % 60)]
  {
    ElapsedTimeText(seconds);
    NumeralsSplit([TwoDigits(seconds / 3600), TwoDigits(seconds % 3600 / 60), TwoDigits(seconds % 60)], ':');
  }

  /** For a non-negative count the JavaScript operators are Dafny's. */
  lemma ElapsedTimeText(seconds: int)
    requires seconds >= 0
    ensures FormatElapsedTime(seconds) ==
              Join([TwoDigits(seconds / 3600), TwoDigits(seconds % 3600 / 60), TwoDigits(seconds % 60)], ':')
  {
    assert JsRem(seconds, 3600) == seconds % 3600;
    assert JsRem(seconds, 60) == seconds % 60;
  }

  lemma SecondsSplit(seconds: int)
    requires seconds >= 0
    ensures seconds == seconds / 3600 * 3600 + seconds % 3600 / 60 * 60 + seconds % 60
    ensures seconds % 3600 / 60 < 60
  {
    var a, q := seconds / 3600, seconds % 3600;
    var b, c := q / 60, q % 60;
    assert seconds == a * 3600 + q;
    assert q == b * 60 + c && 0 <= c < 60;
    RemainderBy60(seconds, a * 60 + b, c);
  }

  lemma RemainderBy60(x: int, k: int, c: int)
    requires x == k * 60 + c && 0 <= c < 60
    ensures x % 60 == c
  {
  }

  /** `formatMinutes(minutes)`: whole hours, then the minutes left over, as "{h}h {m}m". */
  function FormatMinutes(minutes: int): (r: string)
    ensures minutes >= 0 ==> r == NatToString(minutes / 60) + "h " + NatToString(minutes % 60) + "m"
  {
    IntToString(FloorDiv(minutes, 60)) + "h " + IntToString(JsRem(minutes, 60)) + "m"
  }

  /** Different non-negative durations never share a label. */
  lemma FormatMinutesInjective(a: int, b: int)
    requires a >= 0 && b >= 0 && FormatMinutes(a) == FormatMinutes(b)
    ensures a == b
  {
    LabelParts(a);
    LabelParts(b);
    NumeralsOfLabel(NatToString(a / 60), NatToString(a % 60), NatToString(b / 60), NatToString(b % 60));
    NatToStringInjective(a / 60, b / 60);
    NatToStringInjective(a % 60, b % 60);
  }

  lemma LabelParts(a: int)
    requires a >= 0
    ensures FormatMinutes(a) == NatToString(a / 60) + ("h " + NatToString(a % 60) + "m")
  {
  }

  /** The two numerals of a label "{h}h {m}m" are determined by the label. */
  lemma NumeralsOfLabel(ha: string, ma: string, hb: string, mb: string)
    requires AllDigits(ha) && AllDigits(ma) && AllDigits(hb) && AllDigits(mb)
    requires ha + ("h " + ma + "m") == hb + ("h " + mb + "m")
    ensures ha == hb && ma == mb
  {
    var tailA, tailB := "h " + ma + "m", "h " + mb + "m";
    DigitsPrefixUnique(ha, tailA, hb, tailB);
    assert tailA[2..] == ma + "m" && tailB[2..] == mb + "m";
    DigitsPrefixUnique(ma, "m", mb, "m");
  }

  /**
   * The page's own formatter agrees with the shared `formatDuration` exactly
   * when both hours and minutes are shown; below an hour the page still writes "0h".
   */
  lemma FormatMinutesAndFormatDuration(minutes: int)
    requires minutes >= 0
    ensures minutes >= 60 && minutes % 60 != 0 ==> FormatMinutes(minutes) == DateUtils.FormatDuration(minutes)
    ensures minutes < 60 ==> FormatMinutes(minutes) == "0h " + DateUtils.FormatDuration(minutes)
  {
  }

  // ---------------------------------------------------------------------------
  // Today's entries

  /** The date test of `todayEntries`: the same day of the month, month and full year. */
  predicate SameDate(t: int, today: int) {
    GetDate(t) == GetDate(today) && GetMonth(t) == GetMonth(today) && GetFullYear(t) == GetFullYear(today)
  }

  /** Comparing the three calendar fields is comparing epoch days. */
  lemma SameDateIsSameDay(t: int, today: int)
    ensures SameDate(t, today) <==> DayOf(t) == DayOf(today)
  {
    var a, b := CivilOf(DayOf(t)), CivilOf(DayOf(today));
    if SameDate(t, today) {
      assert a == b;
      SameCivilSameDay(DayOf(t), DayOf(today));
    }
  }

  /** `todayEntries`: the entries that started on the calendar date of `today`, in their order. */
  function TodayEntries(entries: seq<TimeEntry>, today: int): (r: seq<TimeEntry>)
    ensures |r| <= |entries|
    ensures forall e :: e in r ==> e in entries && DayOf(e.startTime) == DayOf(today)
  {
    if entries == [] then []
    else
      var e := entries[|entries| - 1];
      var rest := TodayEntries(entries[..|entries| - 1], today);
      SameDateIsSameDay(e.startTime, today);
      if SameDate(e.startTime, today) then rest + [e] else rest
  }

  /** The last entry joins today's entries exactly when it started today. */
  lemma TodayEntriesStep(entries: seq<TimeEntry>, today: int)
    requires entries != []
    ensures TodayEntries(entries, today) ==
              TodayEntries(entries[..|entries| - 1], today)
              + (if DayOf(entries[|entries| - 1].startTime) == DayOf(today) then [entries[|entries| - 1]] else [])
  {
    SameDateIsSameDay(entries[|entries| - 1].startTime, today);
  }

  /** An entry is one of today's exactly when it is listed and starts between today's first and last millisecond. */
  lemma TodayEntriesContents(entries: seq<TimeEntry>, today: int, e: TimeEntry)
    ensures e in TodayEntries(entries, today) <==>
              e in entries && DayStart(DayOf(today)) <= e.startTime <= DayEnd(DayOf(today))
  {
    TodayEntriesOnDay(entries, today);
    OnDayContents(entries, DayOf(today), e);
    DayOfBounds(DayOf(today), e.startTime);
  }

  /** The same filter, with the date test read as a comparison of epoch days. */
  function EntriesOnDay(entries: seq<TimeEntry>, day: int): seq<TimeEntry> {
    if entries == [] then []
    else
      var e := entries[|entries| - 1];
      var rest := EntriesOnDay(entries[..|entries| - 1], day);
      if DayOf(e.startTime) == day then rest + [e] else rest
  }

  lemma {:induction false} TodayEntriesOnDay(entries: seq<TimeEntry>, today: int)
    ensures TodayEntries(entries, today) == EntriesOnDay(entries, DayOf(today))
  {
    if entries != [] {
      TodayEntriesOnDay(entries[..|entries| - 1], today);
      TodayEntriesStep(entries, today);
    }
  }

  lemma {:induction false} OnDayContents(entries: seq<TimeEntry>, day: int, e: TimeEntry)
    ensures e in EntriesOnDay(entries, day) <==> e in entries && DayOf(e.startTime) == day
  {
    if entries != [] {
      var init := entries[..|entries| - 1];
      var last := entries[|entries| - 1];
      OnDayContents(init, day, e);
      assert entries == init + [last];
      MemberStep(entries, init, last, EntriesOnDay(init, day), EntriesOnDay(entries, day), e,
                 DayOf(e.startTime) == day, DayOf(last.startTime) == day);
    }
  }

  /** Membership after one step of a filter: the last element joins exactly when it passes. */
  lemma MemberStep(xs: seq<TimeEntry>, init: seq<TimeEntry>, last: TimeEntry, r0: seq<TimeEntry>,
                   r: seq<TimeEntry>, e: TimeEntry, passes: bool, lastPasses: bool)
    requires xs == init + [last]
    requires r == r0 + (if lastPasses then [last] else [])
    requires e in r0 <==> e in init && passes
    requires e == last ==> (lastPasses <==> passes)
    ensures e in r <==> e in xs && passes
  {
  }

  function DurationOf(e: TimeEntry): int {
    e.duration
  }

  /** `totalTimeToday`: the minutes of today's entries added up. */
  function TotalTimeToday(entries: seq<TimeEntry>, today: int): int {
    Sum(TodayEntries(entries, today), DurationOf)
  }

  /** Logging one more entry adds its minutes to today's total exactly when it started today. */
  lemma TotalTimeTodayAppend(entries: seq<TimeEntry>, e: TimeEntry, today: int)
    ensures TotalTimeToday(entries + [e], today) ==
              TotalTimeToday(entries, today) + (if DayOf(e.startTime) == DayOf(today) then e.duration else 0)
  {
    var all := entries + [e];
    assert all[..|all| - 1] == entries;
    SameDateIsSameDay(e.startTime, today);
    SumAppend(TodayEntries(entries, today), [e], DurationOf);
  }

  /** With no entry of negative length, today's total is never negative and never exceeds the overall total. */
  lemma {:induction false} TotalTimeTodayBounds(entries: seq<TimeEntry>, today: int)
    requires forall i :: 0 <= i < |entries| ==> entries[i].duration >= 0
    ensures 0 <= TotalTimeToday(entries, today) <= Sum(entries, DurationOf)
  {
    if entries != [] {
      var init := entries[..|entries| - 1];
      var last := entries[|entries| - 1];
      TotalTimeTodayBounds(init, today);
      assert init + [last] == entries;
      TotalTimeTodayAppend(init, last, today);
      SumAppend(init, [last], DurationOf);
    }
  }

  // ---------------------------------------------------------------------------
  // Reading the form

  /**
   * `Number(s)` for the strings a date or time field can hold: surrounding white
   * space is ignored, a blank string is 0 and a string of decimal digits is its
   * value; anything else is NaN (`None`).
   */
  function JsNumber(s: string): (r: Option<int>)
    ensures AllWhiteSpace(s) ==> r == Some(0)
    ensures r.Some? ==> r.value >= 0
  {
    TrimEmpty(s);
    var t := Trim(s);
    if t == [] then Some(0) else if AllDigits(t) then Some(ParseNat(t)) else None
  }

  /** A numeral reads back as its value, whatever zeros pad it. */
  lemma JsNumberOfNumeral(s: string)
    requires s != [] && AllDigits(s)
    ensures JsNumber(s) == Some(ParseNat(s))
  {
    TrimNoWhiteSpace(s);
  }

  /** The `i`-th piece of a split field after `.map(Number)`; a missing piece is `undefined`, i.e. NaN. */
  function Field(parts: seq<string>, i: nat): (r: Option<int>)
    ensures i >= |parts| ==> r.None?
  {
    if i < |parts| then JsNumber(parts[i]) else None
  }

  /** `new Date(y, month - 1, d, h, mi)`: every field may overflow into the next larger one. */
  function LocalTime(y: int, month: int, d: int, h: int, mi: int): int {
    NewDate(y, month - 1, d) + h * MsPerHour + mi * MsPerMinute
  }

  /** A start and an end instant. */
  datatype Span = Span(start: int, end: int)

  /**
   * The parse step of the save handlers: the date is split on '-' and the
   * times on ':', every piece goes through `Number`, and both instants lie on
   * the form's date. `None` when one of the seven numbers is NaN.
   */
  function ParseSpan(date: string, startClock: string, endClock: string): Option<Span>
  {
    var d, s, e := Split(date, '-'), Split(startClock, ':'), Split(endClock, ':');
    var year, month, day := Field(d, 0), Field(d, 1), Field(d, 2);
    var sh, sm, eh, em := Field(s, 0), Field(s, 1), Field(e, 0), Field(e, 1);
    if year.Some? && month.Some? && day.Some? && sh.Some? && sm.Some? && eh.Some? && em.Some? then
      Some(Span(LocalTime(year.value, month.value, day.value, sh.value, sm.value),
                LocalTime(year.value, month.value, day.value, eh.value, em.value)))
    else None
  }

  const FillInMessage: string := "Please fill in all required fields"
  const EndAfterStartMessage: string := "End time must be after start time"

  /**
   * What a save handler decides: an entry's start, end and whole minutes, an
   * alert, or NaN times.
   */
  datatype Outcome = Accepted(start: int, end: int, duration: int) | Rejected(message: string) | NotANumber

  /** The validation shared by `saveManualEntry` and `saveEditedEntry`. */
  function Validate(client: string, project: string, date: string, startClock: string, endClock: string): (r: Outcome)
    ensures r.Rejected? ==> r.message == FillInMessage || r.message == EndAfterStartMessage
  {
    Decide(client != "" && project != "" && date != "" && startClock != "" && endClock != "",
           ParseSpan(date, startClock, endClock))
  }

  /**
   * The decision once it is known whether every field is filled and what the
   * date and clocks parse to: the fill-in alert first, then NaN times, then the
   * order alert.
   */
  function Decide(filled: bool, p: Option<Span>): (r: Outcome)
    ensures r.Rejected? ==> r.message == FillInMessage || r.message == EndAfterStartMessage
  {
    if !filled then Rejected(FillInMessage)
    else
      match p
      case None => NotANumber
      case Some(span) =>
        if span.end - span.start <= 0 then Rejected(EndAfterStartMessage)
        else Accepted(span.start, span.end, FloorDiv(span.end - span.start, MsPerMinute))
  }

  /**
   * The four outcomes of `Validate`: the fill-in alert exactly when a field is
   * empty, the order alert exactly when the times parse and the end is not
   * after the start, acceptance exactly of filled fields whose times parse in
   * order (with the whole minutes between them), and not-a-number exactly when
   * the fields are filled but the times do not parse.
   */
  lemma ValidateCases(client: string, project: string, date: string, startClock: string, endClock: string)
    ensures var r := Validate(client, project, date, startClock, endClock);
            var filled := client != "" && project != "" && date != "" && startClock != "" && endClock != "";
            var p := ParseSpan(date, startClock, endClock);
            (r == Rejected(FillInMessage) <==> !filled)
            && (r == Rejected(EndAfterStartMessage) <==> filled && p.Some? && p.value.end <= p.value.start)
            && (r.Accepted? ==>
                  p == Some(Span(r.start, r.end)) && r.start < r.end && r.duration == (r.end - r.start) / MsPerMinute)
            && (r.Accepted? <==> filled && p.Some? && p.value.start < p.value.end)
            && (r == NotANumber <==> filled && p.None?)
  {
    var filled := client != "" && project != "" && date != "" && startClock != "" && endClock != "";
    DecideCases(filled, ParseSpan(date, startClock, endClock));
  }

  /** The case split of `Decide`. */
  lemma DecideCases(filled: bool, p: Option<Span>)
    ensures var r := Decide(filled, p);
            (r == Rejected(FillInMessage) <==> !filled)
            && (r == Rejected(EndAfterStartMessage) <==> filled && p.Some? && p.value.end <= p.value.start)
            && (r.Accepted? ==>
                  p == Some(Span(r.start, r.end)) && r.start < r.end && r.duration == (r.end - r.start) / MsPerMinute)
            && (r.Accepted? <==> filled && p.Some? && p.value.start < p.value.end)
            && (r == NotANumber <==> filled && p.None?)
  {
    assert FillInMessage != EndAfterStartMessage;
  }

  // ---------------------------------------------------------------------------
  // Filling the edit form from an entry

  /**
   * The year field of `toISOString`: four digits for years 0..9999, otherwise a
   * sign and six digits.
   */
  function YearText(y: int): string {
    if 0 <= y <= 9999 then PadStart(NatToString(y), 4)
    else (if y < 0 then "-" else "+") + PadStart(NatToString(if y < 0 then -y else y), 6)
  }

  /** The date part of `toISOString` for an epoch day: "YYYY-MM-DD". */
  function IsoDate(day: int): string {
    var c := CivilOf(day);
    DateText(c.year, c.month + 1, c.day)
  }

  /** "YYYY-MM-DD" from a year, a month number 1..12 and a day of the month. */
  function DateText(y: int, month: int, d: int): string {
    Join([YearText(y), TwoDigits(month), TwoDigits(d)], '-')
  }

  /** The "HH:MM" of an instant, from `getHours` and `getMinutes`. */
  function ClockText(t: int): string {
    Join([TwoDigits(GetHours(t)), TwoDigits(GetMinutes(t))], ':')
  }

  /** The instant rounded down to its minute. */
  function MinuteFloor(t: int): (r: int)
    ensures r <= t < r + MsPerMinute && DayOf(r) == DayOf(t)
  {
    DayOfAt(DayOf(t), TimeOfDay(t) / MsPerMinute * MsPerMinute);
    DayStart(DayOf(t)) + TimeOfDay(t) / MsPerMinute * MsPerMinute
  }

  /** A year 0..9999 is written as a numeral of its value. */
  lemma YearTextValue(y: int)
    requires 0 <= y <= 9999
    ensures AllDigits(YearText(y)) && YearText(y) != [] && ParseNat(YearText(y)) == y
  {
    ParseNatToString(y);
    PadStartValue(NatToString(y), 4);
  }

  lemma DateTextSplit(y: int, month: int, d: int)
    requires 0 <= y <= 9999 && month >= 0 && d >= 0
    ensures Split(DateText(y, month, d), '-') == [YearText(y), TwoDigits(month), TwoDigits(d)]
  {
    var a, b, c := YearText(y), TwoDigits(month), TwoDigits(d);
    assert AllDigits(a) by {
      YearTextValue(y);
    }
    assert AllDigits(b) && AllDigits(c);
    ThreeNumeralsSplit(a, b, c, '-');
  }

  lemma ThreeNumeralsSplit(a: string, b: string, c: string, sep: char)
    requires AllDigits(a) && AllDigits(b) && AllDigits(c) && !IsDigit(sep)
    ensures Split(Join([a, b, c], sep), sep) == [a, b, c]
  {
    var parts := [a, b, c];
    assert forall i :: 0 <= i < |parts| ==> AllDigits(parts[i]);
    NumeralsSplit(parts, sep);
  }

  /** A date of a year 0..9999 reads back as its year, month number and day. */
  lemma DateTextFields(y: int, month: int, d: int)
    requires 0 <= y <= 9999 && month >= 0 && d >= 0
    ensures Field(Split(DateText(y, month, d), '-'), 0) == Some(y)
    ensures Field(Split(DateText(y, month, d), '-'), 1) == Some(month)
    ensures Field(Split(DateText(y, month, d), '-'), 2) == Some(d)
  {
    var p := Split(DateText(y, month, d), '-');
    DateTextSplit(y, month, d);
    assert p[0] != [] && AllDigits(p[0]) && ParseNat(p[0]) == y by {
      YearTextValue(y);
    }
    NumeralField(p, 0, y);
    NumeralField(p, 1, month);
    NumeralField(p, 2, d);
  }

  /** A piece that is a numeral reads as its value. */
  lemma NumeralField(parts: seq<string>, i: nat, n: int)
    requires i < |parts| && parts[i] != [] && AllDigits(parts[i]) && ParseNat(parts[i]) == n
    ensures Field(parts, i) == Some(n)
  {
    JsNumberOfNumeral(parts[i]);
  }

  /** The clock text reads back as the hour and the minute. */
  lemma ClockTextFields(t: int)
    ensures Field(Split(ClockText(t), ':'), 0) == Some(GetHours(t))
    ensures Field(Split(ClockText(t), ':'), 1) == Some(GetMinutes(t))
  {
    var parts := [TwoDigits(GetHours(t)), TwoDigits(GetMinutes(t))];
    NumeralsSplit(parts, ':');
    NumeralField(parts, 0, GetHours(t));
    NumeralField(parts, 1, GetMinutes(t));
  }

  /** Hours and minutes of `u` placed on epoch day `day`: `u`'s minute, moved to that day. */
  lemma ClockOnDay(day: int, u: int)
    ensures DayStart(day) + GetHours(u) * MsPerHour + GetMinutes(u) * MsPerMinute
            == MinuteFloor(u) + (day - DayOf(u)) * MsPerDay
  {
    var r := TimeOfDay(u);
    var h, q := r / MsPerHour, r % MsPerHour;
    assert r == h * MsPerHour + q;
    var mi := q / MsPerMinute;
    assert q == mi * MsPerMinute + q % MsPerMinute;
    assert r == (h * 60 + mi) * MsPerMinute + q % MsPerMinute;
    assert r / MsPerMinute == h * 60 + mi;
  }

  /** On the form's date of an entry started in a year 100..9999, a clock time lands on that start's epoch day. */
  lemma LocalTimeOnDay(t: int, c: Civil, h: int, mi: int)
    requires c == CivilOf(DayOf(t)) && 100 <= c.year <= 9999
    ensures LocalTime(c.year, c.month + 1, c.day, h, mi) == DayStart(DayOf(t)) + h * MsPerHour + mi * MsPerMinute
  {
    assert DayFromCivil(FullYear(c.year), c.month + 1 - 1, c.day) == DayOf(t);
  }

  /**
   * Opening an entry in the edit form and reading the form back gives the
   * start rounded down to its minute, and the end's clock time placed on the
   * start's date, for an entry whose start lies in the years 100..9999.
   */
  lemma EditFormReadsBack(t: int, u: int)
    requires 100 <= GetFullYear(t) <= 9999
    ensures ParseSpan(IsoDate(DayOf(t)), ClockText(t), ClockText(u))
            == Some(Span(MinuteFloor(t), MinuteFloor(u) + (DayOf(t) - DayOf(u)) * MsPerDay))
  {
    EditFormSpan(t, u);
    ClocksToMinutes(ParseSpan(IsoDate(DayOf(t)), ClockText(t), ClockText(u)), t, u);
  }

  lemma ClocksToMinutes(r: Option<Span>, t: int, u: int)
    requires r == Some(Span(DayStart(DayOf(t)) + GetHours(t) * MsPerHour + GetMinutes(t) * MsPerMinute,
                            DayStart(DayOf(t)) + GetHours(u) * MsPerHour + GetMinutes(u) * MsPerMinute))
    ensures r == Some(Span(MinuteFloor(t), MinuteFloor(u) + (DayOf(t) - DayOf(u)) * MsPerDay))
  {
    ClockOnDay(DayOf(t), t);
    ClockOnDay(DayOf(t), u);
  }

  /** The form's two times are the clock times of `t` and `u` on the epoch day of `t`. */
  lemma EditFormSpan(t: int, u: int)
    requires 100 <= GetFullYear(t) <= 9999
    ensures ParseSpan(IsoDate(DayOf(t)), ClockText(t), ClockText(u))
            == Some(Span(DayStart(DayOf(t)) + GetHours(t) * MsPerHour + GetMinutes(t) * MsPerMinute,
                         DayStart(DayOf(t)) + GetHours(u) * MsPerHour + GetMinutes(u) * MsPerMinute))
  {
    var c := CivilOf(DayOf(t));
    EditFormParsed(IsoDate(DayOf(t)), ClockText(t), ClockText(u), c.year, c.month + 1, c.day, t, u);
    LocalTimesOnDay(ParseSpan(IsoDate(DayOf(t)), ClockText(t), ClockText(u)), t, u, c);
  }

  /** The form's three fields read back as the date of `c` and the clock times of `t` and `u`. */
  lemma EditFormParsed(date: string, start: string, end: string, y: int, month: int, d: int, t: int, u: int)
    requires 0 <= y <= 9999 && 0 <= month && 0 <= d
    requires date == DateText(y, month, d) && start == ClockText(t) && end == ClockText(u)
    ensures ParseSpan(date, start, end) ==
              Some(Span(LocalTime(y, month, d, GetHours(t), GetMinutes(t)), LocalTime(y, month, d, GetHours(u), GetMinutes(u))))
  {
    DateFields(date, y, month, d);
    ClockFields(start, t);
    ClockFields(end, u);
    ParseSpanOf(date, start, end, y, month, d, GetHours(t), GetMinutes(t), GetHours(u), GetMinutes(u));
  }

  lemma LocalTimesOnDay(r: Option<Span>, t: int, u: int, c: Civil)
    requires c == CivilOf(DayOf(t)) && 100 <= c.year <= 9999
    requires r == Some(Span(LocalTime(c.year, c.month + 1, c.day, GetHours(t), GetMinutes(t)),
                            LocalTime(c.year, c.month + 1, c.day, GetHours(u), GetMinutes(u))))
    ensures r == Some(Span(DayStart(DayOf(t)) + GetHours(t) * MsPerHour + GetMinutes(t) * MsPerMinute,
                           DayStart(DayOf(t)) + GetHours(u) * MsPerHour + GetMinutes(u) * MsPerMinute))
  {
    LocalTimeOnDay(t, c, GetHours(t), GetMinutes(t));
    LocalTimeOnDay(t, c, GetHours(u), GetMinutes(u));
  }

  lemma DateFields(date: string, y: int, month: int, d: int)
    requires 0 <= y <= 9999 && month >= 0 && d >= 0 && date == DateText(y, month, d)
    ensures Field(Split(date, '-'), 0) == Some(y) && Field(Split(date, '-'), 1) == Some(month)
    ensures Field(Split(date, '-'), 2) == Some(d)
  {
    DateTextFields(y, month, d);
  }

  lemma ClockFields(clock: string, t: int)
    requires clock == ClockText(t)
    ensures Field(Split(clock, ':'), 0) == Some(GetHours(t)) && Field(Split(clock, ':'), 1) == Some(GetMinutes(t))
  {
    ClockTextFields(t);
  }

  /** ParseSpan once the seven numbers are known. */
  lemma ParseSpanOf(date: string, startClock: string, endClock: string,
                    y: int, month: int, d: int, sh: int, sm: int, eh: int, em: int)
    requires Field(Split(date, '-'), 0) == Some(y) && Field(Split(date, '-'), 1) == Some(month)
    requires Field(Split(date, '-'), 2) == Some(d)
    requires Field(Split(startClock, ':'), 0) == Some(sh) && Field(Split(startClock, ':'), 1) == Some(sm)
    requires Field(Split(endClock, ':'), 0) == Some(eh) && Field(Split(endClock, ':'), 1) == Some(em)
    ensures ParseSpan(date, startClock, endClock) ==
              Some(Span(LocalTime(y, month, d, sh, sm), LocalTime(y, month, d, eh, em)))
  {
  }

  /**
   * An entry that starts and ends on the same date, on whole minutes and in
   * that order, is saved again unchanged by the edit form.
   */
  lemma SameDayEditKeepsTimes(client: string, project: string, t: int, u: int)
    requires client != "" && project != ""
    requires 100 <= GetFullYear(t) <= 9999 && DayOf(t) == DayOf(u)
    requires TimeOfDay(t) % MsPerMinute == 0 && TimeOfDay(u) % MsPerMinute == 0 && t < u
    ensures Validate(client, project, IsoDate(DayOf(t)), ClockText(t), ClockText(u))
            == Accepted(t, u, (u - t) / MsPerMinute)
  {
    EditFormReadsBack(t, u);
    assert IsoDate(DayOf(t)) != "";
    assert ClockText(t) != "" && ClockText(u) != "";
    ValidateWholeMinutes(client, project, IsoDate(DayOf(t)), ClockText(t), ClockText(u), t, u);
  }

  lemma ValidateWholeMinutes(client: string, project: string, date: string, startClock: string, endClock: string,
                             t: int, u: int)
    requires client != "" && project != "" && date != "" && startClock != "" && endClock != ""
    requires ParseSpan(date, startClock, endClock) ==
               Some(Span(MinuteFloor(t), MinuteFloor(u) + (DayOf(t) - DayOf(u)) * MsPerDay))
    requires DayOf(t) == DayOf(u) && t < u
    requires TimeOfDay(t) % MsPerMinute == 0 && TimeOfDay(u) % MsPerMinute == 0
    ensures Validate(client, project, date, startClock, endClock) == Accepted(t, u, (u - t) / MsPerMinute)
  {
    WholeMinutesSpan(ParseSpan(date, startClock, endClock), t, u);
    ValidateSpan(client, project, date, startClock, endClock, t, u);
  }

  lemma WholeMinute(t: int)
    requires TimeOfDay(t) % MsPerMinute == 0
    ensures MinuteFloor(t) == t
  {
    var r := TimeOfDay(t);
    assert r / MsPerMinute * MsPerMinute == r;
  }

  /** On one day and at whole minutes, the rounded span is the span itself. */
  lemma WholeMinutesSpan(sp: Option<Span>, t: int, u: int)
    requires DayOf(t) == DayOf(u)
    requires TimeOfDay(t) % MsPerMinute == 0 && TimeOfDay(u) % MsPerMinute == 0
    requires sp == Some(Span(MinuteFloor(t), MinuteFloor(u) + (DayOf(t) - DayOf(u)) * MsPerDay))
    ensures sp == Some(Span(t, u))
  {
    WholeMinute(t);
    WholeMinute(u);
  }

  /** A form whose fields are filled in and whose times parse in order is accepted with those times. */
  lemma ValidateSpan(client: string, project: string, date: string, startClock: string, endClock: string,
                     start: int, end: int)
    requires client != "" && project != "" && date != "" && startClock != "" && endClock != ""
    requires ParseSpan(date, startClock, endClock) == Some(Span(start, end)) && start < end
    ensures Validate(client, project, date, startClock, endClock) == Accepted(start, end, (end - start) / MsPerMinute)
  {
  }

  /**
   * An entry running past midnight whose end clock time is not later than its
   * start clock time cannot be saved again from the edit form: both times are
   * read on the start's date.
   */
  lemma OvernightEditRejected(client: string, project: string, t: int, u: int)
    requires client != "" && project != ""
    requires 100 <= GetFullYear(t) <= 9999 && DayOf(t) < DayOf(u)
    requires TimeOfDay(u) / MsPerMinute <= TimeOfDay(t) / MsPerMinute
    ensures Validate(client, project, IsoDate(DayOf(t)), ClockText(t), ClockText(u))
            == Rejected(EndAfterStartMessage)
  {
    EditFormReadsBack(t, u);
    assert IsoDate(DayOf(t)) != "";
    assert ClockText(t) != "" && ClockText(u) != "";
  }
}
