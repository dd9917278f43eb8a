/**
 * The state of the reports page and the handlers that change it: the filter
 * selections, the date range, and the report last computed from them.
 */
module ReportsView {
  import opened Wrappers
  import opened Records
  import opened Calendar
  import opened Reports
  import opened ReportRanges
  import opened Csv
  import opened DateUtils

  class ReportsPage {
    var clientFilter: string
    var projectFilter: string
    var dateRangeFilter: string
    var startDay: Option<int>
    var endDay: Option<int>
    var report: Report

    function CurrentFilters(): Filters
      reads this
    {
      Filters(clientFilter, projectFilter, startDay, endDay)
    }

    /** The initial state, with the current week (Sunday to Saturday) as the date range. */
    constructor(now: int)
      ensures clientFilter == All && projectFilter == All && dateRangeFilter == "week"
      ensures startDay == Some(DayOf(now) - GetDay(now)) && endDay == Some(DayOf(now) + 6 - GetDay(now))
      ensures report == Report([], 0, [], [])
    {
      clientFilter := All;
      projectFilter := All;
      dateRangeFilter := "week";
      report := Report([], 0, [], []);
      var week := WeekRange(now);
      startDay := Some(week.startDay);
      endDay := Some(week.endDay);
    }

    /** Choosing a client also resets the project selection to "all". */
    method SelectClient(clientId: string)
      modifies this
      ensures clientFilter == clientId && projectFilter == All
      ensures dateRangeFilter == old(dateRangeFilter) && startDay == old(startDay) && endDay == old(endDay)
      ensures report == old(report)
    {
      clientFilter := clientId;
      projectFilter := All;
    }

    method SelectProject(project: string)
      modifies this
      ensures projectFilter == project
      ensures clientFilter == old(clientFilter) && dateRangeFilter == old(dateRangeFilter)
      ensures startDay == old(startDay) && endDay == old(endDay) && report == old(report)
    {
      projectFilter := project;
    }

    /** Editing the custom start or end date field. */
    method SetDates(start: Option<int>, end: Option<int>)
      modifies this
      ensures startDay == start && endDay == end
      ensures clientFilter == old(clientFilter) && projectFilter == old(projectFilter)
      ensures dateRangeFilter == old(dateRangeFilter) && report == old(report)
    {
      startDay := start;
      endDay := end;
    }

    /** `handleDateRangeChange`: records the choice and, for a preset, replaces both dates. */
    method HandleDateRangeChange(range: string, now: int)
      modifies this
      ensures dateRangeFilter == range
      ensures range == "today" ==> startDay == Some(DayOf(now)) && endDay == Some(DayOf(now))
      ensures range == "week" ==>
        startDay == Some(DayOf(now) - GetDay(now)) && endDay == Some(DayOf(now) + 6 - GetDay(now))
      ensures range == "month" ==> var y, m := FullYear(GetFullYear(now)), GetMonth(now);
        startDay == Some(MonthStart(y, m)) && endDay == Some(LastDayOfMonth(y, m))
      ensures range == "year" ==> var y := FullYear(GetFullYear(now));
        startDay == Some(YearStart(y)) && endDay == Some(YearStart(y + 1) - 1)
      ensures range != "today" && range != "week" && range != "month" && range != "year" ==>
        startDay == old(startDay) && endDay == old(endDay)
      ensures clientFilter == old(clientFilter) && projectFilter == old(projectFilter) && report == old(report)
    {
      dateRangeFilter := range;
      assert "today"[0] != "week"[0] && "today"[0] != "month"[0] && "today"[0] != "year"[0];
      assert "week"[0] != "month"[0] && "week"[0] != "year"[0] && "month"[0] != "year"[0];
      var r := RangeFor(range, now);
      match r {
        case Some(d) =>
          startDay, endDay := Some(d.startDay), Some(d.endDay);
        case None =>
      }
    }

    /** The effect that re-runs `applyFilters` whenever a filter or the entries change. */
    method Refresh(entries: seq<TimeEntry>, clients: seq<Client>, now: int)
      modifies this
      ensures report == ReportOf(entries, clients, CurrentFilters(), now)
      ensures clientFilter == old(clientFilter) && projectFilter == old(projectFilter)
      ensures dateRangeFilter == old(dateRangeFilter) && startDay == old(startDay) && endDay == old(endDay)
    {
      report := ApplyFilters(entries, clients, CurrentFilters(), now);
    }

    /**
     * `exportCSV` as written: nothing (the "No data to export" alert) for an
     * empty report, otherwise the header and one comma-joined line per entry.
     */
    method ExportCsv(clients: seq<Client>, fmt: Formats) returns (csv: Option<string>)
      ensures csv == ExportAsWritten(report.entries, clients, fmt)
      ensures csv.None? <==> report.entries == []
    {
      if |report.entries| == 0 {
        return None;
      }
      csv := ExportAsWritten(report.entries, clients, fmt);
    }
  }
}
