# Legal time tracker: a Dafny model of the renderer core

This project models the bookkeeping core of a desktop time tracker for legal
practices. Clients each have a name, a type (business or individual) and a
list of project labels. Time entries record a client, a project, a
description, start and end instants, a duration in whole minutes and a
billable flag. The model covers five parts:

- **Application store** (`App`): loads clients and entries from the desktop
  bridge, or falls back to mock data in a browser. It adds, updates and
  deletes clients and entries. Deleting a client also deletes that client's
  time entries.
- **Timer page** (`Timer`, `TimerView`): the running timer with its
  elapsed-time clock and its stop-to-entry conversion. Also the manual-entry
  and edit dialogs, which parse a `YYYY-MM-DD` date and two `HH:MM` clocks,
  and today's entry list with its total.
- **Clients page** (`Clients`): the add and edit dialog, the project-label
  editor and its duplicate check, save validation, and the grouping of
  clients into business and individual.
- **Reports page** (`Reports`, `ReportRanges`, `ReportsView`, `Csv`): the
  date, client and project filter and the newest-first sort. Also the total
  minutes, the per-client and per-project totals (in insertion order, then
  sorted by duration with a stable sort), the preset date ranges, the project
  pickers and the CSV export.
- **Date helpers** (`DateUtils`): relative-time text, duration text, and the
  day, Monday-based week and month bounds.

Instants are integer milliseconds of local wall-clock time. Day `d` spans
`[d * 86400000, (d + 1) * 86400000)`, and day 0 (1970-01-01) is a Thursday.
The calendar is the proleptic Gregorian one (`Calendar`). The JavaScript
`Date` setters normalise out-of-range fields, and `Calendar.SetDate`,
`Calendar.SetMonth` and `Calendar.NewDate` model that; `new Date(y, m, d)`
also reads a year in 0..99 as 1900..1999 (`Calendar.FullYear`). A missing `id` is
`None`, and two missing ids compare equal, as `undefined === undefined` does
in JavaScript. A missing client type is any type other than `"individual"`.

Where the page code and its prose description disagree, the model follows the
code:

- The reports page's preset week runs Sunday to Saturday. `getWeekBounds` in
  the date helpers runs Monday to Sunday. Both are modelled as written.
- Failures from the desktop bridge are caught. An add or update then returns
  `null` and a delete returns `false`, with the lists unchanged. An update
  whose reply is falsy also leaves the list unchanged.
- Stopping the timer creates an entry even when less than a minute has
  passed, so its duration can be 0. No end-after-start check applies there.
  The dialogs do check that the end is after the start.

Two library pieces are shared. `Lists` holds filtering, de-duplication, sums
and flattening. `Text` and `Numerals` hold `split`, `join`, `trim`, decimal
numerals, `padStart`, floor division and JavaScript's `%`.

## Model

| member | source | states |
|---|---|---|
| Records.FindClient | src/pages/ReportsPage.js:209-212 | `clients.find(c => c.id === id)`: returns nothing exactly when no client has the id, and otherwise the first client that has it |
| Records.FindClientFirst | src/pages/ReportsPage.js:209-212 | when some index is the first holding the id, `find` returns exactly the client at that index |
| Records.ClientName | src/pages/ReportsPage.js:209-212 | the first matching client's name, or "Unknown Client" when no client has the id |
| Records.ClientProjects | src/pages/TimerPage.js:319-322 | the first matching client's project list, or the empty list when no client has the id |
| Calendar.CivilOfDayFromCivil | src/utils/dateUtils.js:128-139 | converting a valid year/month/day to a day number and back gives the same date: the calendar the `Date` accessors read |
| Calendar.NextMonthStart | src/utils/dateUtils.js:128-139 | the first day of the next month is the day after the month's last day |
| Calendar.SetHoursBounds | src/utils/dateUtils.js:93-101 | `setHours(0,0,0,0)` and `setHours(23,59,59,999)` move an instant to the first and last millisecond of its own day |
| Calendar.SetDateShift | src/pages/ReportsPage.js:84-90 | `setDate(getDate() + k)` moves an instant by exactly `k` days and keeps its time of day, even across month ends |
| Calendar.YearOf | src/pages/ReportsPage.js:93-104 | `getFullYear()`: the year whose span of days contains the day |
| Calendar.FullYear | src/pages/TimerPage.js:201-202 | `new Date(y, ...)` reads years 0..99 as 1900..1999 and keeps every other year |
| DateUtils.FormatDuration | src/utils/dateUtils.js:77-86 | "Nm" under an hour; "Hh " for whole hours; "Hh Mm" otherwise |
| DateUtils.FormatDurationInjective | src/utils/dateUtils.js:77-86 | two different non-negative durations never render to the same text |
| DateUtils.DistanceLadder | src/utils/dateUtils.js:6-50 | the relative-time ladder: "just now" exactly under a minute; then minutes, hours, days, 30-day months and 360-day years, each in its own interval, with a count of at least 1 |
| DateUtils.Render | src/utils/dateUtils.js:15-49 | the text is "just now" exactly for the just-now distance |
| DateUtils.RenderAgo | src/utils/dateUtils.js:22-49 | a count of units reads as the count's numeral, a space and the unit's name, followed by "s ago" exactly when the count is not 1 and by " ago" exactly when it is 1; the numeral is followed by a non-digit |
| DateUtils.RenderInjective | src/utils/dateUtils.js:15-49 | two distances with non-negative counts that give the same text are the same distance, so the text gives back the count and the unit |
| DateUtils.FormatDistanceToNow | src/utils/dateUtils.js:6-50 | the text is "just now" exactly when less than a minute has passed |
| DateUtils.GetDayBounds | src/utils/dateUtils.js:93-101 | the first and last millisecond of the instant's day, with the instant between them |
| DateUtils.GetWeekBounds | src/utils/dateUtils.js:108-121 | starts on the Monday at or before the date (six days back from a Sunday) at 00:00:00.000 and ends six days later at 23:59:59.999; the date lies inside |
| DateUtils.WeekStartProof | src/utils/dateUtils.js:109-114 | the `setDate(getDate() - day + (day === 0 ? -6 : 1))` and `setHours(0,0,0,0)` steps land on the start of that week's Monday |
| DateUtils.WeekEndProof | src/utils/dateUtils.js:116-118 | `setDate(getDate() + 6)` and `setHours(23,59,59,999)` from the Monday give the end of the following Sunday |
| DateUtils.WeekContainsDate | src/utils/dateUtils.js:108-121 | the week's first day is a Monday and the week contains the date |
| DateUtils.GetMonthBounds | src/utils/dateUtils.js:128-139 | as written: the start is the first of the month; the end is the month's last day only when the day of the month fits into the next month, and otherwise the last day of the next month |
| DateUtils.MonthBoundsProof | src/utils/dateUtils.js:129-136 | `setDate(1)` gives the month's first day; `setMonth(getMonth() + 1)` then `setDate(0)` lands in this month or in the next one, depending on whether the day fits |
| DateUtils.LandInNextMonth | src/utils/dateUtils.js:133-135 | a day that fits into the next month stays in it, and day 0 of that month is this month's last day |
| DateUtils.LandAfterNextMonth | src/utils/dateUtils.js:133-135 | a day that does not fit rolls into the month after, and day 0 there is the next month's last day |
| DateUtils.MonthStartProof | src/utils/dateUtils.js:129-131 | `setDate(1)` then `setHours(0,0,0,0)` is the first millisecond of the month |
| DateUtils.StepBackToDayZero | src/utils/dateUtils.js:135-136 | `setDate(0)` then `setHours(23,59,59,999)` is the last millisecond of the previous month |
| DateUtils.January31Overflow | src/utils/dateUtils.js:133-136 | the counterexample: from any instant on 31 January of a common year, `setMonth(getMonth() + 1)`, `setDate(0)` and `setHours(23, 59, 59, 999)` give the end of the last day of February, which is not the last day of January |
| DateUtils.GetMonthBoundsCorrected | src/utils/dateUtils.js:128-139 | the intended bounds, with the end stepped from the first of the month instead of from the date: the first and last millisecond of the date's own month, with the date between them |
| StableSort.SortPermutes | src/pages/ReportsPage.js:152 | the sort permutes its input (same multiset) |
| StableSort.SortDescending | src/pages/ReportsPage.js:152 | the sort leaves keys in non-increasing order, as the `b - a` comparator asks |
| StableSort.SortStable | src/pages/ReportsPage.js:180 | the sort is stable: for every key, the elements with that key keep their original relative order |
| StableSort.SortSum | src/pages/ReportsPage.js:157 | sorting keeps any sum over the elements |
| StableSort.SortDistinct | src/pages/ReportsPage.js:180 | sorting keeps a list free of repeated keys |
| StableSort.SortInPlace | src/pages/ReportsPage.js:152 | the in-place array insertion sort leaves the array equal to the reference stable sort of its old contents |
| StableSort.InsertAt | src/pages/ReportsPage.js:152 | one insertion step on the array: the first `i + 1` cells become the reference insertion of the old `a[i]` into the old prefix, and the cells after them are untouched |
| StableSort.InsertAfterLarger | src/pages/ReportsPage.js:152 | an inserted element lands right after the last element whose key is at least its own, ahead of every smaller key |
| Grouping.TotalsKeys | src/pages/ReportsPage.js:161-173 | the map's keys come out in first-insertion order: the de-duplicated list of the entries' keys |
| Grouping.TotalsMinutes | src/pages/ReportsPage.js:161-171 | each key's total is the sum of the durations of the entries with that key |
| Grouping.TotalsSum | src/pages/ReportsPage.js:161-171 | the totals add up to the sum of all durations |
| Grouping.TotalsAt | src/pages/ReportsPage.js:173-177 | every row's total is its key's sum, and every key comes from some entry |
| Grouping.RepresentsAdd | src/pages/ReportsPage.js:166-170 | one `has ? set(get + d) : set(d)` step keeps the map and its insertion order in step with the reference list |
| Grouping.GroupDurations | src/pages/ReportsPage.js:161-177 | the forEach over a Map yields exactly the reference insertion-ordered totals |
| Reports.WindowStart | src/pages/ReportsPage.js:129-130 | the start day's midnight, or the epoch when no start day is set |
| Reports.WindowEnd | src/pages/ReportsPage.js:132-133 | the end day's last millisecond, or the end of today when no end day is set |
| Reports.FilterContents | src/pages/ReportsPage.js:136-149 | the filter keeps exactly the entries in the date window whose client and project match ("all" matches everything), each with its full multiplicity |
| Reports.FilterWithKey | src/pages/ReportsPage.js:136-152 | filtering keeps the relative order of entries with equal start times |
| Reports.ClientRows | src/pages/ReportsPage.js:173-177 | one row per map entry: its client id, the client's name as `getClientName` gives it, and its total |
| Reports.ProjectRows | src/pages/ReportsPage.js:197-200 | one row per map entry: its project and its total |
| Reports.SortNewestFirst | src/pages/ReportsPage.js:152 | the filtered entries sorted by start time, newest first, with a stable sort |
| Reports.BuildClientTotals | src/pages/ReportsPage.js:161-182 | the client totals: grouped in first-seen order, then stably sorted by duration, highest first |
| Reports.BuildProjectTotals | src/pages/ReportsPage.js:185-205 | the project totals: grouped in first-seen order, then stably sorted by duration, highest first |
| Reports.ApplyFilters | src/pages/ReportsPage.js:119-206 | the whole report: an empty entry list gives an empty report; otherwise the sorted selection, its total and both total tables |
| Reports.ReportEntries | src/pages/ReportsPage.js:119-157 | the report lists exactly the matching entries (same multiplicities), newest first, with ties in input order; its total is the sum of their durations |
| Reports.ClientRowsSum | src/pages/ReportsPage.js:173-177 | building rows keeps the sum of the totals |
| Reports.ProjectRowsSum | src/pages/ReportsPage.js:197-200 | building rows keeps the sum of the totals |
| Reports.ClientTotalsDistinct | src/pages/ReportsPage.js:161-182 | each client id appears in at most one row |
| Reports.ClientTotalsEach | src/pages/ReportsPage.js:161-182 | each row's duration is the sum of that client's selected entries and its name is that client's name; the client occurs in the selection |
| Reports.ClientTotalsCover | src/pages/ReportsPage.js:161-182 | every selected entry's client has a row |
| Reports.ClientTotalsSum | src/pages/ReportsPage.js:157-182 | the client totals add up to the report total and are ordered by duration, highest first |
| Reports.ProjectTotalsDistinct | src/pages/ReportsPage.js:185-205 | each project appears in at most one row |
| Reports.ProjectTotalsEach | src/pages/ReportsPage.js:185-205 | each row's duration is the sum of that project's selected entries; the project occurs in the selection |
| Reports.ProjectTotalsCover | src/pages/ReportsPage.js:185-205 | every selected entry's project has a row |
| Reports.ProjectTotalsSum | src/pages/ReportsPage.js:157-205 | the project totals add up to the report total and are ordered by duration, highest first |
| Reports.ReportTotalsOrder | src/pages/ReportsPage.js:173-203 | rows of equal duration keep the Map's first-insertion order |
| Reports.ProjectLists | src/pages/ReportsPage.js:217-221 | one project list per client, in client order |
| Reports.AddAll | src/pages/ReportsPage.js:219-220 | adding labels to a Set keeps it equal to the de-duplicated, first-seen list of everything added |
| Reports.AllProjects | src/pages/ReportsPage.js:215-223 | every project of every client, each once, in first-seen order, and nothing else |
| Reports.ProjectOptions | src/pages/ReportsPage.js:226-233 | for "all", every project of every client; otherwise the first matching client's projects, or none |
| ReportRanges.TodayRange | src/pages/ReportsPage.js:76-81 | today's day, as start and end |
| ReportRanges.WeekRange | src/pages/ReportsPage.js:83-90 | the Sunday at or before today through the following Saturday |
| ReportRanges.MonthRange | src/pages/ReportsPage.js:92-97 | the first through the last day of the current month; `new Date` reads a year in 0..99 as 1900..1999, so for such years the month is that of year 1900 + y |
| ReportRanges.YearRange | src/pages/ReportsPage.js:99-104 | 1 January through 31 December of the current year (of year 1900 + y for a year y in 0..99) |
| ReportRanges.RangeFor | src/pages/ReportsPage.js:69-116 | the range for each preset, with the month and year presets going through `new Date`'s two-digit-year rule; "custom" and unknown names leave the dates alone |
| ReportRanges.ShiftedDay | src/pages/ReportsPage.js:85-89 | `setDate(getDate() + k)` followed by `setHours` lands on the day `k` days away |
| ReportRanges.NewDateDay | src/pages/ReportsPage.js:93-103 | `new Date(y, m, d)` followed by `setHours` lands on that (rolled-over) calendar day, of year 1900 + y when y is in 0..99 and of year y otherwise |
| ReportRanges.MonthEndDay | src/pages/ReportsPage.js:95 | day 0 of the following month is the month's last day |
| ReportRanges.YearEndDay | src/pages/ReportsPage.js:100-102 | 1 January is the year's first day and 31 December its last |
| ReportRanges.WeekRangeIsSundayToSaturday | src/pages/ReportsPage.js:83-90 | the preset week starts on a Sunday, ends on a Saturday six days later and contains today |
| ReportRanges.MonthRangeContainsNow | src/pages/ReportsPage.js:92-97 | the preset month runs from day 1 to the month's length and contains today |
| ReportRanges.YearRangeContainsNow | src/pages/ReportsPage.js:99-104 | the preset year contains today |
| ReportsView.ReportsPage.constructor | src/pages/ReportsPage.js:33-61 | the filters start at "all" and "all"; the dates start at the current Sunday-to-Saturday week; the report starts empty |
| ReportsView.ReportsPage.SelectClient | src/pages/ReportsPage.js:293-296 | choosing a client resets the project filter to "all" and changes nothing else |
| ReportsView.ReportsPage.SelectProject | src/pages/ReportsPage.js:313 | sets the project filter only |
| ReportsView.ReportsPage.SetDates | src/pages/ReportsPage.js:360-371 | sets the custom start and end days only |
| ReportsView.ReportsPage.HandleDateRangeChange | src/pages/ReportsPage.js:69-116 | records the preset and sets both days for today, week, month and year; keeps the custom days otherwise |
| ReportsView.ReportsPage.Refresh | src/pages/ReportsPage.js:64-66 | the report is recomputed from the current filters; the filters do not change |
| ReportsView.ReportsPage.ExportCsv | src/pages/ReportsPage.js:236-273 | nothing to export exactly when the report is empty; otherwise the CSV text as written, fields joined by "," without quoting, of the report's entries |
| Csv.Row | src/pages/ReportsPage.js:246-255 | one field per header column, each under its header: formatted date, client name, project, description, formatted start and end clocks, the duration's numeral, and "Yes" exactly for a billable entry ("No" otherwise) |
| Csv.Rows | src/pages/ReportsPage.js:246-255 | one row per entry, in report order |
| Csv.ExportAsWritten | src/pages/ReportsPage.js:236-262 | as written: no text exactly when there are no entries; otherwise fields joined by "," and lines by "\n", with no quoting |
| Csv.PlainReadsBack | src/pages/ReportsPage.js:258-261 | when no field holds a comma or a newline, splitting the text at newlines and then commas gives back every record |
| Csv.ExportAsWrittenReadsBack | src/pages/ReportsPage.js:236-262 | when no field holds a comma or a newline, the export reads back as the header and one row per entry |
| Csv.CommaShiftsColumns | src/pages/ReportsPage.js:250-259 | each comma in a description adds one extra column to that line |
| Csv.CommaShiftsColumnsExample | src/pages/ReportsPage.js:250-259 | the counterexample: the description "a,b" turns the 8-column row into 9 columns |
| Csv.ExportQuoted | src/pages/ReportsPage.js:236-262 | the intended export: no text exactly when there are no entries; otherwise every field in double quotes with inner quotes doubled |
| Csv.DocumentRoundTrip | src/pages/ReportsPage.js:258-261 | parsing a quoted document gives back exactly its records, whatever their fields contain |
| Csv.ExportQuotedReadsBack | src/pages/ReportsPage.js:236-262 | the quoted export reads back as the header followed by one row per entry |
| Timer.TwoDigits | src/pages/TimerPage.js:120-124 | `toString().padStart(2, '0')` gives at least two digits that read back as the number |
| Timer.ElapsedTimeReadsBack | src/pages/TimerPage.js:115-125 | "HH:MM:SS" has three numeric fields; minutes and seconds have two digits and are under 60; and h*3600 + m*60 + s gives back the seconds |
| Timer.FormatMinutes | src/pages/TimerPage.js:128-133 | "Hh Mm" with the whole hours and the remaining minutes |
| Timer.FormatMinutesInjective | src/pages/TimerPage.js:128-133 | two different non-negative minute counts never give the same label |
| Timer.FormatMinutesAndFormatDuration | src/pages/TimerPage.js:128-133 | the timer page's label agrees with the date helpers' `formatDuration` when hours and minutes are both nonzero, and adds "0h " under an hour |
| Timer.SameDateIsSameDay | src/pages/TimerPage.js:67-74 | comparing date, month and year is the same as comparing days |
| Timer.TodayEntries | src/pages/TimerPage.js:67-74 | today's entries all come from the list and start today |
| Timer.TodayEntriesContents | src/pages/TimerPage.js:67-74 | an entry is listed for today exactly when it is in the list and starts between today's first and last millisecond |
| Timer.TotalTimeTodayAppend | src/pages/TimerPage.js:76 | adding an entry raises today's total by its duration exactly when it starts today |
| Timer.TotalTimeTodayBounds | src/pages/TimerPage.js:76 | with non-negative durations, today's total lies between 0 and the sum of all durations |
| Timer.JsNumber | src/pages/TimerPage.js:196-199 | `Number` of a blank text is 0; otherwise any number read is a non-negative decimal |
| Timer.Validate | src/pages/TimerPage.js:189-211 | a rejection carries one of the two alert messages |
| Timer.ValidateCases | src/pages/TimerPage.js:189-211 | "Please fill in all required fields" exactly when a field is empty; "End time must be after start time" exactly when the fields are filled, the times parse and the end is not after the start; acceptance exactly when the fields are filled and the times parse in order, with the parsed start and end and their floor difference in minutes; `NaN` times exactly when the fields are filled and the times do not parse |
| Timer.MinuteFloor | src/pages/TimerPage.js:242-243 | dropping seconds and milliseconds stays in the same day and within a minute |
| Timer.EditFormReadsBack | src/pages/TimerPage.js:238-243 | the date and clocks the edit dialog fills in parse back to the start and end, rounded down to the minute, with the end moved onto the start's day |
| Timer.SameDayEditKeepsTimes | src/pages/TimerPage.js:234-287 | re-saving a same-day, whole-minute entry unchanged gives back its own start, end and duration |
| Timer.OvernightEditRejected | src/pages/TimerPage.js:234-287 | re-saving an entry that ends on a later day at an earlier clock time is rejected with the end-after-start alert |
| TimerView.FilledForm | src/pages/TimerPage.js:234-254 | the edit dialog shows the entry's client, project, ISO date and HH:MM clocks |
| TimerView.FilledFormValidates | src/pages/TimerPage.js:234-287 | the filled-in edit form of a same-day, whole-minute entry validates to that entry's times |
| TimerView.TimerPage.constructor | src/pages/TimerPage.js:41-61 | the initial state: not running, billable, and manual clocks "09:00" and "10:00" on today's date |
| TimerView.TimerPage.SelectClient | src/pages/TimerPage.js:339-343 | choosing a client, which the page allows only while the timer is stopped, clears the chosen project and changes nothing else |
| TimerView.TimerPage.StartTimer | src/pages/TimerPage.js:136-150 | an alert when no client or no project is chosen; otherwise running from now with 0 elapsed |
| TimerView.TimerPage.OnStartTimerEvent | src/pages/TimerPage.js:79-93 | the tray's start request is ignored while running and otherwise behaves as the start button |
| TimerView.TimerPage.Tick | src/pages/TimerPage.js:96-112 | while running, elapsed seconds is the floor of (now - start) / 1000; otherwise nothing changes |
| TimerView.TimerPage.StopTimer | src/pages/TimerPage.js:153-176 | when running, gives an entry from start to now with the floor of the minutes, then stops and clears the description; otherwise nothing |
| TimerView.TimerPage.OpenManualDialog | src/pages/TimerPage.js:179-181 | opens the manual dialog and changes nothing else |
| TimerView.TimerPage.CloseManualDialog | src/pages/TimerPage.js:184-186 | closes the manual dialog and changes nothing else |
| TimerView.TimerPage.SaveManualEntry | src/pages/TimerPage.js:189-231 | an accepted form hands over a new entry with the parsed span; a filled form whose date or clocks do not parse hands over an entry with `NaN` times; both then reset the form and close the dialog; a rejected one alerts and changes nothing |
| TimerView.TimerPage.OpenEditDialog | src/pages/TimerPage.js:234-254 | fills the edit form from the entry; for a same-day, whole-minute entry that form validates back to the entry's own times |
| TimerView.TimerPage.CloseEditDialog | src/pages/TimerPage.js:257-260 | closes the edit dialog and forgets the entry |
| TimerView.TimerPage.SaveEditedEntry | src/pages/TimerPage.js:263-303 | an accepted form hands over the edited entry, keeping its id; a filled form whose date or clocks do not parse hands over the entry with `NaN` times and its id; both then close the dialog; a rejected one alerts and changes nothing |
| Clients.ClientGroupsPartition | src/pages/ClientsPage.js:144-145 | the business and individual groups split the client list: every client lands in exactly one group, and a missing type counts as business |
| Clients.AddLabel | src/pages/ClientsPage.js:74-87 | a blank input is ignored; a trimmed label already present is a duplicate; otherwise the trimmed label is appended |
| Clients.AddLabelNoDup | src/pages/ClientsPage.js:74-87 | adding a label keeps the label list free of duplicates |
| Clients.AddThenRemove | src/pages/ClientsPage.js:74-92 | removing a label that was just added restores the previous list |
| Clients.RemoveLabel | src/pages/ClientsPage.js:90-92 | removal drops every copy of the label and keeps every other label in order |
| Clients.LabelEditsKeepWellFormed | src/pages/ClientsPage.js:74-92 | adding and removing keep the labels trimmed, nonblank and distinct |
| Clients.SaveOutcomeOf | src/pages/ClientsPage.js:103-134 | "Client name is required" exactly when the name is blank; "At least one project type is required" exactly when the name is set and there are no labels; a new draft exactly when not editing an existing client |
| Clients.SavedClientWellFormed | src/pages/ClientsPage.js:114-130 | a saved client has a trimmed, nonblank name and at least one label; a draft has no id; an update keeps the edited client's id and other fields |
| Clients.ClientDialog.constructor | src/pages/ClientsPage.js:35-42 | the initial dialog state: closed, type business, no labels |
| Clients.ClientDialog.OpenAddDialog | src/pages/ClientsPage.js:45-54 | opens an empty add form |
| Clients.ClientDialog.OpenEditDialog | src/pages/ClientsPage.js:57-66 | opens the form filled from the client, with a missing type shown as business |
| Clients.ClientDialog.CloseDialog | src/pages/ClientsPage.js:69-71 | closes the dialog and keeps the form |
| Clients.ClientDialog.AddProject | src/pages/ClientsPage.js:74-87 | applies the label edit: ignores a blank input, sets the duplicate error, or appends and clears the input and error; no duplicates are introduced |
| Clients.ClientDialog.RemoveProject | src/pages/ClientsPage.js:90-92 | drops the label from the form's list |
| Clients.ClientDialog.SaveClient | src/pages/ClientsPage.js:103-134 | an invalid form shows its error; a valid one hands the draft or the updated client to the store and closes |
| App.ReplaceClientSpec | src/App.js:147-148 | `map(c => c.id === id ? u : c)` keeps the length, replaces every client with that id and leaves the others |
| App.ReplaceEntrySpec | src/App.js:206-207 | the same for time entries |
| App.DeleteClientCascade | src/App.js:163-180 | deleting a client keeps exactly the other clients and exactly the entries of other clients; what is kept and what is dropped together make up the old lists |
| App.DeleteEntrySpec | src/App.js:222-236 | deleting an entry keeps exactly the entries with other ids, in order |
| App.AdditionsKeepConsistent | src/App.js:183-219 | appending or substituting a consistent entry keeps every entry's start before its end and its duration equal to the floor of its minutes |
| App.RemovalsKeepConsistent | src/App.js:163-236 | deleting entries keeps that consistency |
| App.AcceptedEntryConsistent | src/pages/TimerPage.js:189-231 | an entry built from an accepted dialog form is consistent |
| App.MockDataConsistent | src/App.js:81-106 | the browser mock entries are consistent and each names a mock client and one of its projects |
| App.Store.Load | src/App.js:67-116 | the bridge's lists when both reads succeed; empty lists when one fails; the mock data in a browser |
| App.Store.AddClient | src/App.js:124-140 | the bridge's client, or in a browser the client with a fresh id, is appended; a failure adds nothing and returns nothing |
| App.Store.UpdateClient | src/App.js:143-160 | the reply, when truthy, replaces every client with the same id; a failure changes nothing |
| App.Store.DeleteClient | src/App.js:163-180 | on success the client and all of its time entries are removed; a failure returns false and changes nothing |
| App.Store.AddTimeEntry | src/App.js:183-199 | appends the stored entry, or nothing on failure; consistency is kept |
| App.Store.UpdateTimeEntry | src/App.js:202-219 | the reply, when truthy, replaces every entry with the same id; consistency is kept |
| App.Store.DeleteTimeEntry | src/App.js:222-236 | on success the entries with that id are removed; consistency is kept |
| Lists.KeepPartition | src/pages/ClientsPage.js:144-145 | `filter(p)` and `filter(not p)` split a list, as a multiset and in length |
| Lists.Dedup | src/pages/ReportsPage.js:215-223 | the contents of a `Set` filled from a list: no duplicates, and exactly the list's members |
| Text.SplitJoin | src/pages/ReportsPage.js:258-261 | `split(sep)` undoes `join(sep)` when no part holds the separator |
| Text.JoinSplit | src/pages/TimerPage.js:197-199 | `join(sep)` undoes `split(sep)`: splitting loses no character other than the separators |
| Text.TrimIdempotent | src/pages/ClientsPage.js:75-84 | trimming twice is trimming once |
| Text.TrimIsInfix | src/pages/ClientsPage.js:104-115 | the trimmed text is a slice of the original that neither starts nor ends with white space |
| Numerals.ParseNatToString | src/pages/TimerPage.js:120-124 | a decimal numeral reads back as its number |
| Numerals.PadStartValue | src/pages/TimerPage.js:120-124 | zero-padding on the left keeps a numeral's value |
| Numerals.FloorDiv | src/pages/TimerPage.js:100 | `Math.floor(a / b)` for a positive divisor, negative dividends included |
| Numerals.JsRem | src/pages/TimerPage.js:117-118 | JavaScript's `%`: the result has the dividend's sign |

## Left out

- Persistence, the desktop bridge and the main process are not modelled. Each bridge call becomes a `Host` parameter. It is either a desktop reply (resolved or thrown) or the browser fallback.
- App.Store.AddClient and App.Store.AddTimeEntry: a desktop reply that resolves to a falsy value would be appended as-is. The model's reply is always a record.
- App.Store.Load: `loadData` stores whatever the desktop reads resolve to, lists or not. The model's reply is always a list of records.
- TimerView.TimerPage.StopTimer and App.Store.AddClient, UpdateClient, DeleteClient, AddTimeEntry, UpdateTimeEntry and DeleteTimeEntry: each handler runs as one atomic step. In the app each one awaits the desktop bridge partway through. `stopTimer` clears `isRunning` only after `onAddTimeEntry` returns, so a second Stop click during the call hands over a second entry with a later end. The store handlers write back the lists they read before their await, so two overlapping calls lose one update. Neither interleaving is captured.
- Time zones and daylight saving time: all instants are local wall-clock milliseconds.
- `new Date('YYYY-MM-DD')` parses as UTC midnight, and `toISOString()` prints the UTC date. The model reads both as the local calendar day. West of UTC, the dates the reports page stores and the dates the edit dialog shows can be one day off; the model does not capture that.
- `formatDate`, `formatTime` and `toLocaleTimeString` produce locale-dependent text. The CSV export takes them as an opaque `Formats` parameter.
- `Date.now()` is a `now` parameter. Ids made from `Date.now().toString()` are a `freshId` parameter.
- The one-second `setInterval` and its cleanup are left out. `TimerView.TimerPage.Tick` is one firing of the interval.
- `totalHours` (minutes / 60, a float) and the percentage bars are display values of the page and are not modelled. The model keeps the integer total in minutes.
- `Blob`, object URLs and the download link of the CSV export are left out. The export ends with the CSV text.
- `window.confirm` before a delete and `alert` are UI. The page-level delete handlers (TimerPage.js:306-311, ClientsPage.js:137-141) only forward to the store deletes, which are modelled. Alerts are returned as messages.
- The Enter-key handler of the label input (ClientsPage.js:95-100) only calls the label add, which is modelled.
- JSX rendering, themes, tabs, the desktop-shortcut button and the settings page are presentation or host features and are out of scope.
- `Number()` on the dialog fields reads plain decimal digits and blank text. Other JavaScript numeric syntaxes (signs, fractions, exponents, hex) become not-a-number, as a date or clock that does not parse does.
- TimerView.TimerPage.SaveManualEntry and SaveEditedEntry: when the date or a clock does not parse, the page code still hands over an entry (the `durationMs <= 0` test is false for `NaN`), then resets the form or closes the dialog. In that entry the duration is `NaN` and so is each instant that does not parse: both when the date does not parse, and only one when one clock does not. The other instant is then a valid number. The model represents the entry by `TimerView.SaveNaN`, which keeps the other fields but drops both instants, since `NaN` is not an integer. `App.Store` is never given such an entry.
- Timer.ParseSpan, Timer.Validate and Calendar.NewDate: JavaScript numbers are doubles, and a `Date` outside ±8.64e15 ms from the epoch is Invalid Date. The model's numbers and instants are unbounded integers. A form whose date or clocks lie beyond that range (the end clock "99999999:00", or the date "275760-09-13") takes the `NaN` path in the app, but the model accepts it with the huge instants and duration. Digit strings too long for a double to hold exactly are likewise read exactly.
- Records.Client: the model gives every client a `projects` list. The page code also copes with a client record that has none: the all-projects picker skips it (ReportsPage.js:218), the client picker returns `undefined` for it (ReportsPage.js:232) and the edit dialog reads it as empty (ClientsPage.js:62). Such records are not represented.
- Timer.Validate: its own contract only bounds the alert messages. The full behaviour is stated by `Timer.ValidateCases`.

## Findings

| source | as written | input that shows it | evidently intended | confidence | as-written member | corrected member |
|---|---|---|---|---|---|---|
| src/utils/dateUtils.js:133-136 | the month's end is found by `setMonth(getMonth() + 1)` on the date itself, then `setDate(0)`; when the day of the month exceeds the next month's length, the first step overflows into the month after | 31 January of a common year: the end becomes 28 February 23:59:59.999 instead of 31 January | the last millisecond of the date's own month | high (not executed) | DateUtils.GetMonthBounds, DateUtils.January31Overflow | DateUtils.GetMonthBoundsCorrected |
| src/pages/ReportsPage.js:246-261 | CSV fields are joined with "," without quoting | an entry whose description is "a,b" (or any date formatted as "Jan 5, 2024") gives a 9-column row under the 8-column header | fields quoted, so that the file reads back as the header and one row per entry | high (not executed) | Csv.ExportAsWritten, Csv.CommaShiftsColumnsExample | Csv.ExportQuoted, Csv.ExportQuotedReadsBack |
