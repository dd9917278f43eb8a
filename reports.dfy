/**
 * The report computed by the reports page (`applyFilters`): the entries that
 * pass the client, project and date filters, newest first, their summed
 * duration, and per-client and per-project totals, largest first.
 */
module Reports {
  import opened Wrappers
  import opened Lists
  import opened Records
  import opened Calendar
  import opened StableSort
  import opened Grouping

  /** The selection value that disables the client or the project filter. */
  const All: string := "all"

  /**
   * The filter state. `startDay` and `endDay` are the epoch days of the
   * `YYYY-MM-DD` date fields; `None` is an empty field.
   */
  datatype Filters = Filters(client: string, project: string, startDay: Option<int>, endDay: Option<int>)

  datatype ClientTotal = ClientTotal(clientId: string, clientName: string, duration: int)
  datatype ProjectTotal = ProjectTotal(project: string, duration: int)

  /** `filteredEntries`, the total in minutes (`totalHours * 60`), `clientTotals` and `projectTotals`. */
  datatype Report = Report(
    entries: seq<TimeEntry>,
    totalMinutes: int,
    clientTotals: seq<ClientTotal>,
    projectTotals: seq<ProjectTotal>)

  function StartOf(e: TimeEntry): int { e.startTime }
  function ClientIdOf(e: TimeEntry): string { e.clientId }
  function ProjectOf(e: TimeEntry): string { e.project }
  function ClientDuration(c: ClientTotal): int { c.duration }
  function ClientIdOfTotal(c: ClientTotal): string { c.clientId }
  function ProjectDuration(p: ProjectTotal): int { p.duration }
  function ProjectOfTotal(p: ProjectTotal): string { p.project }

  /** `startDateTime`: the start day's midnight, or the epoch when no start day is set. */
  function WindowStart(f: Filters): (t: int)
    ensures f.startDay.Some? ==> t == DayStart(f.startDay.value)
    ensures f.startDay.None? ==> t == 0
  {
    var d := match f.startDay
      case Some(day) => DayStart(day)
      case None => 0;
    SetHoursBounds(d);
    DayOfAt(if f.startDay.Some? then f.startDay.value else 0, 0);
    SetHours(d, 0, 0, 0, 0)
  }

  /** `endDateTime`: the last millisecond of the end day, or of today when no end day is set. */
  function WindowEnd(f: Filters, now: int): (t: int)
    ensures f.endDay.Some? ==> t == DayEnd(f.endDay.value)
    ensures f.endDay.None? ==> t == DayEnd(DayOf(now))
  {
    var d := match f.endDay
      case Some(day) => DayStart(day)
      case None => now;
    SetHoursBounds(d);
    DayOfAt(if f.endDay.Some? then f.endDay.value else 0, 0);
    SetHours(d, 23, 59, 59, 999)
  }

  /** The test inside `timeEntries.filter(...)`. */
  predicate Matches(e: TimeEntry, f: Filters, now: int) {
    WindowStart(f) <= e.startTime <= WindowEnd(f, now) &&
    (f.client == All || e.clientId == f.client) &&
    (f.project == All || e.project == f.project)
  }

  /** `timeEntries.filter(...)`: the matching entries in their original order. */
  function Filter(s: seq<TimeEntry>, f: Filters, now: int): (r: seq<TimeEntry>)
    ensures |r| <= |s|
  {
    if s == [] then []
    else Filter(s[..|s| - 1], f, now) + if Matches(s[|s| - 1], f, now) then [s[|s| - 1]] else []
  }

  /** The filter keeps exactly the matching entries, each as often as it occurs. */
  lemma {:induction false} FilterContents(s: seq<TimeEntry>, f: Filters, now: int)
    ensures forall e :: multiset(Filter(s, f, now))[e] == if Matches(e, f, now) then multiset(s)[e] else 0
    ensures forall e :: e in Filter(s, f, now) <==> e in s && Matches(e, f, now)
  {
    if s != [] {
      var p := s[..|s| - 1];
      FilterContents(p, f, now);
      assert s == p + [s[|s| - 1]];
    }
  }

  /** Filtering commutes with picking the entries of one start time, so the filter keeps the original order. */
  lemma {:induction false} FilterWithKey(s: seq<TimeEntry>, f: Filters, now: int, k: int)
    ensures WithKey(Filter(s, f, now), StartOf, k) == Filter(WithKey(s, StartOf, k), f, now)
  {
    if s != [] {
      var p, x := s[..|s| - 1], s[|s| - 1];
      FilterWithKey(p, f, now, k);
      var fp := Filter(p, f, now);
      var wp := WithKey(p, StartOf, k);
      if Matches(x, f, now) {
        assert (fp + [x])[..|fp + [x]| - 1] == fp;
      } else {
        assert fp + [] == fp;
      }
      if StartOf(x) == k {
        assert (wp + [x])[..|wp + [x]| - 1] == wp;
      } else {
        assert wp + [] == wp;
      }
    }
  }

  /** The filtered entries sorted by start time, newest first (`b.startTime - a.startTime`). */
  function Selected(entries: seq<TimeEntry>, f: Filters, now: int): seq<TimeEntry> {
    Sort(Filter(entries, f, now), StartOf)
  }

  /** `Array.from(clientMap.entries()).map(...)`: each pair with the client's name. */
  function ClientRows(g: seq<Total>, clients: seq<Client>): (rows: seq<ClientTotal>)
    ensures |rows| == |g|
    ensures forall i :: 0 <= i < |g| ==> rows[i] == ClientTotal(g[i].key, ClientName(clients, g[i].key), g[i].minutes)
  {
    seq(|g|, i requires 0 <= i < |g| => ClientTotal(g[i].key, ClientName(clients, g[i].key), g[i].minutes))
  }

  /** `Array.from(projectMap.entries()).map(...)`. */
  function ProjectRows(g: seq<Total>): (rows: seq<ProjectTotal>)
    ensures |rows| == |g|
    ensures forall i :: 0 <= i < |g| ==> rows[i] == ProjectTotal(g[i].key, g[i].minutes)
  {
    seq(|g|, i requires 0 <= i < |g| => ProjectTotal(g[i].key, g[i].minutes))
  }

  /** The client totals built from the selected entries `sel`, largest first. */
  function ClientTotalsOf(sel: seq<TimeEntry>, clients: seq<Client>): seq<ClientTotal> {
    Sort(ClientRows(Totals(sel, ClientIdOf), clients), ClientDuration)
  }

  /** The project totals built from the selected entries `sel`, largest first. */
  function ProjectTotalsOf(sel: seq<TimeEntry>): seq<ProjectTotal> {
    Sort(ProjectRows(Totals(sel, ProjectOf)), ProjectDuration)
  }

  /** The report `applyFilters` computes. */
  function ReportOf(entries: seq<TimeEntry>, clients: seq<Client>, f: Filters, now: int): Report {
    var sel := Selected(entries, f, now);
    Report(sel, Sum(sel, DurationOf), ClientTotalsOf(sel, clients), ProjectTotalsOf(sel))
  }

  /** `filtered.sort((a, b) => b.startTime - a.startTime)` on a fresh array. */
  method SortNewestFirst(filtered: seq<TimeEntry>) returns (sorted: seq<TimeEntry>)
    ensures sorted == Sort(filtered, StartOf)
  {
    var a := new TimeEntry[|filtered|](i requires 0 <= i < |filtered| => filtered[i]);
    assert a[..] == filtered;
    SortInPlace(a, StartOf);
    sorted := a[..];
  }

  /** The client map, its rows with names, and `clientTotalsArray.sort(...)`. */
  method BuildClientTotals(sel: seq<TimeEntry>, clients: seq<Client>) returns (ct: seq<ClientTotal>)
    ensures ct == ClientTotalsOf(sel, clients)
  {
    var byClient := GroupDurations(sel, ClientIdOf);
    var rows := ClientRows(byClient, clients);
    var a := new ClientTotal[|rows|](i requires 0 <= i < |rows| => rows[i]);
    assert a[..] == rows;
    SortInPlace(a, ClientDuration);
    ct := a[..];
  }

  /** The project map, its rows, and `projectTotalsArray.sort(...)`. */
  method BuildProjectTotals(sel: seq<TimeEntry>) returns (pt: seq<ProjectTotal>)
    ensures pt == ProjectTotalsOf(sel)
  {
    var byProject := GroupDurations(sel, ProjectOf);
    var rows := ProjectRows(byProject);
    var a := new ProjectTotal[|rows|](i requires 0 <= i < |rows| => rows[i]);
    assert a[..] == rows;
    SortInPlace(a, ProjectDuration);
    pt := a[..];
  }

  /**
   * `applyFilters`. With no entries at all it resets the report; otherwise it
   * filters, sorts, sums, and builds the two totals arrays.
   */
  method ApplyFilters(entries: seq<TimeEntry>, clients: seq<Client>, f: Filters, now: int) returns (r: Report)
    ensures r == ReportOf(entries, clients, f, now)
  {
    if |entries| == 0 {
      return Report([], 0, [], []);
    }
    var filtered := Filter(entries, f, now);
    var sorted := SortNewestFirst(filtered);
    var total := Sum(sorted, DurationOf);
    var ct := BuildClientTotals(sorted, clients);
    var pt := BuildProjectTotals(sorted);
    r := Report(sorted, total, ct, pt);
  }

  /**
   * The report's entries: exactly the matching entries (with multiplicity),
   * newest first, entries with equal start times in their original order, and
   * the total is their summed duration.
   */
  lemma ReportEntries(entries: seq<TimeEntry>, clients: seq<Client>, f: Filters, now: int)
    ensures var r := ReportOf(entries, clients, f, now);
      (forall e :: e in r.entries <==> e in entries && Matches(e, f, now)) &&
      (forall e :: multiset(r.entries)[e] == if Matches(e, f, now) then multiset(entries)[e] else 0) &&
      Descending(r.entries, StartOf) &&
      (forall k :: WithKey(r.entries, StartOf, k) == Filter(WithKey(entries, StartOf, k), f, now)) &&
      r.totalMinutes == Sum(Filter(entries, f, now), DurationOf)
  {
    var fl := Filter(entries, f, now);
    FilterContents(entries, f, now);
    SortPermutes(fl, StartOf);
    SortDescending(fl, StartOf);
    SortSum(fl, StartOf, DurationOf);
    forall k ensures WithKey(Sort(fl, StartOf), StartOf, k) == Filter(WithKey(entries, StartOf, k), f, now) {
      SortStable(fl, StartOf, k);
      FilterWithKey(entries, f, now, k);
    }
  }

  lemma {:induction false} ClientRowsSum(g: seq<Total>, clients: seq<Client>)
    ensures Sum(ClientRows(g, clients), ClientDuration) == Sum(g, MinutesOf)
  {
    if g != [] {
      assert ClientRows(g, clients)[1..] == ClientRows(g[1..], clients);
      ClientRowsSum(g[1..], clients);
    }
  }

  lemma {:induction false} ProjectRowsSum(g: seq<Total>)
    ensures Sum(ProjectRows(g), ProjectDuration) == Sum(g, MinutesOf)
  {
    if g != [] {
      assert ProjectRows(g)[1..] == ProjectRows(g[1..]);
      ProjectRowsSum(g[1..]);
    }
  }

  /** No client has two rows. */
  lemma ClientTotalsDistinct(sel: seq<TimeEntry>, clients: seq<Client>)
    ensures DistinctBy(ClientTotalsOf(sel, clients), ClientIdOfTotal)
  {
    var g := Totals(sel, ClientIdOf);
    var rows := ClientRows(g, clients);
    TotalsKeys(sel, ClientIdOf);
    assert DistinctBy(rows, ClientIdOfTotal) by {
      assert forall i :: 0 <= i < |g| ==> Keys(g)[i] == rows[i].clientId;
    }
    SortDistinct(rows, ClientDuration, ClientIdOfTotal);
  }

  /** Each client row holds a client with selected entries, its name and the summed duration of its entries. */
  lemma ClientTotalsEach(sel: seq<TimeEntry>, clients: seq<Client>, i: int)
    requires 0 <= i < |ClientTotalsOf(sel, clients)|
    ensures var c := ClientTotalsOf(sel, clients)[i];
      c.duration == MinutesFor(sel, ClientIdOf, c.clientId) &&
      c.clientName == ClientName(clients, c.clientId) &&
      exists j :: 0 <= j < |sel| && sel[j].clientId == c.clientId
  {
    var rows := ClientRows(Totals(sel, ClientIdOf), clients);
    SortPermutes(rows, ClientDuration);
    var c := ClientTotalsOf(sel, clients)[i];
    assert c in rows;
    var q :| 0 <= q < |rows| && rows[q] == c;
    TotalsAt(sel, ClientIdOf, q);
  }

  /** Every client with a selected entry has a row. */
  lemma ClientTotalsCover(sel: seq<TimeEntry>, clients: seq<Client>, j: int)
    requires 0 <= j < |sel|
    ensures exists i :: 0 <= i < |ClientTotalsOf(sel, clients)| && ClientTotalsOf(sel, clients)[i].clientId == sel[j].clientId
  {
    var g := Totals(sel, ClientIdOf);
    var rows := ClientRows(g, clients);
    SortPermutes(rows, ClientDuration);
    TotalsKeys(sel, ClientIdOf);
    assert KeysOf(sel, ClientIdOf)[j] == sel[j].clientId;
    assert sel[j].clientId in Keys(g);
    var q :| 0 <= q < |g| && Keys(g)[q] == sel[j].clientId;
    assert rows[q] in ClientTotalsOf(sel, clients);
  }

  /** The client rows are largest first and add up to the total of the selected entries. */
  lemma ClientTotalsSum(sel: seq<TimeEntry>, clients: seq<Client>)
    ensures Sum(ClientTotalsOf(sel, clients), ClientDuration) == Sum(sel, DurationOf)
    ensures Descending(ClientTotalsOf(sel, clients), ClientDuration)
  {
    SortDescending(ClientRows(Totals(sel, ClientIdOf), clients), ClientDuration);
    var g := Totals(sel, ClientIdOf);
    SortSum(ClientRows(g, clients), ClientDuration, ClientDuration);
    ClientRowsSum(g, clients);
    TotalsSum(sel, ClientIdOf);
  }

  /** No project has two rows. */
  lemma ProjectTotalsDistinct(sel: seq<TimeEntry>)
    ensures DistinctBy(ProjectTotalsOf(sel), ProjectOfTotal)
  {
    var g := Totals(sel, ProjectOf);
    var rows := ProjectRows(g);
    TotalsKeys(sel, ProjectOf);
    assert DistinctBy(rows, ProjectOfTotal) by {
      assert forall i :: 0 <= i < |g| ==> Keys(g)[i] == rows[i].project;
    }
    SortDistinct(rows, ProjectDuration, ProjectOfTotal);
  }

  /** Each project row holds a project with selected entries and their summed duration. */
  lemma ProjectTotalsEach(sel: seq<TimeEntry>, i: int)
    requires 0 <= i < |ProjectTotalsOf(sel)|
    ensures var p := ProjectTotalsOf(sel)[i];
      p.duration == MinutesFor(sel, ProjectOf, p.project) &&
      exists j :: 0 <= j < |sel| && sel[j].project == p.project
  {
    var rows := ProjectRows(Totals(sel, ProjectOf));
    SortPermutes(rows, ProjectDuration);
    var p := ProjectTotalsOf(sel)[i];
    assert p in rows;
    var q :| 0 <= q < |rows| && rows[q] == p;
    TotalsAt(sel, ProjectOf, q);
  }

  /** Every project with a selected entry has a row. */
  lemma ProjectTotalsCover(sel: seq<TimeEntry>, j: int)
    requires 0 <= j < |sel|
    ensures exists i :: 0 <= i < |ProjectTotalsOf(sel)| && ProjectTotalsOf(sel)[i].project == sel[j].project
  {
    var g := Totals(sel, ProjectOf);
    var rows := ProjectRows(g);
    SortPermutes(rows, ProjectDuration);
    TotalsKeys(sel, ProjectOf);
    assert KeysOf(sel, ProjectOf)[j] == sel[j].project;
    assert sel[j].project in Keys(g);
    var q :| 0 <= q < |g| && Keys(g)[q] == sel[j].project;
    assert rows[q] in ProjectTotalsOf(sel);
  }

  /** The project rows are largest first and add up to the total of the selected entries. */
  lemma ProjectTotalsSum(sel: seq<TimeEntry>)
    ensures Sum(ProjectTotalsOf(sel), ProjectDuration) == Sum(sel, DurationOf)
    ensures Descending(ProjectTotalsOf(sel), ProjectDuration)
  {
    SortDescending(ProjectRows(Totals(sel, ProjectOf)), ProjectDuration);
    var g := Totals(sel, ProjectOf);
    SortSum(ProjectRows(g), ProjectDuration, ProjectDuration);
    ProjectRowsSum(g);
    TotalsSum(sel, ProjectOf);
  }

  /**
   * Rows with equal totals keep the order of the `Map`, which is the order in
   * which their keys first occur among the selected (newest-first) entries.
   */
  lemma ReportTotalsOrder(entries: seq<TimeEntry>, clients: seq<Client>, f: Filters, now: int, k: int)
    ensures var sel := Selected(entries, f, now);
      var r := ReportOf(entries, clients, f, now);
      WithKey(r.clientTotals, ClientDuration, k) == WithKey(ClientRows(Totals(sel, ClientIdOf), clients), ClientDuration, k) &&
      Keys(Totals(sel, ClientIdOf)) == Dedup(KeysOf(sel, ClientIdOf)) &&
      WithKey(r.projectTotals, ProjectDuration, k) == WithKey(ProjectRows(Totals(sel, ProjectOf)), ProjectDuration, k) &&
      Keys(Totals(sel, ProjectOf)) == Dedup(KeysOf(sel, ProjectOf))
  {
    var sel := Selected(entries, f, now);
    SortStable(ClientRows(Totals(sel, ClientIdOf), clients), ClientDuration, k);
    SortStable(ProjectRows(Totals(sel, ProjectOf)), ProjectDuration, k);
    TotalsKeys(sel, ClientIdOf);
    TotalsKeys(sel, ProjectOf);
  }

  /** The project-type lists of the clients, in order. */
  function ProjectLists(clients: seq<Client>): (ps: seq<seq<string>>)
    ensures |ps| == |clients| && forall i :: 0 <= i < |clients| ==> ps[i] == clients[i].projects
  {
    seq(|clients|, i requires 0 <= i < |clients| => clients[i].projects)
  }

  /** `projects.forEach(p => set.add(p))` on a set that holds `Dedup(before)`. */
  method AddAll(current: seq<string>, ghost before: seq<string>, ps: seq<string>) returns (r: seq<string>)
    requires current == Dedup(before)
    ensures r == Dedup(before + ps)
  {
    r := current;
    var j := 0;
    assert before + ps[..0] == before;
    while j < |ps|
      invariant 0 <= j <= |ps|
      invariant r == Dedup(before + ps[..j])
    {
      DedupAppend(before + ps[..j], ps[j]);
      assert before + ps[..j + 1] == (before + ps[..j]) + [ps[j]];
      if ps[j] !in r {
        r := r + [ps[j]];
      }
      j := j + 1;
    }
    assert ps[..j] == ps;
  }

  /**
   * `getAllProjects`: every project type of every client, each once, in the
   * order in which a `Set` receives them.
   */
  method AllProjects(clients: seq<Client>) returns (projects: seq<string>)
    ensures projects == Dedup(Flatten(ProjectLists(clients)))
    ensures NoDup(projects)
    ensures forall p :: p in projects <==> exists i :: 0 <= i < |clients| && p in clients[i].projects
  {
    ghost var lists := ProjectLists(clients);
    projects := [];
    var i := 0;
    while i < |clients|
      invariant 0 <= i <= |clients|
      invariant projects == Dedup(Flatten(lists[..i]))
    {
      projects := AddAll(projects, Flatten(lists[..i]), clients[i].projects);
      assert lists[..i + 1] == lists[..i] + [clients[i].projects];
      FlattenAppend(lists[..i], clients[i].projects);
      i := i + 1;
    }
    assert lists[..i] == lists;
  }

  /** `getClientProjects`: all project types for "all", else the selected client's. */
  method ProjectOptions(clients: seq<Client>, clientId: string) returns (projects: seq<string>)
    ensures clientId == All ==> projects == Dedup(Flatten(ProjectLists(clients)))
    ensures clientId != All ==> projects == ClientProjects(clients, clientId)
  {
    if clientId == All {
      projects := AllProjects(clients);
    } else {
      projects := ClientProjects(clients, clientId);
    }
  }
}
