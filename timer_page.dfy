/**
 * The state of the time tracker page: a running-timer session and the form
 * shared by the manual entry dialog and the edit dialog. Every handler that
 * produces an entry returns it to the caller, which stores it (see App).
 */
module TimerView {
  import opened Wrappers
  import opened Numerals
  import opened Calendar
  import opened Records
  import opened Timer

  const SelectClientMessage: string := "Please select a client before starting the timer"
  const SelectProjectMessage: string := "Please select a project before starting the timer"

  /** The timer session's fields, together. */
  datatype Session = Session(
    isRunning: bool,
    startTime: Option<int>,
    elapsedTime: int,
    client: string,
    project: string,
    description: string,
    billable: bool)

  /** The dialogs' fields, together: the form and which dialog shows it. */
  datatype Dialogs = Dialogs(
    manualOpen: bool,
    editOpen: bool,
    editing: Option<TimeEntry>,
    date: string,
    startClock: string,
    endClock: string,
    client: string,
    project: string,
    description: string,
    billable: bool)

  /**
   * What a save handler hands to the store. `Save` is an entry with its parsed
   * times. `SaveNaN` stands for the entry that is handed over when the date or
   * a clock does not parse: the instant that does not parse (both, when the
   * date does not) and the duration are `NaN`, which integers cannot hold, so
   * both instants are dropped and only the other fields are kept.
   */
  datatype Handoff =
    | Save(entry: TimeEntry)
    | SaveNaN(nanId: Option<string>, clientId: string, project: string, description: string, billable: bool)
  {
    /** The id the handed-over entry carries. */
    function Id(): Option<string> {
      if Save? then entry.id else nanId
    }
  }

  /** Whether an entry has a client and a project and lies on one date, on whole minutes, in order. */
  predicate SameDayWholeMinutes(entry: TimeEntry) {
    entry.clientId != "" && entry.project != ""
    && 100 <= GetFullYear(entry.startTime) <= 9999 && DayOf(entry.startTime) == DayOf(entry.endTime)
    && TimeOfDay(entry.startTime) % MsPerMinute == 0 && TimeOfDay(entry.endTime) % MsPerMinute == 0
    && entry.startTime < entry.endTime
  }

  /** The form as `openEditDialog` fills it from an entry. */
  function FilledForm(d: Dialogs, entry: TimeEntry): (f: Dialogs)
    ensures f.client == entry.clientId && f.project == entry.project && f.date == IsoDate(DayOf(entry.startTime))
    ensures f.startClock == ClockText(entry.startTime) && f.endClock == ClockText(entry.endTime)
  {
    d.(editOpen := true, editing := Some(entry),
       date := IsoDate(DayOf(entry.startTime)),
       startClock := ClockText(entry.startTime), endClock := ClockText(entry.endTime),
       client := entry.clientId, project := entry.project,
       description := entry.description, billable := entry.billable)
  }

  /** A form filled from an entry on one date and on whole minutes validates back to the entry's times. */
  lemma FilledFormValidates(d: Dialogs, entry: TimeEntry)
    requires SameDayWholeMinutes(entry)
    ensures var f := FilledForm(d, entry);
            Validate(f.client, f.project, f.date, f.startClock, f.endClock)
            == Accepted(entry.startTime, entry.endTime, (entry.endTime - entry.startTime) / MsPerMinute)
  {
    SameDayEditKeepsTimes(entry.clientId, entry.project, entry.startTime, entry.endTime);
  }

  class TimerPage {
    /** The timer card's state hooks. */
    var session: Session
    /** The state hooks of the two dialogs, which share one form. */
    var dialogs: Dialogs

    /** A start time is recorded exactly while the timer runs. */
    predicate Valid()
      reads this
    {
      session.isRunning <==> session.startTime.Some?
    }

    /** The initial state; the manual date defaults to the date of `today`, the epoch day of `new Date()`. */
    constructor(today: int)
      ensures session == Session(false, None, 0, "", "", "", true)
      ensures dialogs == Dialogs(false, false, None, IsoDate(today), "09:00", "10:00", "", "", "", true)
      ensures Valid()
    {
      session := Session(false, None, 0, "", "", "", true);
      dialogs := Dialogs(false, false, None, IsoDate(today), "09:00", "10:00", "", "", "", true);
    }

    /** Choosing a client clears the chosen project; the picker is disabled while the timer runs. */
    method SelectClient(client: string)
      requires !session.isRunning
      modifies this
      ensures session == old(session).(client := client, project := "")
      ensures dialogs == old(dialogs)
    {
      session := session.(client := client, project := "");
    }

    /**
     * `startTimer`: without a client or a project it only alerts; otherwise the
     * timer runs from `now` with nothing elapsed.
     */
    method StartTimer(now: int) returns (alert: Option<string>)
      requires Valid()
      modifies this
      ensures Valid()
      ensures old(session).client == "" ==> alert == Some(SelectClientMessage) && session == old(session)
      ensures old(session).client != "" && old(session).project == "" ==>
                alert == Some(SelectProjectMessage) && session == old(session)
      ensures old(session).client != "" && old(session).project != "" ==>
                alert == None
                && session == old(session).(isRunning := true, startTime := Some(now), elapsedTime := 0)
      ensures dialogs == old(dialogs)
    {
      if session.client == "" {
        return Some(SelectClientMessage);
      }
      if session.project == "" {
        return Some(SelectProjectMessage);
      }
      session := session.(startTime := Some(now), isRunning := true, elapsedTime := 0);
      alert := None;
    }

    /** The start-timer event from the main process starts the timer only when it is not running. */
    method OnStartTimerEvent(now: int) returns (alert: Option<string>)
      requires Valid()
      modifies this
      ensures Valid()
      ensures old(session).isRunning ==> alert == None && session == old(session)
      ensures !old(session).isRunning && old(session).client == "" ==>
                alert == Some(SelectClientMessage) && session == old(session)
      ensures !old(session).isRunning && old(session).client != "" && old(session).project == "" ==>
                alert == Some(SelectProjectMessage) && session == old(session)
      ensures !old(session).isRunning && old(session).client != "" && old(session).project != "" ==>
                alert == None && session == old(session).(isRunning := true, startTime := Some(now), elapsedTime := 0)
      ensures dialogs == old(dialogs)
    {
      alert := None;
      if !session.isRunning {
        alert := StartTimer(now);
      }
    }

    /**
     * The once-a-second tick while the timer runs: the elapsed time becomes the
     * whole seconds since the start. When idle nothing changes.
     */
    method Tick(now: int)
      requires Valid()
      modifies this
      ensures Valid()
      ensures !old(session).isRunning ==> session == old(session)
      ensures old(session).isRunning ==>
                session == old(session).(elapsedTime := FloorDiv(now - old(session).startTime.value, MsPerSecond))
      ensures dialogs == old(dialogs)
    {
      if session.isRunning {
        session := session.(elapsedTime := FloorDiv(now - session.startTime.value, MsPerSecond));
      }
    }

    /**
     * `stopTimer`: when idle nothing happens; when running, the session becomes
     * an entry of the whole minutes since the start, and the timer and the
     * description are reset while client, project and billable flag stay.
     */
    method StopTimer(now: int) returns (entry: Option<TimeEntry>)
      requires Valid()
      modifies this
      ensures Valid()
      ensures !old(session).isRunning ==> entry == None && session == old(session)
      ensures old(session).isRunning ==>
                var s := old(session);
                entry == Some(TimeEntry(None, s.client, s.project, s.description, s.startTime.value, now,
                                        FloorDiv(now - s.startTime.value, MsPerMinute), s.billable))
                && session == s.(isRunning := false, startTime := None, elapsedTime := 0, description := "")
      ensures dialogs == old(dialogs)
    {
      if !session.isRunning {
        return None;
      }
      var start := session.startTime.value;
      entry := Some(TimeEntry(None, session.client, session.project, session.description,
                              start, now, FloorDiv(now - start, MsPerMinute), session.billable));
      session := session.(isRunning := false, startTime := None, elapsedTime := 0, description := "");
    }

    method OpenManualDialog()
      modifies this
      ensures session == old(session)
      ensures dialogs == old(dialogs).(manualOpen := true)
    {
      dialogs := dialogs.(manualOpen := true);
    }

    method CloseManualDialog()
      modifies this
      ensures session == old(session)
      ensures dialogs == old(dialogs).(manualOpen := false)
    {
      dialogs := dialogs.(manualOpen := false);
    }

    /**
     * `saveManualEntry`: the form is validated. A filled form is handed over
     * (with `NaN` times when the date or a clock does not parse), and then the
     * client, project, description and billable flag are reset and the dialog
     * closed. A rejected form only alerts.
     */
    method SaveManualEntry() returns (alert: Option<string>, handed: Option<Handoff>)
      modifies this
      ensures session == old(session)
      ensures var d := old(dialogs);
              match Validate(d.client, d.project, d.date, d.startClock, d.endClock)
              case Accepted(start, end, duration) =>
                alert == None
                && handed == Some(Save(TimeEntry(None, d.client, d.project, d.description, start, end, duration, d.billable)))
                && dialogs == d.(manualOpen := false, client := "", project := "", description := "", billable := true)
              case Rejected(message) =>
                alert == Some(message) && handed == None && dialogs == d
              case NotANumber =>
                alert == None
                && handed == Some(SaveNaN(None, d.client, d.project, d.description, d.billable))
                && dialogs == d.(manualOpen := false, client := "", project := "", description := "", billable := true)
    {
      alert, handed := None, None;
      var d := dialogs;
      var reset := d.(manualOpen := false, client := "", project := "", description := "", billable := true);
      match Validate(d.client, d.project, d.date, d.startClock, d.endClock) {
        case Accepted(start, end, duration) =>
          handed := Some(Save(TimeEntry(None, d.client, d.project, d.description, start, end, duration, d.billable)));
          dialogs := reset;
        case Rejected(message) =>
          alert := Some(message);
        case NotANumber =>
          handed := Some(SaveNaN(None, d.client, d.project, d.description, d.billable));
          dialogs := reset;
      }
    }

    /**
     * `openEditDialog`: the form shows the entry's start date, its start and
     * end clock times and its other fields. An entry on one date, on whole
     * minutes, with a client and a project, validates back to its own times.
     */
    method OpenEditDialog(entry: TimeEntry)
      modifies this
      ensures session == old(session)
      ensures dialogs == old(dialogs).(
                editOpen := true, editing := Some(entry),
                date := IsoDate(DayOf(entry.startTime)),
                startClock := ClockText(entry.startTime), endClock := ClockText(entry.endTime),
                client := entry.clientId, project := entry.project,
                description := entry.description, billable := entry.billable)
      ensures SameDayWholeMinutes(entry) ==>
                Validate(dialogs.client, dialogs.project, dialogs.date, dialogs.startClock, dialogs.endClock)
                == Accepted(entry.startTime, entry.endTime, (entry.endTime - entry.startTime) / MsPerMinute)
    {
      if SameDayWholeMinutes(entry) {
        FilledFormValidates(dialogs, entry);
      }
      dialogs := FilledForm(dialogs, entry);
    }

    method CloseEditDialog()
      modifies this
      ensures session == old(session)
      ensures dialogs == old(dialogs).(editOpen := false, editing := None)
    {
      dialogs := dialogs.(editOpen := false, editing := None);
    }

    /**
     * `saveEditedEntry`: with no entry under edit nothing happens. Otherwise the
     * form is validated; a filled form overwrites the seven edited fields of the
     * entry (its id is kept), with `NaN` times when the date or a clock does not
     * parse, is handed over and closes the dialog. A rejected form only alerts.
     */
    method SaveEditedEntry() returns (alert: Option<string>, handed: Option<Handoff>)
      modifies this
      ensures session == old(session)
      ensures old(dialogs).editing.None? ==> alert == None && handed == None && dialogs == old(dialogs)
      ensures old(dialogs).editing.Some? ==>
                var d := old(dialogs);
                match Validate(d.client, d.project, d.date, d.startClock, d.endClock)
                case Accepted(start, end, duration) =>
                  alert == None
                  && handed == Some(Save(d.editing.value.(
                                           clientId := d.client, project := d.project, description := d.description,
                                           startTime := start, endTime := end, duration := duration,
                                           billable := d.billable)))
                  && dialogs == d.(editOpen := false, editing := None)
                case Rejected(message) =>
                  alert == Some(message) && handed == None && dialogs == d
                case NotANumber =>
                  alert == None
                  && handed == Some(SaveNaN(d.editing.value.id, d.client, d.project, d.description, d.billable))
                  && dialogs == d.(editOpen := false, editing := None)
      ensures handed.Some? ==> handed.value.Id() == old(dialogs).editing.value.id
    {
      alert, handed := None, None;
      var d := dialogs;
      if d.editing.None? {
        return;
      }
      match Validate(d.client, d.project, d.date, d.startClock, d.endClock) {
        case Accepted(start, end, duration) =>
          handed := Some(Save(d.editing.value.(
                                clientId := d.client, project := d.project, description := d.description,
                                startTime := start, endTime := end, duration := duration, billable := d.billable)));
          dialogs := d.(editOpen := false, editing := None);
        case Rejected(message) =>
          alert := Some(message);
        case NotANumber =>
          handed := Some(SaveNaN(d.editing.value.id, d.client, d.project, d.description, d.billable));
          dialogs := d.(editOpen := false, editing := None);
      }
    }
  }
}
