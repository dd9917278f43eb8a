/**
 * The application's in-memory record store: the `clients` and `timeEntries`
 * lists and the six handlers that change them after a call to the desktop
 * bridge `window.api`. The bridge is an oracle: each call either throws or
 * resolves to a value, which the handlers receive as a parameter. Without the
 * bridge (the browser) the handlers change the lists themselves.
 */
module App {
  import opened Wrappers
  import opened Lists
  import opened Calendar
  import opened Records
  import Timer

  /** What one `window.api` call did: it threw, or it resolved to a value. */
  datatype Reply<T> = Threw | Resolved(value: T)

  /** The host: the desktop bridge answering one call, or a browser without `window.api`. */
  datatype Host<T> = Desktop(reply: Reply<T>) | Browser

  /** The lists the store holds. */
  datatype StoreLists = StoreLists(clients: seq<Client>, timeEntries: seq<TimeEntry>)

  // ---------------------------------------------------------------------------
  // The list transforms

  function HasClientId(c: Client, id: Option<string>): bool { c.id == id }
  function HasEntryId(e: TimeEntry, id: Option<string>): bool { e.id == id }
  function BelongsTo(e: TimeEntry, id: Option<string>): bool { Some(e.clientId) == id }

  // The filter callbacks, one named function each so that every use denotes the same predicate.
  function IsClient(id: Option<string>): Client -> bool { c => HasClientId(c, id) }
  function IsOtherClient(id: Option<string>): Client -> bool { c => !HasClientId(c, id) }
  function IsEntryOf(id: Option<string>): TimeEntry -> bool { e => BelongsTo(e, id) }
  function IsEntryOfOther(id: Option<string>): TimeEntry -> bool { e => !BelongsTo(e, id) }
  function IsEntry(id: Option<string>): TimeEntry -> bool { e => HasEntryId(e, id) }
  function IsOtherEntry(id: Option<string>): TimeEntry -> bool { e => !HasEntryId(e, id) }

  /** `clients.map(c => c.id === id ? u : c)`. */
  function ReplaceClient(clients: seq<Client>, id: Option<string>, u: Client): seq<Client> {
    ReplaceWhere(clients, IsClient(id), u)
  }

  /** `timeEntries.map(e => e.id === id ? u : e)`. */
  function ReplaceEntry(entries: seq<TimeEntry>, id: Option<string>, u: TimeEntry): seq<TimeEntry> {
    ReplaceWhere(entries, IsEntry(id), u)
  }

  /** `clients.filter(c => c.id !== id)`. */
  function RemoveClient(clients: seq<Client>, id: Option<string>): seq<Client> {
    Keep(clients, IsOtherClient(id))
  }

  /** `timeEntries.filter(entry => entry.clientId !== id)`: the cascade of a client's deletion. */
  function RemoveEntriesOf(entries: seq<TimeEntry>, id: Option<string>): seq<TimeEntry> {
    Keep(entries, IsEntryOfOther(id))
  }

  /** `timeEntries.filter(e => e.id !== id)`. */
  function RemoveEntry(entries: seq<TimeEntry>, id: Option<string>): seq<TimeEntry> {
    Keep(entries, IsOtherEntry(id))
  }

  /**
   * Replacing by id changes exactly the elements that carry the id, each into
   * the new record, keeps every other element in its place, and changes
   * nothing when no element carries the id.
   */
  lemma ReplaceClientSpec(clients: seq<Client>, id: Option<string>, u: Client)
    ensures |ReplaceClient(clients, id, u)| == |clients|
    ensures forall i :: 0 <= i < |clients| && clients[i].id == id ==> ReplaceClient(clients, id, u)[i] == u
    ensures forall i :: 0 <= i < |clients| && clients[i].id != id ==> ReplaceClient(clients, id, u)[i] == clients[i]
    ensures (forall i :: 0 <= i < |clients| ==> clients[i].id != id) ==> ReplaceClient(clients, id, u) == clients
  {
  }

  lemma ReplaceEntrySpec(entries: seq<TimeEntry>, id: Option<string>, u: TimeEntry)
    ensures |ReplaceEntry(entries, id, u)| == |entries|
    ensures forall i :: 0 <= i < |entries| && entries[i].id == id ==> ReplaceEntry(entries, id, u)[i] == u
    ensures forall i :: 0 <= i < |entries| && entries[i].id != id ==> ReplaceEntry(entries, id, u)[i] == entries[i]
    ensures (forall i :: 0 <= i < |entries| ==> entries[i].id != id) ==> ReplaceEntry(entries, id, u) == entries
  {
  }

  /**
   * Deleting a client removes every client with that id and every entry of
   * that client, and no other client or entry; what is left keeps its order
   * (the removal distributes over concatenation), and the removed ones are
   * exactly the complement.
   */
  lemma DeleteClientCascade(clients: seq<Client>, entries: seq<TimeEntry>, id: Option<string>)
    ensures forall c :: c in RemoveClient(clients, id) <==> c in clients && c.id != id
    ensures forall e :: e in RemoveEntriesOf(entries, id) <==> e in entries && Some(e.clientId) != id
    ensures multiset(RemoveClient(clients, id)) + multiset(Keep(clients, IsClient(id))) == multiset(clients)
    ensures multiset(RemoveEntriesOf(entries, id)) + multiset(Keep(entries, IsEntryOf(id)))
            == multiset(entries)
    ensures forall a, b :: RemoveClient(a + b, id) == RemoveClient(a, id) + RemoveClient(b, id)
    ensures forall a, b :: RemoveEntriesOf(a + b, id) == RemoveEntriesOf(a, id) + RemoveEntriesOf(b, id)
  {
    KeepSplit(clients, IsOtherClient(id), IsClient(id));
    KeepSplit(entries, IsEntryOfOther(id), IsEntryOf(id));
  }

  /** Deleting an entry removes exactly the entries with that id; the others keep their order. */
  lemma DeleteEntrySpec(entries: seq<TimeEntry>, id: Option<string>)
    ensures forall e :: e in RemoveEntry(entries, id) <==> e in entries && e.id != id
    ensures multiset(RemoveEntry(entries, id)) + multiset(Keep(entries, IsEntry(id))) == multiset(entries)
    ensures forall a, b :: RemoveEntry(a + b, id) == RemoveEntry(a, id) + RemoveEntry(b, id)
    ensures (forall i :: 0 <= i < |entries| ==> entries[i].id != id) ==> RemoveEntry(entries, id) == entries
  {
    KeepSplit(entries, IsOtherEntry(id), IsEntry(id));
    if forall i :: 0 <= i < |entries| ==> entries[i].id != id {
      KeepAll(entries, IsOtherEntry(id));
    }
  }

  // ---------------------------------------------------------------------------
  // The stored-entry invariant

  /** A stored entry ends after it starts and holds the whole minutes between its two instants. */
  predicate Consistent(e: TimeEntry) {
    e.startTime < e.endTime && e.duration == (e.endTime - e.startTime) / MsPerMinute
  }

  predicate AllConsistent(entries: seq<TimeEntry>) {
    forall i :: 0 <= i < |entries| ==> Consistent(entries[i])
  }

  /** Appending or replacing with a consistent entry keeps every stored entry consistent. */
  lemma AdditionsKeepConsistent(entries: seq<TimeEntry>, e: TimeEntry, id: Option<string>)
    requires AllConsistent(entries) && Consistent(e)
    ensures AllConsistent(entries + [e])
    ensures AllConsistent(ReplaceEntry(entries, id, e))
  {
  }

  /** Removing entries, one by id or a client's all, keeps every stored entry consistent. */
  lemma RemovalsKeepConsistent(entries: seq<TimeEntry>, id: Option<string>)
    requires AllConsistent(entries)
    ensures AllConsistent(RemoveEntry(entries, id)) && AllConsistent(RemoveEntriesOf(entries, id))
  {
    var r1, r2 := RemoveEntry(entries, id), RemoveEntriesOf(entries, id);
    forall i | 0 <= i < |r1| ensures Consistent(r1[i]) {
      assert r1[i] in entries;
    }
    forall i | 0 <= i < |r2| ensures Consistent(r2[i]) {
      assert r2[i] in entries;
    }
  }

  /**
   * An entry the manual or edit form accepts is consistent, whatever the id
   * and the other fields it is stored with.
   */
  lemma AcceptedEntryConsistent(client: string, project: string, date: string, startClock: string,
                                endClock: string, e: TimeEntry)
    requires Timer.Validate(client, project, date, startClock, endClock).Accepted?
    requires var r := Timer.Validate(client, project, date, startClock, endClock);
      e.startTime == r.start && e.endTime == r.end && e.duration == r.duration
    ensures Consistent(e)
  {
    Timer.ValidateCases(client, project, date, startClock, endClock);
  }

  // ---------------------------------------------------------------------------
  // The browser's sample data

  /** `new Date(2023, 4, d, h, mi).getTime()`. */
  function MockInstant(d: int, h: int, mi: int): int {
    NewDate(2023, 4, d) + h * MsPerHour + mi * MsPerMinute
  }

  function MockClients(): seq<Client> {
    [Client(Some("1"), "Smith & Associates", "", ["Bankruptcy", "Contract Review"]),
     Client(Some("2"), "Johnson Family", "", ["Divorce", "Child Custody"])]
  }

  function MockEntries(): seq<TimeEntry> {
    [TimeEntry(Some("1"), "1", "Bankruptcy", "Initial consultation",
               MockInstant(1, 9, 0), MockInstant(1, 10, 30), 90, true),
     TimeEntry(Some("2"), "2", "Divorce", "Document preparation",
               MockInstant(2, 13, 0), MockInstant(2, 15, 0), 120, true)]
  }

  /**
   * The sample entries are consistent (90 and 120 minutes), each belongs to a
   * sample client, and its project is one of that client's labels.
   */
  lemma MockDataConsistent()
    ensures AllConsistent(MockEntries())
    ensures forall i :: 0 <= i < |MockEntries()| ==>
              exists j :: 0 <= j < |MockClients()| && MockClients()[j].id == Some(MockEntries()[i].clientId)
                          && MockEntries()[i].project in MockClients()[j].projects
  {
    var es, cs := MockEntries(), MockClients();
    assert es[0].endTime - es[0].startTime == 90 * MsPerMinute;
    assert es[1].endTime - es[1].startTime == 120 * MsPerMinute;
    assert cs[0].id == Some(es[0].clientId) && es[0].project in cs[0].projects;
    assert cs[1].id == Some(es[1].clientId) && es[1].project in cs[1].projects;
  }

  // ---------------------------------------------------------------------------
  // The store

  class Store {
    var clients: seq<Client>
    var timeEntries: seq<TimeEntry>

    function Contents(): StoreLists
      reads this
    {
      StoreLists(clients, timeEntries)
    }

    /**
     * `loadData`: the bridge's two lists, or nothing when a call throws; the
     * sample data in a browser.
     */
    constructor Load(host: Host<StoreLists>)
      ensures host == Desktop(Threw) ==> Contents() == StoreLists([], [])
      ensures host.Desktop? && host.reply.Resolved? ==> Contents() == host.reply.value
      ensures host == Browser ==> Contents() == StoreLists(MockClients(), MockEntries())
    {
      match host {
        case Desktop(Threw) =>
          clients, timeEntries := [], [];
        case Desktop(Resolved(loaded)) =>
          clients, timeEntries := loaded.clients, loaded.timeEntries;
        case Browser =>
          clients, timeEntries := MockClients(), MockEntries();
      }
    }

    /**
     * `handleAddClient`: the stored client (the bridge's answer, or the draft
     * with a fresh id in a browser) is appended and returned; a throw returns
     * null and changes nothing.
     */
    method AddClient(client: Client, host: Host<Client>, freshId: string) returns (r: Option<Client>)
      modifies this
      ensures host == Desktop(Threw) ==> r == None
      ensures host.Desktop? && host.reply.Resolved? ==> r == Some(host.reply.value)
      ensures host == Browser ==> r == Some(client.(id := Some(freshId)))
      ensures clients == old(clients) + (if r.Some? then [r.value] else [])
      ensures timeEntries == old(timeEntries)
    {
      match host {
        case Desktop(Threw) =>
          return None;
        case Desktop(Resolved(added)) =>
          r := Some(added);
        case Browser =>
          r := Some(client.(id := Some(freshId)));
      }
      clients := clients + [r.value];
    }

    /**
     * `handleUpdateClient`: the clients whose id is `client.id` are replaced by
     * the bridge's answer, or by `client` in a browser; a falsy answer or a
     * throw changes nothing and returns null.
     */
    method UpdateClient(client: Client, host: Host<Option<Client>>) returns (r: Option<Client>)
      modifies this
      ensures host == Desktop(Threw) ==> r == None
      ensures host.Desktop? && host.reply.Resolved? ==> r == host.reply.value
      ensures host == Browser ==> r == Some(client)
      ensures clients == if r.Some? then ReplaceClient(old(clients), client.id, r.value) else old(clients)
      ensures timeEntries == old(timeEntries)
    {
      match host {
        case Desktop(Threw) =>
          return None;
        case Desktop(Resolved(updated)) =>
          r := updated;
        case Browser =>
          r := Some(client);
      }
      if r.Some? {
        clients := ReplaceClient(clients, client.id, r.value);
      }
    }

    /**
     * `handleDeleteClient`: the clients with id `id` and all their entries go,
     * and true is returned; a throw returns false and changes nothing.
     */
    method DeleteClient(id: Option<string>, host: Host<()>) returns (ok: bool)
      modifies this
      ensures ok <==> host != Desktop(Threw)
      ensures ok ==> Contents() == StoreLists(RemoveClient(old(clients), id), RemoveEntriesOf(old(timeEntries), id))
      ensures !ok ==> Contents() == old(Contents())
    {
      if host == Desktop(Threw) {
        return false;
      }
      clients := RemoveClient(clients, id);
      timeEntries := RemoveEntriesOf(timeEntries, id);
      ok := true;
    }

    /** `handleAddTimeEntry`: as `handleAddClient`, on the entries. */
    method AddTimeEntry(entry: TimeEntry, host: Host<TimeEntry>, freshId: string) returns (r: Option<TimeEntry>)
      modifies this
      ensures host == Desktop(Threw) ==> r == None
      ensures host.Desktop? && host.reply.Resolved? ==> r == Some(host.reply.value)
      ensures host == Browser ==> r == Some(entry.(id := Some(freshId)))
      ensures timeEntries == old(timeEntries) + (if r.Some? then [r.value] else [])
      ensures clients == old(clients)
      ensures AllConsistent(old(timeEntries)) && r.Some? && Consistent(r.value) ==> AllConsistent(timeEntries)
    {
      match host {
        case Desktop(Threw) =>
          return None;
        case Desktop(Resolved(added)) =>
          r := Some(added);
        case Browser =>
          r := Some(entry.(id := Some(freshId)));
      }
      if AllConsistent(timeEntries) && Consistent(r.value) {
        AdditionsKeepConsistent(timeEntries, r.value, None);
      }
      timeEntries := timeEntries + [r.value];
    }

    /** `handleUpdateTimeEntry`: as `handleUpdateClient`, on the entries. */
    method UpdateTimeEntry(entry: TimeEntry, host: Host<Option<TimeEntry>>) returns (r: Option<TimeEntry>)
      modifies this
      ensures host == Desktop(Threw) ==> r == None
      ensures host.Desktop? && host.reply.Resolved? ==> r == host.reply.value
      ensures host == Browser ==> r == Some(entry)
      ensures timeEntries == if r.Some? then ReplaceEntry(old(timeEntries), entry.id, r.value) else old(timeEntries)
      ensures clients == old(clients)
      ensures AllConsistent(old(timeEntries)) && (r.Some? ==> Consistent(r.value)) ==> AllConsistent(timeEntries)
    {
      match host {
        case Desktop(Threw) =>
          return None;
        case Desktop(Resolved(updated)) =>
          r := updated;
        case Browser =>
          r := Some(entry);
      }
      if r.Some? {
        if AllConsistent(timeEntries) && Consistent(r.value) {
          AdditionsKeepConsistent(timeEntries, r.value, entry.id);
        }
        timeEntries := ReplaceEntry(timeEntries, entry.id, r.value);
      }
    }

    /** `handleDeleteTimeEntry`: the entries with id `id` go; a throw returns false and changes nothing. */
    method DeleteTimeEntry(id: Option<string>, host: Host<()>) returns (ok: bool)
      modifies this
      ensures ok <==> host != Desktop(Threw)
      ensures timeEntries == if ok then RemoveEntry(old(timeEntries), id) else old(timeEntries)
      ensures clients == old(clients)
      ensures AllConsistent(old(timeEntries)) ==> AllConsistent(timeEntries)
    {
      if host == Desktop(Threw) {
        return false;
      }
      if AllConsistent(timeEntries) {
        RemovalsKeepConsistent(timeEntries, id);
      }
      timeEntries := RemoveEntry(timeEntries, id);
      ok := true;
    }
  }
}
