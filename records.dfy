/**
 * The two entities the application stores, and the lookups every page
 * performs on the client list.
 */
module Records {
  import opened Wrappers

  /**
   * A client. `id` is `None` for a draft that has not been stored yet.
   * `kind` is the `type` field: "individual" marks an individual and
   * anything else (including a missing type, modelled as "") a business.
   */
  datatype Client = Client(id: Option<string>, name: string, kind: string, projects: seq<string>)

  /**
   * A time entry. `startTime` and `endTime` are instants in milliseconds,
   * `duration` is in whole minutes and `clientId` refers to a client's id.
   */
  datatype TimeEntry = TimeEntry(
    id: Option<string>,
    clientId: string,
    project: string,
    description: string,
    startTime: int,
    endTime: int,
    duration: int,
    billable: bool)

  const UnknownClient: string := "Unknown Client"

  /** `clients[i]` is the first client whose id is `clientId`. */
  predicate FirstWithId(clients: seq<Client>, clientId: string, i: int) {
    0 <= i < |clients| && clients[i].id == Some(clientId) &&
    forall j :: 0 <= j < i ==> clients[j].id != Some(clientId)
  }

  /** `clients.find(c => c.id === clientId)`: the first client whose id is `clientId`. */
  function FindClient(clients: seq<Client>, clientId: string): (r: Option<Client>)
    ensures r.None? <==> forall i :: 0 <= i < |clients| ==> clients[i].id != Some(clientId)
    ensures r.Some? ==> exists i :: FirstWithId(clients, clientId, i) && clients[i] == r.value
  {
    if clients == [] then None
    else if clients[0].id == Some(clientId) then Some(clients[0])
    else
      var r := FindClient(clients[1..], clientId);
      assert r.Some? ==> exists i :: FirstWithId(clients, clientId, i) && clients[i] == r.value by {
        if r.Some? {
          var i :| FirstWithId(clients[1..], clientId, i) && clients[1..][i] == r.value;
          assert clients[i + 1] == r.value;
          forall j | 0 <= j < i + 1 ensures clients[j].id != Some(clientId) {
            if j > 0 { assert clients[j] == clients[1..][j - 1]; }
          }
          assert FirstWithId(clients, clientId, i + 1);
        }
      }
      r
  }

  /** Only one index is the first with a given id, so `find` returns that client. */
  lemma FindClientFirst(clients: seq<Client>, clientId: string)
    ensures forall i :: FirstWithId(clients, clientId, i) ==> FindClient(clients, clientId) == Some(clients[i])
  {
    forall i | FirstWithId(clients, clientId, i) ensures FindClient(clients, clientId) == Some(clients[i]) {
      var r := FindClient(clients, clientId);
      assert r.Some?;
      var k :| FirstWithId(clients, clientId, k) && clients[k] == r.value;
      assert !(k < i) && !(i < k);
    }
  }

  /** The name shown for an entry's client: the first client with that id, else "Unknown Client". */
  function ClientName(clients: seq<Client>, clientId: string): (name: string)
    ensures (forall i :: 0 <= i < |clients| ==> clients[i].id != Some(clientId)) ==> name == UnknownClient
    ensures forall i :: FirstWithId(clients, clientId, i) ==> name == clients[i].name
  {
    FindClientFirst(clients, clientId);
    match FindClient(clients, clientId)
    case Some(c) => c.name
    case None => UnknownClient
  }

  /** The project types of the client with id `clientId`, or none when there is no such client. */
  function ClientProjects(clients: seq<Client>, clientId: string): (projects: seq<string>)
    ensures (forall i :: 0 <= i < |clients| ==> clients[i].id != Some(clientId)) ==> projects == []
    ensures forall i :: FirstWithId(clients, clientId, i) ==> projects == clients[i].projects
  {
    FindClientFirst(clients, clientId);
    match FindClient(clients, clientId)
    case Some(c) => c.projects
    case None => []
  }
}
