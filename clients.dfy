/**
 * The clients page: the add/edit dialog, which edits a client's list of
 * project-type labels and validates the client before handing it to the
 * store, and the split of the client list into businesses and individuals.
 */
module Clients {
  import opened Wrappers
  import opened Lists
  import opened Text
  import opened Records

  const Individual: string := "individual"
  const Business: string := "business"

  const DuplicateProjectMessage: string := "Project type already exists"
  const NameRequiredMessage: string := "Client name is required"
  const ProjectRequiredMessage: string := "At least one project type is required"

  // ---------------------------------------------------------------------------
  // The business / individual split

  function IsIndividual(c: Client): bool { c.kind == Individual }
  function IsBusiness(c: Client): bool { c.kind != Individual }

  /** `clients.filter(client => client.type !== 'individual')`: a missing or unknown type counts as business. */
  function BusinessClients(clients: seq<Client>): seq<Client> {
    Keep(clients, IsBusiness)
  }

  /** `clients.filter(client => client.type === 'individual')`. */
  function IndividualClients(clients: seq<Client>): seq<Client> {
    Keep(clients, IsIndividual)
  }

  /**
   * The two groups partition the clients: each client is in exactly one of
   * them, as often as it is listed, and each group keeps the list's order.
   */
  lemma ClientGroupsPartition(clients: seq<Client>)
    ensures multiset(BusinessClients(clients)) + multiset(IndividualClients(clients)) == multiset(clients)
    ensures |BusinessClients(clients)| + |IndividualClients(clients)| == |clients|
    ensures forall c :: c in BusinessClients(clients) <==> c in clients && c.kind != Individual
    ensures forall c :: c in IndividualClients(clients) <==> c in clients && c.kind == Individual
    ensures forall a, b :: BusinessClients(a + b) == BusinessClients(a) + BusinessClients(b)
  {
    KeepPartition(clients, IsBusiness, IsIndividual);
    forall a, b ensures BusinessClients(a + b) == BusinessClients(a) + BusinessClients(b) {
      KeepAppend(a, b, IsBusiness);
    }
  }

  // ---------------------------------------------------------------------------
  // Editing the project-type labels

  /** `projects.filter(project => project !== p)`. */
  function Without(projects: seq<string>, p: string): seq<string> {
    Keep(projects, q => q != p)
  }

  /** What `addProject` does with the labels. */
  datatype LabelEdit = Blank | Duplicate | Appended(projects: seq<string>)

  /**
   * `addProject` on the labels: a blank input is ignored, a trimmed input
   * already listed is a duplicate, and anything else is appended trimmed.
   */
  function AddLabel(projects: seq<string>, input: string): (r: LabelEdit)
    ensures r == Blank <==> AllWhiteSpace(input)
    ensures r == Duplicate <==> !AllWhiteSpace(input) && Trim(input) in projects
    ensures r.Appended? ==> r.projects == projects + [Trim(input)] && Trim(input) !in projects
  {
    TrimEmpty(input);
    var trimmed := Trim(input);
    if trimmed == [] then Blank
    else if trimmed in projects then Duplicate
    else Appended(projects + [trimmed])
  }

  /** Appending a label that is not yet listed keeps the labels distinct. */
  lemma AddLabelNoDup(projects: seq<string>, input: string)
    requires NoDup(projects) && AddLabel(projects, input).Appended?
    ensures NoDup(AddLabel(projects, input).projects)
  {
    var r := AddLabel(projects, input).projects;
    forall i, j | 0 <= i < j < |r| ensures r[i] != r[j] {
      if j == |projects| {
        assert r[i] == projects[i];
      }
    }
  }

  /** Removing a label that was just added restores the labels: the two operations are inverse. */
  lemma AddThenRemove(projects: seq<string>, input: string)
    requires AddLabel(projects, input).Appended?
    ensures Without(AddLabel(projects, input).projects, Trim(input)) == projects
  {
    var trimmed := Trim(input);
    KeepAppend(projects, [trimmed], q => q != trimmed);
    KeepAll(projects, q => q != trimmed);
  }

  /**
   * `removeProject(p)`: no occurrence of `p` is left, every other label stays,
   * the remaining labels keep their order, and distinct labels stay distinct.
   */
  lemma RemoveLabel(projects: seq<string>, p: string)
    ensures p !in Without(projects, p)
    ensures forall q :: q in Without(projects, p) <==> q in projects && q != p
    ensures forall a, b :: Without(a + b, p) == Without(a, p) + Without(b, p)
    ensures NoDup(projects) ==> NoDup(Without(projects, p))
    ensures p !in projects ==> Without(projects, p) == projects
  {
    forall a, b ensures Without(a + b, p) == Without(a, p) + Without(b, p) {
      KeepAppend(a, b, q => q != p);
    }
    if NoDup(projects) {
      KeepNoDup(projects, q => q != p);
    }
    if p !in projects {
      KeepAll(projects, q => q != p);
    }
  }

  /** Labels as the dialog builds them: distinct, and each one trimmed and not empty. */
  predicate WellFormedLabels(projects: seq<string>) {
    NoDup(projects) && forall i :: 0 <= i < |projects| ==> projects[i] != [] && Trim(projects[i]) == projects[i]
  }

  /** Adding and removing labels keeps labels that are well formed so. */
  lemma LabelEditsKeepWellFormed(projects: seq<string>, input: string, p: string)
    requires WellFormedLabels(projects)
    ensures AddLabel(projects, input).Appended? ==> WellFormedLabels(AddLabel(projects, input).projects)
    ensures WellFormedLabels(Without(projects, p))
  {
    if AddLabel(projects, input).Appended? {
      AddLabelNoDup(projects, input);
      TrimEmpty(input);
      TrimIdempotent(input);
    }
    RemoveLabel(projects, p);
    var r := Without(projects, p);
    forall i | 0 <= i < |r| ensures r[i] != [] && Trim(r[i]) == r[i] {
      assert r[i] in projects;
    }
  }

  // ---------------------------------------------------------------------------
  // Saving

  /** The dialog's state hooks, together. `current` is `currentClient`, `None` for null. */
  datatype DialogState = DialogState(
    open: bool,
    editing: bool,
    current: Option<Client>,
    name: string,
    kind: string,
    projectInput: string,
    projects: seq<string>,
    error: string)

  /** What `saveClient` decides: an error, a new client for `onAddClient`, or a client for `onUpdateClient`. */
  datatype SaveOutcome = Invalid(message: string) | AddDraft(draft: Client) | UpdateWith(client: Client)

  /**
   * `saveClient`'s decision: a blank trimmed name, then an empty label list, are
   * errors; otherwise the trimmed name, the type and the labels make up the
   * client data, spread over `currentClient` when editing one.
   */
  function SaveOutcomeOf(d: DialogState): (r: SaveOutcome)
    ensures r == Invalid(NameRequiredMessage) <==> AllWhiteSpace(d.name)
    ensures r == Invalid(ProjectRequiredMessage) <==> !AllWhiteSpace(d.name) && d.projects == []
    ensures r.AddDraft? <==> !AllWhiteSpace(d.name) && d.projects != [] && !(d.editing && d.current.Some?)
  {
    TrimEmpty(d.name);
    var name := Trim(d.name);
    if name == [] then Invalid(NameRequiredMessage)
    else if |d.projects| == 0 then Invalid(ProjectRequiredMessage)
    else if d.editing && d.current.Some? then
      UpdateWith(d.current.value.(name := name, kind := d.kind, projects := d.projects))
    else AddDraft(Client(None, name, d.kind, d.projects))
  }

  /**
   * A client that is saved has a name that is not empty and neither starts nor
   * ends with white space, and at least one label. A new client has no id yet;
   * an updated client keeps `currentClient`'s id and takes only the name, the
   * type and the labels from the form.
   */
  lemma SavedClientWellFormed(d: DialogState)
    ensures var r := SaveOutcomeOf(d);
      !r.Invalid? ==>
        var c := if r.AddDraft? then r.draft else r.client;
        c.name != [] && !IsWhiteSpace(c.name[0]) && !IsWhiteSpace(c.name[|c.name| - 1])
        && c.projects == d.projects && c.projects != [] && c.kind == d.kind
        && Trim(d.name) == c.name
    ensures var r := SaveOutcomeOf(d);
      r.AddDraft? ==> r.draft.id == None
    ensures var r := SaveOutcomeOf(d);
      r.UpdateWith? ==>
        d.current.Some? && r.client.id == d.current.value.id
        && r.client == d.current.value.(name := r.client.name, kind := d.kind, projects := d.projects)
  {
    var r, name := SaveOutcomeOf(d), Trim(d.name);
    if !r.Invalid? {
      assert name != [];
      TrimIsInfix(d.name);
    }
  }

  /** The add/edit client dialog of the clients page. */
  class ClientDialog {
    var dialogOpen: bool
    var isEditing: bool
    var currentClient: Option<Client>
    var clientName: string
    var clientType: string
    var projectInput: string
    var projects: seq<string>
    var error: string

    function State(): DialogState
      reads this
    {
      DialogState(dialogOpen, isEditing, currentClient, clientName, clientType, projectInput, projects, error)
    }

    constructor()
      ensures State() == DialogState(false, false, None, "", Business, "", [], "")
    {
      dialogOpen, isEditing, currentClient := false, false, None;
      clientName, clientType, projectInput, projects, error := "", Business, "", [], "";
    }

    /** `openAddDialog`: an empty form for a new business client. */
    method OpenAddDialog()
      modifies this
      ensures State() == DialogState(true, false, None, "", Business, "", [], "")
    {
      dialogOpen, isEditing, currentClient := true, false, None;
      clientName, clientType, projectInput, projects, error := "", Business, "", [], "";
    }

    /** `openEditDialog(client)`: the form shows the client; a missing type shows as business. */
    method OpenEditDialog(client: Client)
      modifies this
      ensures State() == DialogState(true, true, Some(client), client.name,
                                     if client.kind == "" then Business else client.kind,
                                     "", client.projects, "")
    {
      dialogOpen, isEditing, currentClient := true, true, Some(client);
      clientName := client.name;
      clientType := if client.kind == "" then Business else client.kind;
      projectInput, projects, error := "", client.projects, "";
    }

    method CloseDialog()
      modifies this
      ensures State() == old(State()).(open := false)
    {
      dialogOpen := false;
    }

    /**
     * `addProject`: a blank input changes nothing; a duplicate sets the error
     * and keeps the labels and the input; anything else is appended trimmed,
     * and the input and the error are cleared. Distinct labels stay distinct.
     */
    method AddProject()
      modifies this
      ensures AllWhiteSpace(old(projectInput)) ==> State() == old(State())
      ensures !AllWhiteSpace(old(projectInput)) && Trim(old(projectInput)) in old(projects) ==>
                State() == old(State()).(error := DuplicateProjectMessage)
      ensures !AllWhiteSpace(old(projectInput)) && Trim(old(projectInput)) !in old(projects) ==>
                State() == old(State()).(projects := old(projects) + [Trim(old(projectInput))],
                                         projectInput := "", error := "")
      ensures NoDup(old(projects)) ==> NoDup(projects)
    {
      ghost var before := State();
      var edit := AddLabel(projects, projectInput);
      match edit {
        case Blank =>
        case Duplicate =>
          error := DuplicateProjectMessage;
          assert State() == before.(error := DuplicateProjectMessage);
        case Appended(labels) =>
          if NoDup(projects) {
            AddLabelNoDup(projects, projectInput);
          }
          projects, projectInput, error := labels, "", "";
          assert State() == before.(projects := labels, projectInput := "", error := "");
      }
    }

    /** `removeProject(p)`: every occurrence of `p` leaves the labels; nothing else changes. */
    method RemoveProject(p: string)
      modifies this
      ensures State() == old(State()).(projects := Without(old(projects), p))
      ensures p !in projects
      ensures NoDup(old(projects)) ==> NoDup(projects)
    {
      RemoveLabel(projects, p);
      projects := Without(projects, p);
    }

    /**
     * `saveClient`: an invalid form only sets the error and calls nothing;
     * otherwise the client goes to `onAddClient` or `onUpdateClient` (returned
     * here) and the dialog closes.
     */
    method SaveClient() returns (call: Option<SaveOutcome>)
      modifies this
      ensures var r := SaveOutcomeOf(old(State()));
        r.Invalid? ==> call == None && State() == old(State()).(error := r.message)
      ensures var r := SaveOutcomeOf(old(State()));
        !r.Invalid? ==> call == Some(r) && State() == old(State()).(open := false)
    {
      ghost var before := State();
      var r := SaveOutcomeOf(State());
      if r.Invalid? {
        error := r.message;
        call := None;
        assert State() == before.(error := r.message);
      } else {
        call := Some(r);
        dialogOpen := false;
        assert State() == before.(open := false);
      }
    }
  }
}
