// The admin screen (frontend/src/components/AdminPanel.tsx): a form whose
// fields are strings, a submit handler that checks the required fields,
// converts the numbers with `parseInt` and either creates or updates a
// contest, and the edit, delete, reset and dialog handlers around it.
module AdminPanel {
  import opened Results
  import opened Models
  import opened Numbers
  import opened ApiClient

  /** The form's fields, all strings as the inputs hold them. */
  datatype FormData = FormData(
    classLevel: string,
    year: string,
    preNumber: string,
    contestUrl: string,
    solutionUrl: string)

  const EmptyForm := FormData("", "", "", "", "")

  datatype FormField = ClassLevelInput | YearInput | PreNumberInput | ContestUrlInput | SolutionUrlInput

  function FieldValue(f: FormData, field: FormField): string {
    match field
    case ClassLevelInput => f.classLevel
    case YearInput => f.year
    case PreNumberInput => f.preNumber
    case ContestUrlInput => f.contestUrl
    case SolutionUrlInput => f.solutionUrl
  }

  /** An input's `onChange`: `{ ...formData, [field]: value }`. */
  function WithField(f: FormData, field: FormField, value: string): (r: FormData)
    ensures FieldValue(r, field) == value
    ensures forall other :: other != field ==> FieldValue(r, other) == FieldValue(f, other)
  {
    match field
    case ClassLevelInput => f.(classLevel := value)
    case YearInput => f.(year := value)
    case PreNumberInput => f.(preNumber := value)
    case ContestUrlInput => f.(contestUrl := value)
    case SolutionUrlInput => f.(solutionUrl := value)
  }

  const FillRequired := "Please fill in all required fields"
  const SaveFailed := "Failed to save contest"
  const FetchFailed := "Failed to fetch contests"
  const DeleteFailed := "Failed to delete contest"

  const ContestsPathSlash := "/contests/"

  /** The required-field test: a class, a year or a pre number that is the empty string. */
  predicate MissingRequired(f: FormData) {
    f.classLevel == "" || f.year == "" || f.preNumber == ""
  }

  /** The payload: the three numbers through `parseInt`, the URLs as typed. */
  function BuildPayload(f: FormData): (p: Payload)
    ensures p.contestUrl == f.contestUrl && p.solutionUrl == f.solutionUrl
    ensures p.classLevel.None? <==> DigitRun(f.classLevel[SignLength(f.classLevel)..]) == 0
    ensures p.year.None? <==> DigitRun(f.year[SignLength(f.year)..]) == 0
    ensures p.preNumber.None? <==> DigitRun(f.preNumber[SignLength(f.preNumber)..]) == 0
  {
    Payload(ParseInt(f.classLevel), ParseInt(f.year), ParseInt(f.preNumber), f.contestUrl, f.solutionUrl)
  }

  /** The record path for an id: `/contests/${id}`. */
  function ContestPath(id: int): string {
    ContestsPathSlash + IntToString(id)
  }

  /** The server reads back the id the path was built from. */
  lemma ContestPathReadsBack(id: int)
    ensures |ContestPath(id)| > |ContestsPathSlash|
    ensures ContestPath(id)[..|ContestsPathSlash|] == ContestsPathSlash
    ensures ParseStrict(ContestPath(id)[|ContestsPathSlash|..]) == Some(id)
  {
    assert ContestPath(id)[|ContestsPathSlash|..] == IntToString(id);
    ParseStrictAfterToString(id);
  }

  /** PUT to the record when `editingId` is truthy, else POST to the collection. */
  function SaveRequest(editingId: Option<int>, payload: Payload): (r: ApiRequest)
    ensures r.Put? <==> Truthy(editingId)
    ensures r.Post? <==> !Truthy(editingId)
    ensures r.Post? ==> r.path == ContestsPath
    ensures r.Put? ==> && |r.path| > |ContestsPathSlash| && r.path[..|ContestsPathSlash|] == ContestsPathSlash
                       && ParseStrict(r.path[|ContestsPathSlash|..]) == Some(editingId.value)
    ensures r.Put? || r.Post?
    ensures r.body == payload
  {
    if Truthy(editingId) then
      ContestPathReadsBack(editingId.value);
      Put(ContestPath(editingId.value), payload)
    else Post(ContestsPath, payload)
  }

  /** The dialog's title. */
  function DialogTitle(editingId: Option<int>): string {
    if Truthy(editingId) then "Edit Contest" else "Add New Contest"
  }

  /** The title announces an edit exactly when a save would be a PUT. */
  lemma DialogTitleMatchesRequest(editingId: Option<int>, payload: Payload)
    ensures DialogTitle(editingId) == "Edit Contest" <==> SaveRequest(editingId, payload).Put?
  {
    assert "Add New Contest" != "Edit Contest" by {
      assert "Add New Contest"[0] != "Edit Contest"[0];
    }
  }

  /** How the server reads a payload as a contest body: a null number is
      refused before any field constraint is looked at. */
  function RequestBody(p: Payload): (r: Option<ContestBase>)
    ensures r.Some? <==> p.classLevel.Some? && p.year.Some? && p.preNumber.Some?
    ensures r.Some? ==> r.value.classLevel == p.classLevel.value && r.value.year == p.year.value
                        && r.value.preNumber == p.preNumber.value
                        && r.value.contestUrl == p.contestUrl && r.value.solutionUrl == p.solutionUrl
  {
    if p.classLevel.Some? && p.year.Some? && p.preNumber.Some? then
      Some(ContestBase(p.classLevel.value, p.year.value, p.preNumber.value, p.contestUrl, p.solutionUrl))
    else None
  }

  /** `handleEdit`'s form: the numbers through `String(...)`, the URLs as stored. */
  function FormOf(c: ContestRead): FormData {
    FormData(IntToString(c.classLevel), IntToString(c.year), IntToString(c.preNumber), c.contestUrl, c.solutionUrl)
  }

  /** Editing a contest and submitting the form unchanged sends the contest's
      own values back: no field is missing, every number parses to the stored
      one, the server reads the body as the contest without its id, and the
      request is a PUT to the contest's id (a POST when that id is 0). */
  lemma EditSubmitRoundTrip(c: ContestRead)
    ensures !MissingRequired(FormOf(c))
    ensures BuildPayload(FormOf(c)) == Payload(Some(c.classLevel), Some(c.year), Some(c.preNumber), c.contestUrl, c.solutionUrl)
    ensures RequestBody(BuildPayload(FormOf(c))) == Some(BaseOf(c))
    ensures var r := SaveRequest(Some(c.id), BuildPayload(FormOf(c)));
      c.id != 0 ==> r.Put? && |r.path| > |ContestsPathSlash| && ParseStrict(r.path[|ContestsPathSlash|..]) == Some(c.id)
  {
    ParseIntAfterToString(c.classLevel, "");
    ParseIntAfterToString(c.year, "");
    ParseIntAfterToString(c.preNumber, "");
    assert IntToString(c.classLevel) + "" == IntToString(c.classLevel);
    assert IntToString(c.year) + "" == IntToString(c.year);
    assert IntToString(c.preNumber) + "" == IntToString(c.preNumber);
  }

  /** The form offers pre numbers 4 and 5, which pass the form's own check and
      parse, but the server refuses them with 422. */
  lemma FormOffersRefusedPreNumbers(f: FormData, p: int)
    requires p == 4 || p == 5
    requires f.preNumber == IntToString(p)
    ensures BuildPayload(f).preNumber == Some(p)
    ensures var body := RequestBody(BuildPayload(f));
      body.Some? ==> ValidateBody(body.value).Err? && ValidateBody(body.value).error.status == Unprocessable
  {
    ParseIntAfterToString(p, "");
    assert IntToString(p) + "" == IntToString(p);
  }

  /** The component's state hooks. */
  class AdminPanelState {
    var contests: seq<ContestRead>
    var isDialogOpen: bool
    var editingId: Option<int>
    var loading: bool
    var error: string
    var formData: FormData

    constructor ()
      ensures contests == [] && !isDialogOpen && editingId == None && !loading && error == "" && formData == EmptyForm
    {
      contests := [];
      isDialogOpen := false;
      editingId := None;
      loading := false;
      error := "";
      formData := EmptyForm;
    }

    /** `fetchContests`: `fetched` is the response body, or `None` when the
        request failed. Returns the requests issued. */
    method FetchContests(fetched: Option<seq<ContestRead>>) returns (sent: seq<ApiRequest>)
      modifies this
      ensures sent == [Get(ContestsPath)]
      ensures !loading
      ensures fetched.Some? ==> contests == fetched.value && error == old(error)
      ensures fetched.None? ==> contests == old(contests) && error == FetchFailed
      ensures isDialogOpen == old(isDialogOpen) && editingId == old(editingId) && formData == old(formData)
    {
      loading := true;
      sent := [Get(ContestsPath)];
      if fetched.Some? {
        contests := fetched.value;
      } else {
        error := FetchFailed;
      }
      loading := false;
    }

    /** `resetForm`. */
    method ResetForm()
      modifies this
      ensures formData == EmptyForm && editingId == None && error == ""
      ensures contests == old(contests) && isDialogOpen == old(isDialogOpen) && loading == old(loading)
    {
      formData := EmptyForm;
      editingId := None;
      error := "";
    }

    /** `handleSubmit`: `saveSucceeded` is whether the POST or PUT succeeded and
        `fetched` the outcome of the reload after it. */
    method HandleSubmit(saveSucceeded: bool, fetched: Option<seq<ContestRead>>) returns (sent: seq<ApiRequest>)
      modifies this
      ensures MissingRequired(old(formData)) ==>
                && sent == [] && error == FillRequired
                && formData == old(formData) && editingId == old(editingId)
                && isDialogOpen == old(isDialogOpen) && loading == old(loading) && contests == old(contests)
      ensures !MissingRequired(old(formData)) ==>
                && |sent| >= 1 && sent[0] == SaveRequest(old(editingId), BuildPayload(old(formData)))
                && !loading
      ensures !MissingRequired(old(formData)) && saveSucceeded ==>
                && sent == [SaveRequest(old(editingId), BuildPayload(old(formData))), Get(ContestsPath)]
                && formData == EmptyForm && editingId == None && error == "" && !isDialogOpen
                && contests == (if fetched.Some? then fetched.value else old(contests))
      ensures !MissingRequired(old(formData)) && !saveSucceeded ==>
                && sent == [SaveRequest(old(editingId), BuildPayload(old(formData)))]
                && error == SaveFailed
                && formData == old(formData) && editingId == old(editingId)
                && isDialogOpen == old(isDialogOpen) && contests == old(contests)
    {
      error := "";
      if MissingRequired(formData) {
        error := FillRequired;
        return [];
      }
      loading := true;
      var request := SaveRequest(editingId, BuildPayload(formData));
      sent := [request];
      if saveSucceeded {
        var reload := FetchContests(fetched);
        sent := [request] + reload;
        ResetForm();
        isDialogOpen := false;
      } else {
        error := SaveFailed;
      }
      loading := false;
    }

    /** `handleEdit`: load the contest into the form and open the dialog. */
    method HandleEdit(c: ContestRead)
      modifies this
      ensures formData == FormOf(c) && editingId == Some(c.id) && isDialogOpen
      ensures contests == old(contests) && loading == old(loading) && error == old(error)
    {
      formData := FormOf(c);
      editingId := Some(c.id);
      isDialogOpen := true;
    }

    /** `handleDelete`: `confirmed` is the answer to the confirmation prompt,
        `deleteSucceeded` the outcome of the DELETE, `fetched` that of the reload. */
    method HandleDelete(id: int, confirmed: bool, deleteSucceeded: bool, fetched: Option<seq<ContestRead>>)
      returns (sent: seq<ApiRequest>)
      modifies this
      ensures !confirmed ==> sent == [] && unchanged(this)
      ensures confirmed ==> !loading && |sent| >= 1 && sent[0] == Delete(ContestPath(id))
      ensures confirmed && deleteSucceeded ==>
                && sent == [Delete(ContestPath(id)), Get(ContestsPath)]
                && contests == (if fetched.Some? then fetched.value else old(contests))
                && error == (if fetched.Some? then old(error) else FetchFailed)
      ensures confirmed && !deleteSucceeded ==>
                sent == [Delete(ContestPath(id))] && contests == old(contests) && error == DeleteFailed
      ensures formData == old(formData) && editingId == old(editingId) && isDialogOpen == old(isDialogOpen)
    {
      if !confirmed {
        return [];
      }
      loading := true;
      sent := [Delete(ContestPath(id))];
      if deleteSucceeded {
        var reload := FetchContests(fetched);
        sent := sent + reload;
      } else {
        error := DeleteFailed;
      }
      loading := false;
    }

    /** `handleOpenChange`: closing the dialog also resets the form. */
    method HandleOpenChange(open: bool)
      modifies this
      ensures isDialogOpen == open
      ensures !open ==> formData == EmptyForm && editingId == None && error == ""
      ensures open ==> formData == old(formData) && editingId == old(editingId) && error == old(error)
      ensures contests == old(contests) && loading == old(loading)
    {
      isDialogOpen := open;
      if !open {
        ResetForm();
      }
    }

    /** The "Add Contest" button: it resets the form, and as the dialog's
        trigger it then opens the dialog. */
    method AddContest()
      modifies this
      ensures isDialogOpen && formData == EmptyForm && editingId == None && error == ""
      ensures contests == old(contests) && loading == old(loading)
    {
      ResetForm();
      HandleOpenChange(true);
    }

    /** An input's `onChange`. */
    method ChangeField(field: FormField, value: string)
      modifies this
      ensures formData == WithField(old(formData), field, value)
      ensures contests == old(contests) && isDialogOpen == old(isDialogOpen) && editingId == old(editingId)
              && loading == old(loading) && error == old(error)
    {
      formData := WithField(formData, field, value);
    }
  }
}
