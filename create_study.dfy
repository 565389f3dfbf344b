/**
 * `CreateStudy`: the study form. It validates the form values, maps them to
 * the study table's columns, and after a create polls the study list with
 * exponential back-off until the newest study carries its generated
 * interview link, then opens that study. In edit mode the form starts from
 * the study being edited, updates it, and opens it again without polling.
 * URL parsing (`new URL(...)`) is the parameter `isValidUrl`; every remote
 * result is an input.
 */
module CreateStudy {
  import opened Records
  import opened Strings
  import opened Dates
  import opened StudyContext

  // ---------------------------------------------------------------------
  // Form values and validation
  // ---------------------------------------------------------------------

  datatype FormValues = FormValues(studyName: Value, redirectUrl: Value, messagePrompt: Value,
                                   goal: Value, question1: Value, question2: Value,
                                   question3: Value, question4: Value, question5: Value)

  /** The names of the form's fields. */
  datatype FormKey = StudyName | RedirectUrl | MessagePrompt | Goal
                   | Question1 | Question2 | Question3 | Question4 | Question5

  const StudyNameMessage := "Please enter a study name"
  const GoalMessage := "Please enter a goal"
  const UrlMessage := "Please enter a valid url"
  const QuestionMessage := "Please enter this question"

  /** `values[key]` */
  function Get(v: FormValues, key: FormKey): Value
  {
    match key
    case StudyName => v.studyName
    case RedirectUrl => v.redirectUrl
    case MessagePrompt => v.messagePrompt
    case Goal => v.goal
    case Question1 => v.question1
    case Question2 => v.question2
    case Question3 => v.question3
    case Question4 => v.question4
    case Question5 => v.question5
  }

  /** The seven fields that must not be empty. */
  predicate Required(key: FormKey)
  {
    key != RedirectUrl && key != MessagePrompt
  }

  /** The fixed message of each field that can fail. */
  function MessageFor(key: FormKey): string
  {
    match key
    case StudyName => StudyNameMessage
    case Goal => GoalMessage
    case RedirectUrl => UrlMessage
    case _ => QuestionMessage
  }

  /**
   * When a field is in error: a required field when it is empty, the
   * redirect URL when it is non-empty and does not parse, the message
   * prompt never.
   */
  predicate Fails(v: FormValues, key: FormKey, isValidUrl: Value -> bool)
  {
    if key == RedirectUrl then Truthy(v.redirectUrl) && !isValidUrl(v.redirectUrl)
    else Required(key) && !Truthy(Get(v, key))
  }

  /** One `if` of the validator: records `message` under `key` unless `ok`. */
  function Check(errors: map<FormKey, string>, key: FormKey, ok: bool, message: string): map<FormKey, string>
  {
    if ok then errors else errors[key := message]
  }

  /** The fields the validator checks, in its order. */
  const CheckedKeys: seq<FormKey> :=
    [StudyName, Goal, RedirectUrl, Question1, Question2, Question3, Question4, Question5]

  /** The errors after checking `keys` in order, starting from no errors. */
  function CheckAll(v: FormValues, isValidUrl: Value -> bool, keys: seq<FormKey>): map<FormKey, string>
  {
    if keys == [] then map[]
    else
      var key := keys[|keys| - 1];
      Check(CheckAll(v, isValidUrl, keys[..|keys| - 1]), key, !Fails(v, key, isValidUrl), MessageFor(key))
  }

  /** After checking `keys`, exactly the failing ones among them are in error, each with its message. */
  lemma {:induction false} CheckAllAgrees(v: FormValues, isValidUrl: Value -> bool, keys: seq<FormKey>)
    ensures forall key :: key in CheckAll(v, isValidUrl, keys) <==> key in keys && Fails(v, key, isValidUrl)
    ensures forall key :: key in CheckAll(v, isValidUrl, keys) ==> CheckAll(v, isValidUrl, keys)[key] == MessageFor(key)
    decreases |keys|
  {
    if keys != [] {
      var init := keys[..|keys| - 1];
      CheckAllAgrees(v, isValidUrl, init);
      assert forall key :: key in keys <==> key in init || key == keys[|keys| - 1];
    }
  }

  /**
   * The form's validator: an independent check per field, in the form's
   * order, each adding that field's message when it fails.
   */
  function Validate(v: FormValues, isValidUrl: Value -> bool): (errors: map<FormKey, string>)
    ensures forall key :: key in errors <==> Fails(v, key, isValidUrl)
    ensures forall key :: key in errors ==> errors[key] == MessageFor(key)
  {
    CheckAllAgrees(v, isValidUrl, CheckedKeys);
    assert forall key :: key !in CheckedKeys ==> key == MessagePrompt;
    CheckAll(v, isValidUrl, CheckedKeys)
  }

  /**
   * The form can be submitted exactly when the seven required fields are
   * filled in and the redirect URL is empty or parses.
   */
  lemma ValidateEmptyIff(v: FormValues, isValidUrl: Value -> bool)
    ensures Validate(v, isValidUrl) == map[] <==>
      Truthy(v.studyName) && Truthy(v.goal) && Truthy(v.question1) && Truthy(v.question2) &&
      Truthy(v.question3) && Truthy(v.question4) && Truthy(v.question5) &&
      (!Truthy(v.redirectUrl) || isValidUrl(v.redirectUrl))
  {
    var errors := Validate(v, isValidUrl);
    if errors == map[] {
      assert !Fails(v, StudyName, isValidUrl) && !Fails(v, Goal, isValidUrl) && !Fails(v, RedirectUrl, isValidUrl);
      assert !Fails(v, Question1, isValidUrl) && !Fails(v, Question2, isValidUrl) && !Fails(v, Question3, isValidUrl);
      assert !Fails(v, Question4, isValidUrl) && !Fails(v, Question5, isValidUrl);
    } else {
      var key :| key in errors;
      assert Fails(v, key, isValidUrl);
    }
  }

  /** The message prompt is never validated: changing it never changes the errors. */
  lemma ValidateIgnoresPrompt(v: FormValues, prompt: Value, isValidUrl: Value -> bool)
    ensures Validate(v.(messagePrompt := prompt), isValidUrl) == Validate(v, isValidUrl)
    ensures MessagePrompt !in Validate(v, isValidUrl)
  {
    var a := Validate(v.(messagePrompt := prompt), isValidUrl);
    var b := Validate(v, isValidUrl);
    assert forall key :: Fails(v.(messagePrompt := prompt), key, isValidUrl) == Fails(v, key, isValidUrl);
    assert a.Keys == b.Keys;
  }

  /** An empty redirect URL is never an error, whatever the URL parser says. */
  lemma EmptyUrlAccepted(v: FormValues, isValidUrl: Value -> bool)
    requires v.redirectUrl == Str("")
    ensures RedirectUrl !in Validate(v, isValidUrl)
  {
  }

  // ---------------------------------------------------------------------
  // Mapping between the form and the study columns
  // ---------------------------------------------------------------------

  /** The initial values: the edited study's columns, or empty strings for a new study. */
  function InitialValues(state: Option<Record>): (v: FormValues)
    ensures state.None? ==> forall key :: Required(key) ==> !Truthy(Get(v, key))
  {
    match state
    case None => FormValues(Str(""), Str(""), Str(""), Str(""), Str(""), Str(""), Str(""), Str(""), Str(""))
    case Some(r) =>
      FormValues(Field(r, "StudyName"), Field(r, "RedirectUrl"), Field(r, "MessagePrompt"),
                 Field(r, "Goal"), Field(r, "Question 1"), Field(r, "Question 2"),
                 Field(r, "Question 3"), Field(r, "Question 4"), Field(r, "Question 5"))
  }

  /** The columns submitted for the form values: nine form fields and the user's email. */
  function SubmittedFields(v: FormValues, email: Value): (fields: Fields)
    ensures "Email" in fields && fields["Email"] == email
  {
    var fields := map["StudyName" := v.studyName, "MessagePrompt" := v.messagePrompt,
                      "RedirectUrl" := v.redirectUrl, "Goal" := v.goal,
                      "Question 1" := v.question1, "Question 2" := v.question2,
                      "Question 3" := v.question3, "Question 4" := v.question4,
                      "Question 5" := v.question5, "Email" := email];
    fields
  }

  /** Editing a study that was saved from some form values starts from exactly those values. */
  lemma EditRoundTrip(v: FormValues, email: Value, id: string)
    ensures InitialValues(Some(Record(id, SubmittedFields(v, email)))) == v
  {
  }

  // ---------------------------------------------------------------------
  // Back-off schedule
  // ---------------------------------------------------------------------

  function Pow2(k: nat): (p: nat)
    ensures p >= 1
  {
    if k == 0 then 1 else 2 * Pow2(k - 1)
  }

  /** The delay before the re-check that follows attempt `k`, in milliseconds. */
  function Delay(k: nat): (d: nat)
    ensures d >= 1000
  {
    Pow2(k) * 1000
  }

  /** One second after the first attempt, then twice as long after each further one. */
  lemma DelayDoubles(k: nat)
    ensures Delay(0) == 1000
    ensures Delay(k + 1) == 2 * Delay(k)
  {
  }

  /** The delays scheduled by the first `n` attempts. */
  function Delays(n: nat): (ds: seq<nat>)
    ensures |ds| == n
    ensures forall j :: 0 <= j < n ==> ds[j] == Delay(j)
  {
    if n == 0 then [] else Delays(n - 1) + [Delay(n - 1)]
  }

  function Sum(ds: seq<nat>): nat
  {
    if ds == [] then 0 else Sum(ds[..|ds| - 1]) + ds[|ds| - 1]
  }

  /** After `n` unsuccessful attempts the poll has waited one second less than the next delay. */
  lemma {:induction false} TotalWait(n: nat)
    ensures Sum(Delays(n)) + 1000 == Delay(n)
  {
    if n > 0 {
      TotalWait(n - 1);
      assert Delays(n)[..n - 1] == Delays(n - 1);
      DelayDoubles(n - 1);
    }
  }

  // ---------------------------------------------------------------------
  // The poll's stop rule
  // ---------------------------------------------------------------------

  /** The newest study of a fetched list has its interview link. */
  predicate Linked(rs: seq<Record>)
  {
    |rs| > 0 && Truthy(Field(rs[0], "Generated Link"))
  }

  /** A fetch ends the poll when it fails or when the newest study is linked. */
  predicate Stops(fetched: Result<seq<ServerRecord>>)
  {
    fetched.Err? || Linked(Project(fetched.value))
  }

  /** The attempt that ends the poll, or `|polls|` when none of them does. */
  function Settle(polls: seq<Result<seq<ServerRecord>>>): (n: nat)
    ensures n <= |polls|
    ensures forall j :: 0 <= j < n ==> !Stops(polls[j])
    ensures n < |polls| ==> Stops(polls[n])
  {
    if polls == [] then 0 else if Stops(polls[0]) then 0 else 1 + Settle(polls[1..])
  }

  /** The poll ends by opening a study. */
  predicate Navigates(polls: seq<Result<seq<ServerRecord>>>)
  {
    Settle(polls) < |polls| && polls[Settle(polls)].Ok?
  }

  /** The study the poll opens: the newest one of the first linked fetch. */
  function LinkedStudy(polls: seq<Result<seq<ServerRecord>>>): (r: Record)
    requires Navigates(polls)
    ensures Truthy(Field(r, "Generated Link"))
  {
    Project(polls[Settle(polls)].value)[0]
  }

  /** The number of fetches that succeeded before the poll ended. */
  function Fetched(polls: seq<Result<seq<ServerRecord>>>): (n: nat)
    ensures n <= |polls|
    ensures forall j :: 0 <= j < n ==> polls[j].Ok?
  {
    if Navigates(polls) then Settle(polls) + 1 else Settle(polls)
  }

  /** An attempt no earlier than the end that stops the poll, or the end of the inputs, is where it settles. */
  lemma SettleAt(polls: seq<Result<seq<ServerRecord>>>, k: nat)
    requires k <= Settle(polls)
    requires k == |polls| || Stops(polls[k])
    ensures Settle(polls) == k
    ensures Fetched(polls) == if k < |polls| && polls[k].Ok? then k + 1 else k
    ensures Navigates(polls) <==> k < |polls| && polls[k].Ok?
    ensures Navigates(polls) ==> LinkedStudy(polls) == Project(polls[k].value)[0]
  {
  }

  /** The study list after the poll's fetches, starting from `before`. */
  function Polled(before: seq<Record>, polls: seq<Result<seq<ServerRecord>>>, n: nat): seq<Record>
    requires n <= |polls| && forall j :: 0 <= j < n ==> polls[j].Ok?
  {
    if n == 0 then before else Project(polls[n - 1].value)
  }

  // ---------------------------------------------------------------------
  // Text of a value and the study page's path
  // ---------------------------------------------------------------------

  /** The text a template literal inserts for a value. */
  function Text(v: Value): (r: string)
    ensures v.Str? ==> r == v.s
    ensures !v.Str? ==> forall k :: 0 <= k < |r| ==> r[k] != '/'
  {
    match v
    case Undefined => "undefined"
    case Null => "null"
    case Str(s) => s
    case Num(n) => NumberText(Int(n))
    case Bool(b) => if b then "true" else "false"
  }

  /** The path of a study's page. */
  function ViewPath(sessionId: Value): (p: string)
    ensures |p| >= 12 && p[..12] == "/study/view/" && p[12..] == Text(sessionId)
  {
    "/study/view/" + Text(sessionId)
  }

  // ---------------------------------------------------------------------
  // Submitting the form
  // ---------------------------------------------------------------------

  /** The write the form sends: a create, or an update keyed by the edited study's session id. */
  datatype Request = Create(fields: Fields) | Update(sessionId: Value, fields: Fields)

  class StudyForm {
    /** The study being edited (the router state), if any; it switches on edit mode. */
    var state: Option<Record>
    var isLoading: bool
    var showFailure: bool
    var navigatedTo: Option<string>

    constructor(edited: Option<Record>)
      ensures state == edited && !isLoading && !showFailure && navigatedTo == None
    {
      state := edited;
      isLoading := false;
      showFailure := false;
      navigatedTo := None;
    }

    /**
     * `retryFetchStudyWithBackOff`: the list is fetched again and again;
     * after attempt `k` without a linked newest study the next attempt is
     * scheduled `Delay(k)` later; a linked newest study stops loading and
     * opens that study's page; a failed fetch ends the poll. `polls` is
     * what the successive fetches return.
     */
    method PollForLink(store: StudyStore, polls: seq<Result<seq<ServerRecord>>>) returns (delays: seq<nat>)
      modifies this, store
      ensures state == old(state) && showFailure == old(showFailure)
      ensures store.transcripts == old(store.transcripts) && store.isLoading == old(store.isLoading)
      ensures store.completedInterviews == old(store.completedInterviews) && store.error == old(store.error)
      ensures delays == Delays(Settle(polls))
      ensures store.records == Polled(old(store.records), polls, Fetched(polls))
      ensures Navigates(polls) ==>
        !isLoading && navigatedTo == Some(ViewPath(Field(LinkedStudy(polls), "Session ID")))
      ensures !Navigates(polls) ==> isLoading == old(isLoading) && navigatedTo == old(navigatedTo)
    {
      delays := [];
      var k := 0;
      while k < |polls|
        invariant k <= Settle(polls)
        invariant delays == Delays(k)
        invariant store.records == Polled(old(store.records), polls, k)
        invariant isLoading == old(isLoading) && navigatedTo == old(navigatedTo)
        invariant state == old(state) && showFailure == old(showFailure)
        invariant store.transcripts == old(store.transcripts) && store.isLoading == old(store.isLoading)
        invariant store.completedInterviews == old(store.completedInterviews) && store.error == old(store.error)
      {
        var studies := store.FetchStudies(polls[k]);
        if studies.Err? {
          SettleAt(polls, k);
          break;
        }
        if Linked(studies.value) {
          SettleAt(polls, k);
          isLoading := false;
          navigatedTo := Some(ViewPath(Field(studies.value[0], "Session ID")));
          break;
        }
        delays := delays + [Delay(k)];
        k := k + 1;
      }
      if k == |polls| {
        SettleAt(polls, k);
      }
    }

    /**
     * `onSubmit`. In edit mode the study is updated under its session id
     * and its page opened. Otherwise loading starts, the study is created
     * and the list polled; the failure notice for a failed create appears
     * once the first attempt has come back. `saved` is what the create or
     * update returned.
     */
    method Submit(values: FormValues, email: Value, store: StudyStore, saved: Result<ServerRecord>,
                  polls: seq<Result<seq<ServerRecord>>>) returns (request: Request, delays: seq<nat>)
      modifies this, store
      ensures state == old(state)
      ensures request == if state.Some? then Update(Field(state.value, "Session ID"), SubmittedFields(values, email))
                         else Create(SubmittedFields(values, email))
      ensures store.transcripts == old(store.transcripts) && store.isLoading == old(store.isLoading)
      ensures store.completedInterviews == old(store.completedInterviews)
      ensures store.error == if saved.Err? then Some(saved.message) else old(store.error)
      ensures state.Some? ==>
        delays == [] && isLoading == old(isLoading) && showFailure == old(showFailure) &&
        navigatedTo == Some(ViewPath(Field(state.value, "Session ID"))) &&
        store.records == (if saved.Ok? then ReplaceById(old(store.records), Record(saved.value.id, saved.value.fields))
                          else old(store.records))
      ensures state.None? ==>
        delays == Delays(Settle(polls)) &&
        isLoading == !Navigates(polls) &&
        navigatedTo == (if Navigates(polls) then Some(ViewPath(Field(LinkedStudy(polls), "Session ID")))
                        else old(navigatedTo)) &&
        showFailure == (old(showFailure) || (saved.Err? && |polls| > 0 && polls[0].Ok?)) &&
        store.records == Polled(if saved.Ok? then old(store.records) + [Record(saved.value.id, saved.value.fields)]
                                else old(store.records), polls, Fetched(polls))
    {
      var fields := SubmittedFields(values, email);
      if state.Some? {
        request := Update(Field(state.value, "Session ID"), fields);
        var ok := store.UpdateStudy(Text(request.sessionId), saved);
        navigatedTo := Some(ViewPath(request.sessionId));
        delays := [];
        return;
      }
      request := Create(fields);
      isLoading := true;
      var result := store.CreateStudy(saved);
      delays := PollForLink(store, polls);
      if result.None? && |polls| > 0 && polls[0].Ok? {
        showFailure := true;
      }
    }
  }
}
