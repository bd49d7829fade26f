/** The people page backed by the remote API: a six-step wizard over the
    person record the backend stores, whose submit creates the person and
    reloads the list. */
module PeoplePage {
  import opened Text
  import opened Schema
  import opened Remote

  function Req(name: string, labelText: string): Field {
    Field(name, labelText, TextInput, true, None, [])
  }

  /** `steps`: six groups of required fields. */
  const Steps: seq<seq<Field>> := [
    [Req("name", "Primeiro Nome"), Req("last_name", "Último Nome"),
     Field("email", "E-mail", EmailInput, true, None, []),
     Field("birth_date", "Data de Nascimento", DateInput, true, None, [])],
    [Req("rg", "RG"), Req("cpf", "CPF"), Req("blood_type", "Tipo Sanguíneo")],
    [Req("city", "Cidade"), Req("address", "Endereço"), Req("address_number", "Número"), Req("cep", "CEP")],
    [Req("home_phone", "Telefone"), Req("cell_phone", "Celular"), Req("contact_phone", "Telefone de contato")],
    [Req("cad_unico", "Cadastro único"), Req("nis", "NIS"), Req("school", "Escola")],
    [Req("res_name", "Nome do Responsável"), Req("res_relationship", "Estado civil"),
     Req("res_rg", "RG do Responsável"), Req("res_cpf", "CPF do Responsável"),
     Req("res_cell_phone", "Celular do Responsável")]
  ]

  /** `defaultPerson`: every attribute of the backend's person, empty. */
  const DefaultPerson: Draft := map[
    "name" := "", "last_name" := "", "email" := "", "birth_date" := "",
    "rg" := "", "cpf" := "", "blood_type" := "",
    "city" := "", "address" := "", "address_number" := "", "cep" := "",
    "home_phone" := "", "cell_phone" := "", "contact_phone" := "",
    "cad_unico" := "", "nis" := "", "school" := "",
    "res_name" := "", "res_relationship" := "", "res_rg" := "", "res_cpf" := "", "res_cell_phone" := ""]

  /** The page's state; `people` is the list held by the people context. */
  datatype State = State(
    people: seq<Draft>,
    newPerson: Draft,
    errors: ErrorMap,
    currentStep: int,
    dialogOpen: bool)

  predicate StepInRange(st: State) {
    0 <= st.currentStep < |Steps|
  }

  /** The state the page mounts with, around the list the context loaded. */
  function Initial(people: seq<Draft>): (st: State)
    ensures StepInRange(st) && !st.dialogOpen && st.newPerson == DefaultPerson
  {
    State(people, DefaultPerson, map[], 0, false)
  }

  /** Every field of every step is an attribute of `defaultPerson`, and every
      attribute belongs to a step; each starts out empty. */
  lemma DefaultPersonCoversSteps()
    ensures forall s, i :: 0 <= s < |Steps| && 0 <= i < |Steps[s]| ==> Steps[s][i].name in DefaultPerson
    ensures forall k :: k in DefaultPerson ==>
      exists s, i :: 0 <= s < |Steps| && 0 <= i < |Steps[s]| && Steps[s][i].name == k
    ensures forall k :: k in DefaultPerson ==> DefaultPerson[k] == ""
  {
    forall s, i | 0 <= s < |Steps| && 0 <= i < |Steps[s]| ensures Steps[s][i].name in DefaultPerson {
      StepFieldInDefault(s, i);
    }
    forall k | k in DefaultPerson
      ensures exists s, i :: 0 <= s < |Steps| && 0 <= i < |Steps[s]| && Steps[s][i].name == k
    {
      var s, i := StepOf(k);
    }
  }

  lemma StepFieldInDefault(s: int, i: int)
    requires 0 <= s < |Steps| && 0 <= i < |Steps[s]|
    ensures Steps[s][i].name in DefaultPerson
  {
    if s == 0 { assert Steps[0][i].name in {"name", "last_name", "email", "birth_date"}; }
    else if s == 1 { assert Steps[1][i].name in {"rg", "cpf", "blood_type"}; }
    else if s == 2 { assert Steps[2][i].name in {"city", "address", "address_number", "cep"}; }
    else if s == 3 { assert Steps[3][i].name in {"home_phone", "cell_phone", "contact_phone"}; }
    else if s == 4 { assert Steps[4][i].name in {"cad_unico", "nis", "school"}; }
    else { assert Steps[5][i].name in {"res_name", "res_relationship", "res_rg", "res_cpf", "res_cell_phone"}; }
  }

  /** The step and position of an attribute of `defaultPerson`. */
  lemma StepOf(k: string) returns (s: int, i: int)
    requires k in DefaultPerson
    ensures 0 <= s < |Steps| && 0 <= i < |Steps[s]| && Steps[s][i].name == k
  {
    if k == "name" { s, i := 0, 0; }
    else if k == "last_name" { s, i := 0, 1; }
    else if k == "email" { s, i := 0, 2; }
    else if k == "birth_date" { s, i := 0, 3; }
    else if k == "rg" { s, i := 1, 0; }
    else if k == "cpf" { s, i := 1, 1; }
    else if k == "blood_type" { s, i := 1, 2; }
    else if k == "city" { s, i := 2, 0; }
    else if k == "address" { s, i := 2, 1; }
    else if k == "address_number" { s, i := 2, 2; }
    else if k == "cep" { s, i := 2, 3; }
    else if k == "home_phone" { s, i := 3, 0; }
    else if k == "cell_phone" { s, i := 3, 1; }
    else if k == "contact_phone" { s, i := 3, 2; }
    else if k == "cad_unico" { s, i := 4, 0; }
    else if k == "nis" { s, i := 4, 1; }
    else if k == "school" { s, i := 4, 2; }
    else if k == "res_name" { s, i := 5, 0; }
    else if k == "res_relationship" { s, i := 5, 1; }
    else if k == "res_rg" { s, i := 5, 2; }
    else if k == "res_cpf" { s, i := 5, 3; }
    else { s, i := 5, 4; }
  }

  /** No step repeats a field name. */
  lemma StepsDistinct(s: int)
    requires 0 <= s < |Steps|
    ensures DistinctNames(Steps[s])
  {
  }

  /** `handleInputChange`: store the raw value under its name, and set that
      name's error from the current step's descriptor alone. */
  function HandleInputChange(st: State, name: string, value: string): (r: State)
    requires StepInRange(st)
    ensures name in r.newPerson && r.newPerson[name] == value
    ensures r.newPerson - {name} == st.newPerson - {name}
    ensures name in r.errors && (r.errors[name].Some? ==> IsBlank(value))
    ensures !HasField(Steps[st.currentStep], name) ==> r.errors[name] == None
    ensures r.errors - {name} == st.errors - {name}
    ensures r.(newPerson := st.newPerson, errors := st.errors) == st
  {
    st.(newPerson := Assign(st.newPerson, name, value),
        errors := st.errors[name := KeystrokeError(Steps[st.currentStep], name, value, Labelled)])
  }

  /** Typing in a field of the current step records "<label> é obrigatório"
      exactly when the value is blank, and clears the entry otherwise. */
  lemma KeystrokeOnStepField(st: State, i: int, value: string)
    requires StepInRange(st)
    requires 0 <= i < |Steps[st.currentStep]|
    ensures var f := Steps[st.currentStep][i];
      HandleInputChange(st, f.name, value).errors[f.name]
        == if IsBlank(value) then Some(f.labelText + " é obrigatório") else None
  {
    StepsDistinct(st.currentStep);
    KeystrokeErrorOfField(Steps[st.currentStep], i, value, Labelled);
  }

  /** The `stepErrors` of `validateStep`: one labelled message per required
      field of the current step that is absent or blank. */
  function StepErrors(st: State): ErrorMap
    requires StepInRange(st)
  {
    CollectErrors(Steps[st.currentStep], (f: Field) => BlankRequired(st.newPerson, Labelled, f))
  }

  /** `validateStep`: merge the step's errors into the existing map, and pass
      iff the step recorded none. Entries of other fields, stale ones
      included, are left as they were. */
  function ValidateStep(st: State): (v: (bool, ErrorMap))
    requires StepInRange(st)
    ensures var fields := Steps[st.currentStep];
      v.0 <==> forall i :: 0 <= i < |fields| ==> !(fields[i].required && Missing(st.newPerson, fields[i].name))
    ensures forall k :: k in v.1 <==> k in st.errors || k in StepErrors(st)
    ensures forall k :: k in st.errors && k !in StepErrors(st) ==> v.1[k] == st.errors[k]
    ensures forall k :: k in StepErrors(st) ==> v.1[k] == StepErrors(st)[k]
  {
    var fields := Steps[st.currentStep];
    var check := (f: Field) => BlankRequired(st.newPerson, Labelled, f);
    CollectErrorsEmpty(fields, check);
    (StepErrors(st) == map[], st.errors + StepErrors(st))
  }

  /** The merged entry of each failing field is its labelled required message. */
  lemma ValidateStepMessage(st: State, i: int)
    requires StepInRange(st)
    requires 0 <= i < |Steps[st.currentStep]|
    requires Missing(st.newPerson, Steps[st.currentStep][i].name)
    ensures var f := Steps[st.currentStep][i];
      f.name in ValidateStep(st).1 && ValidateStep(st).1[f.name] == Some(f.labelText + " é obrigatório")
  {
    StepsDistinct(st.currentStep);
    CollectErrorsValue(Steps[st.currentStep], (f: Field) => BlankRequired(st.newPerson, Labelled, f), i);
  }

  /** `handleNext`: advance by exactly one when the step validates. There is
      no clamp here; the footer offers the button only before the last step. */
  function HandleNext(st: State): (r: State)
    requires StepInRange(st)
    ensures r.errors == ValidateStep(st).1
    ensures r.currentStep == if ValidateStep(st).0 then st.currentStep + 1 else st.currentStep
    ensures r.(errors := st.errors, currentStep := st.currentStep) == st
  {
    var v := ValidateStep(st);
    st.(errors := v.1, currentStep := if v.0 then st.currentStep + 1 else st.currentStep)
  }

  /** `handleBack`: back by one, never below the first step. */
  function HandleBack(st: State): (r: State)
    ensures r.currentStep == if st.currentStep <= 0 then 0 else st.currentStep - 1
    ensures 0 <= r.currentStep
    ensures r.(currentStep := st.currentStep) == st
  {
    st.(currentStep := if st.currentStep - 1 < 0 then 0 else st.currentStep - 1)
  }

  /** A handler's new state and the requests it sent. */
  datatype Outcome = Outcome(state: State, sent: seq<Sent>)

  /** `handleSubmit`, with the two awaited replies as parameters: on a failed
      step nothing is sent; otherwise the person is created and the list
      reloaded (`getAllPersons(10, 0)`), and only when both calls resolve is
      the list replaced by the reply's data, the draft reset to
      `defaultPerson`, the wizard rewound and the dialog closed. A rejection
      leaves everything but the merged errors as it was. Each service call
      looks the session up afresh, so the create sees `session` and the
      reload `reloadSession`. */
  function HandleSubmit(st: State, session: Session, reloadSession: Session, created: Net<()>, listed: Net<seq<Draft>>): (r: Outcome)
    requires StepInRange(st)
    ensures StepInRange(r.state)
    ensures r.state.errors == ValidateStep(st).1
    ensures !ValidateStep(st).0 ==> r.sent == []
    ensures SessionToken(session).None? ==> r.sent == []
    ensures var create := Sent(CreatePerson(st.newPerson), SessionToken(session));
      && (ValidateStep(st).0 && SessionToken(session).Some? && created.Rejected? ==> r.sent == [create])
      && (ValidateStep(st).0 && SessionToken(session).Some? && created.Resolved? ==>
            r.sent == [create] + (if SessionToken(reloadSession).Some?
                                  then [Sent(ListPersons(10, 0), SessionToken(reloadSession))] else []))
    ensures var success := ValidateStep(st).0 && SessionToken(session).Some? && created.Resolved?
                           && SessionToken(reloadSession).Some? && listed.Resolved?;
      && (success ==> r.state == State(listed.value, DefaultPerson, ValidateStep(st).1, 0, false))
      && (!success ==> r.state == st.(errors := ValidateStep(st).1))
  {
    var v := ValidateStep(st);
    var st1 := st.(errors := v.1);
    if !v.0 then Outcome(st1, [])
    else
      var create := Authorized(session, CreatePerson(st.newPerson), created);
      if create.reply.Rejected? then Outcome(st1, create.sent)
      else
        var list := Authorized(reloadSession, ListPersons(10, 0), listed);
        match list.reply
        case Rejected => Outcome(st1, create.sent + list.sent)
        case Resolved(data) =>
          Outcome(st1.(people := data, newPerson := DefaultPerson, currentStep := 0, dialogOpen := false),
                  create.sent + list.sent)
  }

  /** The dialog's footer: Back is disabled on the first step; the forward
      button is Next before the last step and Save on it. */
  datatype Button = Back | Forward

  function Press(st: State, b: Button, session: Session, reloadSession: Session, created: Net<()>, listed: Net<seq<Draft>>): (r: Outcome)
    requires StepInRange(st)
    ensures StepInRange(r.state)
  {
    match b
    case Back => Outcome(if st.currentStep == 0 then st else HandleBack(st), [])
    case Forward =>
      if st.currentStep < |Steps| - 1 then Outcome(HandleNext(st), [])
      else HandleSubmit(st, session, reloadSession, created, listed)
  }

  /** Submitting with a blank field on screen sends nothing. */
  lemma SubmitGate(st: State, session: Session, reloadSession: Session, created: Net<()>, listed: Net<seq<Draft>>, i: int)
    requires StepInRange(st)
    requires 0 <= i < |Steps[st.currentStep]| && Missing(st.newPerson, Steps[st.currentStep][i].name)
    ensures HandleSubmit(st, session, reloadSession, created, listed).sent == []
    ensures HandleSubmit(st, session, reloadSession, created, listed).state.people == st.people
  {
    assert Steps[st.currentStep][i].required;
  }
}
