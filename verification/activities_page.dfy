/** The activities page backed by the remote API: a searchable list and a
    dialog that creates an activity and reloads the list. */
module ActivitiesPage {
  import opened Text
  import opened Schema
  import opened Remote
  import opened Collections

  /** `activityFields`. */
  const ActivityFields: seq<Field> := [
    Field("name", "Nome Atividade", TextInput, true, None, []),
    Field("hour_start", "Hora Inicio", TextInput, true, None, []),
    Field("hour_end", "Hora Final", TextInput, true, None, [])
  ]

  /** An entry of the list the data context holds: `null` or an activity's attributes. */
  type Entry = Option<Draft>

  /** The page's state; `atividades` is `None` until the context has loaded. */
  datatype State = State(
    atividades: Option<seq<Entry>>,
    newActivity: Draft,
    errors: ErrorMap,
    addOpen: bool)

  /** An entry the table shows for a search term: not `null`, with a
      non-empty name that contains the term, ignoring case. */
  predicate Shown(a: Entry, term: string) {
    a.Some? && "name" in a.value && a.value["name"] != "" && SearchMatch(a.value["name"], term)
  }

  /** `filteredActivities`: a missing list reads as empty, `null` entries and
      entries without a name are dropped, the rest kept iff the name matches. */
  function FilteredActivities(atividades: Option<seq<Entry>>, term: string): (r: seq<Entry>)
    ensures atividades.None? ==> r == []
    ensures forall a :: a in r <==> atividades.Some? && a in atividades.value && Shown(a, term)
    ensures forall a :: a in r ==> a.Some? && "name" in a.value
  {
    Filter(if atividades.Some? then atividades.value else [], (a: Entry) => Shown(a, term))
  }

  /** With no search term, exactly the named, non-null entries remain. */
  lemma FilteredActivitiesEmptyTerm(xs: seq<Entry>)
    ensures forall a :: a in FilteredActivities(Some(xs), "") <==>
      a in xs && a.Some? && "name" in a.value && a.value["name"] != ""
  {
    forall a | a in xs && a.Some? && "name" in a.value && a.value["name"] != "" ensures Shown(a, "") {
      IncludesEmpty(Lower(a.value["name"]));
    }
  }

  /** The labelled required messages of the three fields. */
  lemma ActivityLabels()
    ensures RequiredMessage(Labelled, ActivityFields[0]) == "Nome Atividade é obrigatório"
    ensures RequiredMessage(Labelled, ActivityFields[1]) == "Hora Inicio é obrigatório"
    ensures RequiredMessage(Labelled, ActivityFields[2]) == "Hora Final é obrigatório"
  {
    assert "Nome Atividade" + " é obrigatório" == "Nome Atividade é obrigatório";
    assert "Hora Inicio" + " é obrigatório" == "Hora Inicio é obrigatório";
    assert "Hora Final" + " é obrigatório" == "Hora Final é obrigatório";
  }

  /** Whether a name is one of the dialog's fields. */
  predicate IsActivityField(name: string) {
    name == "name" || name == "hour_start" || name == "hour_end"
  }

  /** `handleInputChange`: store the value; the field's error becomes its
      labelled required message when a schema field is blank, `null` otherwise. */
  function HandleInputChange(st: State, name: string, value: string): (r: State)
    ensures name in r.newActivity && r.newActivity[name] == value
    ensures r.newActivity - {name} == st.newActivity - {name}
    ensures r.errors - {name} == st.errors - {name}
    ensures name in r.errors
    ensures r.errors[name].Some? <==> IsActivityField(name) && IsBlank(value)
    ensures name == "name" && IsBlank(value) ==> r.errors[name] == Some("Nome Atividade é obrigatório")
    ensures name == "hour_start" && IsBlank(value) ==> r.errors[name] == Some("Hora Inicio é obrigatório")
    ensures name == "hour_end" && IsBlank(value) ==> r.errors[name] == Some("Hora Final é obrigatório")
    ensures r.atividades == st.atividades && r.addOpen == st.addOpen
  {
    KeystrokeOnActivityFields(name, value);
    st.(newActivity := Assign(st.newActivity, name, value),
        errors := Assign(st.errors, name, KeystrokeError(ActivityFields, name, value, Labelled)))
  }

  lemma KeystrokeOnActivityFields(name: string, value: string)
    ensures var e := KeystrokeError(ActivityFields, name, value, Labelled);
      && (e.Some? <==> IsActivityField(name) && IsBlank(value))
      && (name == "name" && IsBlank(value) ==> e == Some("Nome Atividade é obrigatório"))
      && (name == "hour_start" && IsBlank(value) ==> e == Some("Hora Inicio é obrigatório"))
      && (name == "hour_end" && IsBlank(value) ==> e == Some("Hora Final é obrigatório"))
  {
    if IsActivityField(name) {
      assert DistinctNames(ActivityFields);
      var i := if name == "name" then 0 else if name == "hour_start" then 1 else 2;
      assert ActivityFields[i].name == name;
      KeystrokeErrorOfField(ActivityFields, i, value, Labelled);
      ActivityLabels();
    } else {
      assert !HasField(ActivityFields, name);
    }
  }

  /** The dialog may submit exactly when all three fields hold something besides spaces. */
  predicate Complete(d: Draft) {
    && "name" in d && "hour_start" in d && "hour_end" in d
    && !IsBlank(d["name"]) && !IsBlank(d["hour_start"]) && !IsBlank(d["hour_end"])
  }

  lemma GateIffComplete(d: Draft)
    ensures !AnyRequiredMissing(ActivityFields, d) <==> Complete(d)
  {
    if !Complete(d) {
      var i := if "name" !in d || IsBlank(d["name"]) then 0
               else if "hour_start" !in d || IsBlank(d["hour_start"]) then 1 else 2;
      assert ActivityFields[i].required && Missing(d, ActivityFields[i].name);
    }
  }

  /** The messages a refused add merges in: all three fields, filled or not. */
  lemma ActivityRequiredMessages()
    ensures RequiredMessages(ActivityFields)
         == map["name" := Some("Nome Atividade é obrigatório"),
                "hour_start" := Some("Hora Inicio é obrigatório"),
                "hour_end" := Some("Hora Final é obrigatório")]
  {
    var f0, f1, f2 := ActivityFields[0], ActivityFields[1], ActivityFields[2];
    assert ActivityFields == [] + [f0] + [f1] + [f2];
    CollectErrorsSnoc([], f0, RequiredCheck);
    CollectErrorsSnoc([f0], f1, RequiredCheck);
    CollectErrorsSnoc([f0] + [f1], f2, RequiredCheck);
    assert [] + [f0] == [f0];
    ActivityLabels();
  }

  /** Merging the messages over an error map sets the three entries and keeps the rest. */
  lemma MergeActivityMessages(errors: ErrorMap)
    ensures errors + RequiredMessages(ActivityFields)
         == errors["name" := Some("Nome Atividade é obrigatório")]
                  ["hour_start" := Some("Hora Inicio é obrigatório")]
                  ["hour_end" := Some("Hora Final é obrigatório")]
  {
    ActivityRequiredMessages();
  }

  /** `id_period` as the destructuring reads it: the draft's value when the
      key is there, the default 1 when it is absent. */
  function PeriodOf(d: Draft): (p: Period)
    ensures "id_period" !in d ==> p == PeriodNumber(1)
    ensures "id_period" in d ==> p == PeriodText(d["id_period"])
  {
    if "id_period" in d then PeriodText(d["id_period"]) else PeriodNumber(1)
  }

  /** A handler's new state and the requests it sent. */
  datatype Outcome = Outcome(state: State, sent: seq<Sent>)

  /** `handleAddActivity`, with the two awaited replies as parameters: with a
      blank field it sends nothing and marks all three fields; otherwise it
      creates the activity and reloads the list, storing the reply's data,
      and clears and closes the dialog only when both calls resolve. Each
      service call looks the session up afresh: the create sees `session`,
      the reload `reloadSession`. */
  function HandleAddActivity(st: State, session: Session, reloadSession: Session, created: Net<()>, listed: Net<Option<seq<Entry>>>): (r: Outcome)
    ensures !Complete(st.newActivity) ==>
      && r.sent == []
      && r.state == st.(errors := st.errors["name" := Some("Nome Atividade é obrigatório")]
                                           ["hour_start" := Some("Hora Inicio é obrigatório")]
                                           ["hour_end" := Some("Hora Final é obrigatório")])
    ensures Complete(st.newActivity) ==> Submitted(st, session, reloadSession, created, listed, r)
  {
    GateIffComplete(st.newActivity);
    if AnyRequiredMissing(ActivityFields, st.newActivity) then
      MergeActivityMessages(st.errors);
      Outcome(st.(errors := st.errors + RequiredMessages(ActivityFields)), [])
    else
      Create(st, session, reloadSession, created, listed)
  }

  /** What a submitted add promises: without a token for the create nothing
      is sent; with one, the create request built from the draft with the
      defaulted period goes first, and the reload follows only when the
      create resolved and the second lookup found a token; only a full
      success replaces the list and resets. */
  predicate Submitted(st: State, session: Session, reloadSession: Session, created: Net<()>, listed: Net<Option<seq<Entry>>>, r: Outcome)
    requires Complete(st.newActivity)
  {
    var d := st.newActivity;
    var create := Sent(CreateActivity(d["name"], d["hour_start"], d["hour_end"], PeriodOf(d)), SessionToken(session));
    && (SessionToken(session).None? ==> r.sent == [])
    && (SessionToken(session).Some? && created.Rejected? ==> r.sent == [create])
    && (SessionToken(session).Some? && created.Resolved? ==>
          r.sent == [create] + (if SessionToken(reloadSession).Some?
                                then [Sent(ListActivities, SessionToken(reloadSession))] else []))
    && (SessionToken(session).Some? && created.Resolved? && SessionToken(reloadSession).Some? && listed.Resolved? ==>
          r.state == st.(atividades := listed.value, newActivity := map[], addOpen := false))
    && (SessionToken(session).None? || created.Rejected? || SessionToken(reloadSession).None? || listed.Rejected? ==>
          r.state == st)
  }

  /** The calls `handleAddActivity` makes once the gate is passed. */
  function Create(st: State, session: Session, reloadSession: Session, created: Net<()>, listed: Net<Option<seq<Entry>>>): (r: Outcome)
    requires Complete(st.newActivity)
    ensures Submitted(st, session, reloadSession, created, listed, r)
  {
    var d := st.newActivity;
    var create := Authorized(session, CreateActivity(d["name"], d["hour_start"], d["hour_end"], PeriodOf(d)), created);
    if create.reply.Rejected? then Outcome(st, create.sent)
    else
      var list := Authorized(reloadSession, ListActivities, listed);
      match list.reply
      case Rejected => Outcome(st, create.sent + list.sent)
      case Resolved(xs) => Outcome(st.(atividades := xs, newActivity := map[], addOpen := false), create.sent + list.sent)
  }
}
