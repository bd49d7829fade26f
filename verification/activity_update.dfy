/** The activity table with its edit dialog: a local list of activities,
    a time picker and a validation that must pass before an edit is saved. */
module ActivityUpdate {
  import opened Text
  import opened Schema
  import opened Collections

  const Shifts: seq<string> := ["Morning", "Afternoon", "Evening"]
  const Days: seq<string> := ["Monday", "Tuesday", "Wednesday", "Thursday", "Friday", "Saturday", "Sunday"]

  /** `activityFields`: five required fields. */
  const ActivityFields: seq<Field> := [
    Field("activityName", "Activity Name", TextInput, true, None, []),
    Field("activityShift", "Shift", SelectInput, true, None, Shifts),
    Field("activityDay", "Day", SelectInput, true, None, Days),
    Field("activityInitial", "Horário Inicial", TimeInput, true, None, []),
    Field("activityFinal", "Horário Final", TimeInput, true, None, [])
  ]

  /** `initialActivities`. */
  const InitialActivities: seq<Record> := [
    Record(1, map["activityName" := "Yoga", "activityShift" := "Morning",
                  "activityDay" := "Monday", "activityInitial" := "08:00 AM"]),
    Record(2, map["activityName" := "Cooking Class", "activityShift" := "Afternoon",
                  "activityDay" := "Wednesday", "activityInitial" := "02:00 PM"])
  ]

  /** The component's state. */
  datatype State = State(
    activities: seq<Record>,
    newActivity: Draft,
    editing: Option<EditBuffer>,
    editOpen: bool,
    errors: ErrorMap)

  const InitialState: State := State(InitialActivities, map[], None, false, map[])

  /** Whether a name is one of the five fields. */
  predicate IsActivityField(name: string) {
    name in {"activityName", "activityShift", "activityDay", "activityInitial", "activityFinal"}
  }

  /** Where a field sits in the schema. */
  lemma FieldIndex(name: string) returns (i: int)
    requires IsActivityField(name)
    ensures 0 <= i < |ActivityFields| && ActivityFields[i].name == name
  {
    i := if name == "activityName" then 0 else if name == "activityShift" then 1
         else if name == "activityDay" then 2 else if name == "activityInitial" then 3 else 4;
  }

  /** The keystroke rule over the five fields, with the generic wording. */
  lemma KeystrokeOnActivityFields(name: string, value: string)
    ensures var e := KeystrokeError(ActivityFields, name, value, Generic);
      && (e.Some? <==> IsActivityField(name) && IsBlank(value))
      && (e.Some? ==> e == Some(RequiredText))
  {
    if IsActivityField(name) {
      assert DistinctNames(ActivityFields);
      var i := FieldIndex(name);
      KeystrokeErrorOfField(ActivityFields, i, value, Generic);
    } else {
      assert !HasField(ActivityFields, name);
    }
  }

  /** `handleInputChange`: the value goes into the create draft, even while
      editing; the field's error becomes "This field is required" when one of
      the five fields is blank, `null` otherwise. */
  function HandleInputChange(st: State, name: string, value: string): (r: State)
    ensures name in r.newActivity && r.newActivity[name] == value
    ensures r.newActivity - {name} == st.newActivity - {name}
    ensures r.errors - {name} == st.errors - {name}
    ensures name in r.errors
    ensures r.errors[name].Some? <==> IsActivityField(name) && IsBlank(value)
    ensures r.errors[name].Some? ==> r.errors[name] == Some(RequiredText)
    ensures r.(newActivity := st.newActivity, errors := st.errors) == st
  {
    KeystrokeOnActivityFields(name, value);
    st.(newActivity := Assign(st.newActivity, name, value),
        errors := Assign(st.errors, name, KeystrokeError(ActivityFields, name, value, Generic)))
  }

  /** What a time picker reports: one time, or a list of them. */
  datatype TimeString = One(text: string) | Many(texts: seq<string>)

  /** `Array.isArray(t) ? t[0] : t`; the first of an empty list is `undefined`. */
  function Schedule(t: TimeString): (r: Option<string>)
    ensures t.One? ==> r == Some(t.text)
    ensures t.Many? && |t.texts| > 0 ==> r == Some(t.texts[0])
    ensures t.Many? && t.texts == [] ==> r == None
  {
    match t
    case One(s) => Some(s)
    case Many(ts) => if ts == [] then None else Some(ts[0])
  }

  /** Stores a value under a name; storing `undefined` reads afterwards as an
      absent attribute. */
  function Put(d: Draft, name: string, v: Option<string>): (r: Draft)
    ensures r - {name} == d - {name}
    ensures v.Some? ==> name in r && r[name] == v.value
    ensures v.None? ==> name !in r
  {
    match v
    case Some(s) => d[name := s]
    case None => d - {name}
  }

  /** `handleTimeChange`: the picked time goes into the edit buffer, which is
      started empty when there is none; the other attributes, the buffer's id
      and the rest of the state stay as they were. */
  function HandleTimeChange(st: State, t: TimeString, fieldName: string): (r: State)
    ensures r.editing.Some?
    ensures var before := if st.editing.Some? then st.editing.value.attrs else map[];
      r.editing.value.attrs - {fieldName} == before - {fieldName}
    ensures Schedule(t).Some? ==>
      fieldName in r.editing.value.attrs && r.editing.value.attrs[fieldName] == Schedule(t).value
    ensures Schedule(t).None? ==> fieldName !in r.editing.value.attrs
    ensures st.editing.Some? ==> r.editing.value.id == st.editing.value.id
    ensures st.editing.None? ==> r.editing.value.id.None?
    ensures r.(editing := st.editing) == st
  {
    var prev := if st.editing.Some? then st.editing.value else EditBuffer(None, map[]);
    st.(editing := Some(prev.(attrs := Put(prev.attrs, fieldName, Schedule(t)))))
  }

  /** The outcome of a validation: whether it passed, and the error map it leaves. */
  datatype Verdict = Verdict(ok: bool, errors: ErrorMap)

  /** The check `validateActivity` applies to each field. */
  function BlankCheck(a: Draft): Field -> Option<string> {
    (f: Field) => BlankRequired(a, Generic, f)
  }

  /** Over any schema, the blank check records exactly the required fields
      that are absent or blank, each with "This field is required". */
  lemma BlankErrors(fields: seq<Field>, a: Draft)
    ensures var m := CollectErrors(fields, BlankCheck(a));
      && (forall k :: k in m <==> exists i :: 0 <= i < |fields| && fields[i].name == k && fields[i].required && Missing(a, k))
      && (forall k :: k in m ==> m[k] == Some(RequiredText))
  {
  }

  /** The names of the schema are exactly the five activity fields, all required. */
  lemma ActivitySchema()
    ensures forall k :: HasField(ActivityFields, k) <==> IsActivityField(k)
    ensures forall i :: 0 <= i < |ActivityFields| ==> ActivityFields[i].required
  {
    forall k | IsActivityField(k) ensures HasField(ActivityFields, k) {
      var i := FieldIndex(k);
    }
  }

  /** `validateActivity`: the error map is replaced by exactly the fields
      that are absent or blank, each with "This field is required"; the
      activity passes iff there are none. */
  function ValidateActivity(a: Draft): (v: Verdict)
    ensures v.ok <==> forall k :: IsActivityField(k) ==> !Missing(a, k)
    ensures v.ok <==> v.errors == map[]
    ensures forall k :: k in v.errors <==> IsActivityField(k) && Missing(a, k)
    ensures forall k :: k in v.errors ==> v.errors[k] == Some(RequiredText)
  {
    var m := CollectErrors(ActivityFields, BlankCheck(a));
    ValidateKeys(a);
    Verdict(m == map[], m)
  }

  /** The keys of the validation's error map, over the concrete schema. */
  lemma ValidateKeys(a: Draft)
    ensures var m := CollectErrors(ActivityFields, BlankCheck(a));
      && (forall k :: k in m <==> IsActivityField(k) && Missing(a, k))
      && (forall k :: k in m ==> m[k] == Some(RequiredText))
  {
    BlankErrors(ActivityFields, a);
    ActivitySchema();
  }

  /** `handleEditActivity`: when the buffer validates, the entries with its id
      become the buffer's record and the dialog is reset; otherwise only the
      error map changes. Validating a `null` buffer throws, so one must exist. */
  function HandleEditActivity(st: State): (r: State)
    requires st.editing.Some?
    ensures ValidateActivity(st.editing.value.attrs).ok ==>
      && |r.activities| == |st.activities|
      && (forall i :: 0 <= i < |st.activities| ==>
            r.activities[i] == (if Some(st.activities[i].id) == st.editing.value.id
                                then Record(st.activities[i].id, st.editing.value.attrs)
                                else st.activities[i]))
      && r.editing.None? && !r.editOpen && r.errors == map[]
      && r.newActivity == st.newActivity
    ensures !ValidateActivity(st.editing.value.attrs).ok ==>
      r == st.(errors := ValidateActivity(st.editing.value.attrs).errors)
  {
    var b := st.editing.value;
    var v := ValidateActivity(b.attrs);
    if v.ok then ResetEditingActivity(st.(activities := SaveEdit(st.activities, b)))
    else st.(errors := v.errors)
  }

  /** `resetEditingActivity`: drop the buffer, close the dialog, clear the errors. */
  function ResetEditingActivity(st: State): (r: State)
    ensures r.editing.None? && !r.editOpen && r.errors == map[]
    ensures r.activities == st.activities && r.newActivity == st.newActivity
  {
    st.(editing := None, editOpen := false, errors := map[])
  }

  /** Every listed activity has the two attributes the search reads. */
  predicate Listable(rs: seq<Record>) {
    forall i :: 0 <= i < |rs| ==> "activityName" in rs[i].attrs && "activityDay" in rs[i].attrs
  }

  /** The search test of one activity: the term in its name or its day, ignoring case. */
  predicate Matching(a: Record, term: string) {
    && "activityName" in a.attrs && "activityDay" in a.attrs
    && (SearchMatch(a.attrs["activityName"], term) || SearchMatch(a.attrs["activityDay"], term))
  }

  /** `filteredActivities`. Reading the name of an activity without one
      throws, so every listed activity must have both attributes. */
  function FilteredActivities(rs: seq<Record>, term: string): (r: seq<Record>)
    requires Listable(rs)
    ensures forall a :: a in r <==> (a in rs &&
      (SearchMatch(a.attrs["activityName"], term) || SearchMatch(a.attrs["activityDay"], term)))
  {
    Filter(rs, (a: Record) => Matching(a, term))
  }

  /** The initial list can be searched. */
  lemma InitialListable()
    ensures Listable(InitialActivities)
  {
  }

  /** Saving a buffer that has both attributes keeps a list searchable. */
  lemma SaveKeepsListable(rs: seq<Record>, b: EditBuffer)
    requires Listable(rs)
    requires "activityName" in b.attrs && "activityDay" in b.attrs
    ensures Listable(SaveEdit(rs, b))
  {
  }

  /** A buffer that validates has a name and a day. */
  lemma NameAndDayPresent(a: Draft)
    requires ValidateActivity(a).ok
    ensures "activityName" in a && "activityDay" in a
  {
    assert IsActivityField("activityName") && IsActivityField("activityDay");
    assert !Missing(a, "activityName") && !Missing(a, "activityDay");
  }

  /** Saving an edit keeps the list searchable: a buffer only replaces an
      entry after the validation found its name and day present. */
  lemma EditKeepsListable(st: State)
    requires st.editing.Some? && Listable(st.activities)
    ensures Listable(HandleEditActivity(st).activities)
  {
    var b := st.editing.value;
    if ValidateActivity(b.attrs).ok {
      NameAndDayPresent(b.attrs);
      SaveKeepsListable(st.activities, b);
    }
  }

  /** What the dialog's fields can do: a keystroke in a text or select field,
      or a pick in one of the two time fields. */
  datatype Action = Keystroke(name: string, value: string) | Pick(t: TimeString, fieldName: string)

  predicate TimeField(name: string) {
    name == "activityInitial" || name == "activityFinal"
  }

  predicate Allowed(a: Action) {
    a.Pick? ==> TimeField(a.fieldName)
  }

  function Apply(st: State, a: Action): State {
    match a
    case Keystroke(name, value) => HandleInputChange(st, name, value)
    case Pick(t, fieldName) => HandleTimeChange(st, t, fieldName)
  }

  function Run(st: State, acts: seq<Action>): State
    decreases |acts|
  {
    if acts == [] then st else Run(Apply(st, acts[0]), acts[1..])
  }

  /** The edit buffer holds no activity name. */
  predicate Nameless(st: State) {
    st.editing.None? || "activityName" !in st.editing.value.attrs
  }

  /** Keystrokes write the create draft and pickers only write the two time
      fields, so a buffer without a name never gains one. */
  lemma {:induction false} RunKeepsNameless(st: State, acts: seq<Action>)
    requires Nameless(st)
    requires forall i :: 0 <= i < |acts| ==> Allowed(acts[i])
    ensures Nameless(Run(st, acts))
    decreases |acts|
  {
    if acts != [] {
      var next := Apply(st, acts[0]);
      if acts[0].Pick? {
        assert Allowed(acts[0]);
        assert Nameless(next);
      }
      assert forall i :: 0 <= i < |acts[1..]| ==> acts[1..][i] == acts[i + 1];
      RunKeepsNameless(next, acts[1..]);
    }
  }

  /** A buffer without a name fails validation, so saving it changes no entry. */
  lemma NamelessNotSaved(st: State)
    requires st.editing.Some? && Nameless(st)
    ensures !ValidateActivity(st.editing.value.attrs).ok
    ensures HandleEditActivity(st).activities == st.activities
  {
    assert IsActivityField("activityName");
    assert Missing(st.editing.value.attrs, "activityName");
  }

  /** The initial state has no edit buffer. */
  lemma InitialNameless()
    ensures Nameless(InitialState)
  {
  }

  /** From a state whose buffer has no name (the initial one among them),
      whatever is typed and picked, saving the edit buffer fails validation
      and leaves the list as it was: the name the validation requires never
      reaches the buffer. */
  lemma EditNeverSaves(st0: State, acts: seq<Action>)
    requires Nameless(st0)
    requires forall i :: 0 <= i < |acts| ==> Allowed(acts[i])
    requires Run(st0, acts).editing.Some?
    ensures !ValidateActivity(Run(st0, acts).editing.value.attrs).ok
    ensures HandleEditActivity(Run(st0, acts)).activities == Run(st0, acts).activities
  {
    RunKeepsNameless(st0, acts);
    NamelessNotSaved(Run(st0, acts));
  }
}
