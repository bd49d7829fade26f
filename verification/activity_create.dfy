/** The new-activity form: a draft filled in by keystrokes and time pickers,
    handed to the parent on save unless an error is on record. */
module ActivityCreate {
  import opened Text
  import opened Schema
  import ActivityUpdate

  /** The component's state: the draft and the errors recorded by keystrokes. */
  datatype State = State(newActivity: Draft, errors: ErrorMap)

  const InitialState: State := State(map[], map[])

  /** Some recorded entry holds a message rather than `null`. */
  predicate HasError(errors: ErrorMap) {
    exists k :: k in errors && errors[k].Some?
  }

  /** The state after a save, and the activity passed to `onAddActivity`, if any. */
  datatype Saved = Saved(state: State, added: Option<Draft>)

  /** `handleSave`: with an error on record nothing happens; otherwise the
      draft is handed over as it stands and the form starts again empty,
      its error map kept. */
  function HandleSave(st: State): (r: Saved)
    ensures HasError(st.errors) <==> r.added.None?
    ensures HasError(st.errors) ==> r.state == st
    ensures !HasError(st.errors) ==>
      r.added == Some(st.newActivity) && r.state == State(map[], st.errors)
  {
    if HasError(st.errors) then Saved(st, None)
    else Saved(st.(newActivity := map[]), Some(st.newActivity))
  }

  /** `handleInputChange`: the value goes into the draft; the field's error
      becomes "This field is required" when one of the five fields is blank,
      `null` otherwise. */
  function HandleInputChange(st: State, name: string, value: string): (r: State)
    ensures name in r.newActivity && r.newActivity[name] == value
    ensures r.newActivity - {name} == st.newActivity - {name}
    ensures r.errors - {name} == st.errors - {name}
    ensures name in r.errors
    ensures r.errors[name].Some? <==> ActivityUpdate.IsActivityField(name) && IsBlank(value)
    ensures r.errors[name].Some? ==> r.errors[name] == Some(RequiredText)
  {
    ActivityUpdate.KeystrokeOnActivityFields(name, value);
    State(Assign(st.newActivity, name, value),
          Assign(st.errors, name, KeystrokeError(ActivityUpdate.ActivityFields, name, value, Generic)))
  }

  /** `handleTimeChange`: the picked time goes into the draft; the error map
      is never touched. */
  function HandleTimeChange(st: State, t: ActivityUpdate.TimeString, fieldName: string): (r: State)
    ensures r.errors == st.errors
    ensures r.newActivity - {fieldName} == st.newActivity - {fieldName}
    ensures ActivityUpdate.Schedule(t).Some? ==>
      fieldName in r.newActivity && r.newActivity[fieldName] == ActivityUpdate.Schedule(t).value
    ensures ActivityUpdate.Schedule(t).None? ==> fieldName !in r.newActivity
  {
    st.(newActivity := ActivityUpdate.Put(st.newActivity, fieldName, ActivityUpdate.Schedule(t)))
  }

  /** The gate reads only recorded errors: a form nobody typed into is saved
      with an empty activity. */
  lemma UntouchedFormSaved()
    ensures HandleSave(InitialState).added == Some(map[])
  {
  }

  /** Picking times never blocks or unblocks a save. */
  lemma TimeChangeKeepsGate(st: State, t: ActivityUpdate.TimeString, fieldName: string)
    ensures HandleSave(HandleTimeChange(st, t, fieldName)).added.Some? <==> HandleSave(st).added.Some?
  {
  }

  /** Blanking one of the five fields blocks the save. */
  lemma BlankKeystrokeBlocksSave(st: State, name: string, value: string)
    requires ActivityUpdate.IsActivityField(name) && IsBlank(value)
    ensures HandleSave(HandleInputChange(st, name, value)).added.None?
  {
    var s := HandleInputChange(st, name, value);
    assert name in s.errors && s.errors[name].Some?;
  }

  /** Filling in the one field that held the only error unblocks the save,
      which then hands over the draft with the new value. */
  lemma FixingLastErrorUnblocksSave(st: State, name: string, value: string)
    requires forall k :: k in st.errors && k != name ==> st.errors[k].None?
    requires !IsBlank(value)
    ensures var s := HandleInputChange(st, name, value);
      HandleSave(s).added == Some(st.newActivity[name := value])
  {
    var s := HandleInputChange(st, name, value);
    forall k | k in s.errors ensures s.errors[k].None? {
      if k != name {
        assert k in s.errors - {name};
      }
    }
  }
}
