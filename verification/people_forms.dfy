/** The four-section person wizard of the people dashboard component: its
    field schema, the masked per-keystroke validation, the per-section
    validation that gates navigation and saving, and the local people list
    it appends to, edits and deletes from. Every handler is a pure function
    from the component's state to its next state. */
module PeopleForms {
  import opened Text
  import opened Schema
  import opened Masks
  import opened Collections

  datatype Section = Section(title: string, fields: seq<Field>)

  const BloodTypes: seq<string> := ["A+", "A-", "B+", "B-", "AB+", "AB-", "O+", "O-"]
  const Shifts: seq<string> := ["Morning", "Afternoon", "Evening"]
  const Days: seq<string> := ["Monday", "Tuesday", "Wednesday", "Thursday", "Friday", "Saturday", "Sunday"]

  /** The fields of the four sections of `formSections`, in order. */
  const PersonalFields: seq<Field> := [
    Field("firstName", "First Name", TextInput, true, None, []),
    Field("lastName", "Last Name", TextInput, true, None, []),
    Field("dateOfBirth", "Date of Birth", DateInput, true, None, []),
    Field("cpf", "CPF", TextInput, true, Some(CpfPattern), []),
    Field("uniqueRegistration", "Unique Registration", TextInput, true, None, []),
    Field("nis", "NIS", TextInput, true, None, []),
    Field("school", "School", TextInput, true, None, []),
    Field("bloodType", "Blood Type", SelectInput, true, None, BloodTypes)]

  const ContactFields: seq<Field> := [
    Field("address", "Address", TextInput, true, None, []),
    Field("number", "Number", TextInput, true, None, []),
    Field("neighborhood", "Neighborhood", TextInput, true, None, []),
    Field("city", "City", TextInput, true, None, []),
    Field("zipCode", "ZIP Code", TextInput, true, Some(ZipCodePattern), []),
    Field("email", "Email", EmailInput, true, Some(EmailPattern), []),
    Field("currentAge", "Current Age", NumberInput, true, None, []),
    Field("homePhone", "Home Phone", TelInput, true, None, []),
    Field("mobilePhone", "Mobile Phone", TelInput, true, None, []),
    Field("contactPhone", "Contact Phone", TelInput, true, None, [])]

  const GuardianFields: seq<Field> := [
    Field("guardianName", "Guardian's Name", TextInput, true, None, []),
    Field("guardianRG", "Guardian's RG", TextInput, true, None, []),
    Field("relationshipDegree", "Relationship Degree", RadioInput, true, None, ["FATHER", "MOTHER", "Other"]),
    Field("guardianMobilePhone", "Guardian's Mobile Phone", TelInput, true, None, []),
    Field("guardianContactPhone", "Guardian's Contact Phone", TelInput, true, None, [])]

  const ActivityFields: seq<Field> := [
    Field("activityName", "Activity Name", TextInput, true, None, []),
    Field("activityShift", "Shift", SelectInput, true, None, Shifts),
    Field("activitySchedule", "Schedule", TextInput, true, None, []),
    Field("activityDay", "Day", SelectInput, true, None, Days),
    Field("activityDetails", "Additional Details", TextAreaInput, false, None, [])]

  /** `formSections`. */
  const FormSections: seq<Section> := [
    Section("Personal Information", PersonalFields),
    Section("Contact Information", ContactFields),
    Section("Guardian Information", GuardianFields),
    Section("Activity Information", ActivityFields)]

  /** `formSections.flatMap(section => section.fields)`. */
  function AllFields(): seq<Field> {
    PersonalFields + ContactFields + GuardianFields + ActivityFields
  }

  /** `initialPeople`. */
  const InitialPeople: seq<Record> := [
    Record(1, map["firstName" := "John", "lastName" := "Doe", "email" := "john@example.com", "phone" := "(12)3456-7890"]),
    Record(2, map["firstName" := "Jane", "lastName" := "Smith", "email" := "jane@example.com", "phone" := "(09)8765-4321"])
  ]

  /** The component's state. */
  datatype State = State(
    people: seq<Record>,
    newPerson: Draft,
    editingPerson: Option<EditBuffer>,
    currentStep: int,
    errors: ErrorMap,
    addOpen: bool,
    editOpen: bool)

  /** The wizard's step index names one of the sections. */
  predicate StepInRange(st: State) {
    0 <= st.currentStep < |FormSections|
  }

  const InitialState: State := State(InitialPeople, map[], None, 0, map[], false, false)

  const LandlineFields: seq<string> := ["homePhone", "contactPhone", "guardianContactPhone"]
  const MobileFields: seq<string> := ["mobilePhone", "guardianMobilePhone"]

  /** The mask `handleInputChange` applies to a typed value. */
  function Mask(name: string, value: string): string {
    if name == "cpf" then FormatCpf(value)
    else if name in LandlineFields then FormatPhone(value, false)
    else if name in MobileFields then FormatPhone(value, true)
    else value
  }

  /** The message a keystroke records for a required field: required when
      blank, invalid format when its pattern rejects the value, else `null`. */
  function KeystrokeMessage(f: Field, v: string): Option<string> {
    if IsBlank(v) then Some(RequiredText)
    else if f.validation.Some? && !Matches(f.validation.value, v) then Some(InvalidText)
    else None
  }

  /** Writes a value into the edit buffer (starting one when there is none)
      or into the draft. */
  function Store(st: State, name: string, v: string, isEditing: bool): (r: State)
    ensures r.people == st.people && r.currentStep == st.currentStep && r.errors == st.errors
    ensures r.addOpen == st.addOpen && r.editOpen == st.editOpen
    ensures !isEditing ==> r.editingPerson == st.editingPerson
    ensures !isEditing ==> name in r.newPerson && r.newPerson[name] == v
    ensures !isEditing ==> r.newPerson - {name} == st.newPerson - {name}
    ensures isEditing ==> r.newPerson == st.newPerson && r.editingPerson.Some?
    ensures isEditing ==> name in r.editingPerson.value.attrs && r.editingPerson.value.attrs[name] == v
    ensures isEditing && st.editingPerson.Some? ==>
      r.editingPerson.value.id == st.editingPerson.value.id
      && r.editingPerson.value.attrs - {name} == st.editingPerson.value.attrs - {name}
  {
    if isEditing then
      match st.editingPerson
      case None => st.(editingPerson := Some(EditBuffer(None, map[name := v])))
      case Some(b) => st.(editingPerson := Some(b.(attrs := b.attrs[name := v])))
    else st.(newPerson := st.newPerson[name := v])
  }

  /** The error map after a keystroke: the field's message is recorded when
      the name belongs to a required field other than the e-mail; every other
      entry stays as it was. */
  function RecordKeystroke(fields: seq<Field>, errors: ErrorMap, name: string, v: string): (e: ErrorMap)
    ensures e - {name} == errors - {name}
    ensures name == "email" || !HasField(fields, name) ==> e == errors
    ensures HasField(fields, name) && name != "email" && Find(fields, name).value.required ==>
      name in e && e[name] == KeystrokeMessage(Find(fields, name).value, v)
  {
    match Find(fields, name)
    case Some(f) => if f.required && name != "email" then errors[name := KeystrokeMessage(f, v)] else errors
    case None => errors
  }

  /** `handleInputChange(e, isEditing)` over a field list, without the
      debounced e-mail check: the masked value is stored, the field's
      keystroke message is recorded, and nothing else changes. */
  function InputChange(fields: seq<Field>, st: State, name: string, value: string, isEditing: bool): (r: State)
    ensures r.(errors := st.errors) == Store(st, name, Mask(name, value), isEditing)
    ensures r.errors - {name} == st.errors - {name}
    ensures name == "email" || !HasField(fields, name) ==> r.errors == st.errors
  {
    var v := Mask(name, value);
    Store(st, name, v, isEditing).(errors := RecordKeystroke(fields, st.errors, name, v))
  }

  /** `handleInputChange` of the wizard, looking the field up in every section. */
  function HandleInputChange(st: State, name: string, value: string, isEditing: bool): State {
    InputChange(AllFields(), st, name, value, isEditing)
  }

  /** A keystroke in the first field carrying its name records that field's
      message when it is required and not the e-mail, and leaves the error
      map alone otherwise. */
  lemma InputErrorRule(fields: seq<Field>, st: State, i: int, value: string, isEditing: bool)
    requires 0 <= i < |fields|
    requires forall j :: 0 <= j < i ==> fields[j].name != fields[i].name
    ensures var f := fields[i];
      InputChange(fields, st, f.name, value, isEditing).errors
        == if f.required && f.name != "email"
           then st.errors[f.name := KeystrokeMessage(f, Mask(f.name, value))]
           else st.errors
  {
    FindFirst(fields, i);
  }

  /** `person[name]` as `pattern.test` reads it: an absent attribute is
      `undefined`, which the test converts to the text "undefined". */
  function PatternInput(person: Draft, name: string): string {
    if name in person then person[name] else "undefined"
  }

  /** The error `validateStep` records for one field, `None` when it passes.
      A required field that is missing or blank is reported as required even
      when its pattern would also fail. */
  function FieldFailure(f: Field, person: Draft): (r: Option<string>)
    ensures r.None? <==>
      (!f.required || !Missing(person, f.name))
      && (f.validation.Some? ==> Matches(f.validation.value, PatternInput(person, f.name)))
    ensures f.required && Missing(person, f.name) ==> r == Some(RequiredText)
  {
    if f.required && Missing(person, f.name) then Some(RequiredText)
    else if f.validation.Some? && !Matches(f.validation.value, PatternInput(person, f.name)) then Some(InvalidText)
    else None
  }

  /** The outcome of a validation: whether it passed, and the error map it leaves. */
  datatype Verdict = Verdict(ok: bool, errors: ErrorMap)

  /** `validateStep(person)` over a section's fields: the error map is replaced
      by exactly the failing fields, and the step passes iff none fails. */
  function ValidateStep(fields: seq<Field>, person: Draft): (v: Verdict)
    ensures v.ok <==> forall i :: 0 <= i < |fields| ==> FieldFailure(fields[i], person).None?
    ensures v.ok <==> v.errors == map[]
    ensures forall k :: k in v.errors <==>
      exists i :: 0 <= i < |fields| && fields[i].name == k && FieldFailure(fields[i], person).Some?
  {
    var check := (f: Field) => FieldFailure(f, person);
    CollectErrorsEmpty(fields, check);
    Verdict(forall i :: 0 <= i < |fields| ==> check(fields[i]).None?, CollectErrors(fields, check))
  }

  /** Without repeated names, a failing field's entry is its own failure. */
  lemma ValidateStepValue(fields: seq<Field>, person: Draft, i: int)
    requires DistinctNames(fields)
    requires 0 <= i < |fields| && FieldFailure(fields[i], person).Some?
    ensures ValidateStep(fields, person).errors[fields[i].name] == FieldFailure(fields[i], person)
  {
    CollectErrorsValue(fields, (f: Field) => FieldFailure(f, person), i);
  }

  /** The record `handleNextStep` validates: `editingPerson || newPerson`. */
  function Candidate(st: State): Draft {
    if st.editingPerson.Some? then st.editingPerson.value.attrs else st.newPerson
  }

  function CurrentVerdict(st: State, person: Draft): Verdict
    requires StepInRange(st)
  {
    ValidateStep(FormSections[st.currentStep].fields, person)
  }

  /** `handleNextStep`: advance by one, clamped to the last section, only when
      the current section validates; the error map is replaced either way. */
  function HandleNextStep(st: State): (r: State)
    requires StepInRange(st)
    ensures StepInRange(r)
    ensures r.errors == CurrentVerdict(st, Candidate(st)).errors
    ensures CurrentVerdict(st, Candidate(st)).ok && st.currentStep < |FormSections| - 1 ==> r.currentStep == st.currentStep + 1
    ensures !CurrentVerdict(st, Candidate(st)).ok || st.currentStep == |FormSections| - 1 ==> r.currentStep == st.currentStep
    ensures r.(errors := st.errors, currentStep := st.currentStep) == st
  {
    var v := CurrentVerdict(st, Candidate(st));
    var next := if v.ok then Min(|FormSections| - 1, st.currentStep + 1) else st.currentStep;
    st.(errors := v.errors, currentStep := next)
  }

  /** `handlePreviousStep`: back by one, never below the first section, without validating. */
  function HandlePreviousStep(st: State): (r: State)
    requires StepInRange(st)
    ensures StepInRange(r)
    ensures r.currentStep == (if st.currentStep == 0 then 0 else st.currentStep - 1)
    ensures r.(currentStep := st.currentStep) == st
  {
    st.(currentStep := if st.currentStep - 1 < 0 then 0 else st.currentStep - 1)
  }

  /** `handleAddPerson`: when the current section validates, append the draft
      under a fresh id, clear the draft, close the dialog and rewind the wizard;
      otherwise only the error map changes. `Math.max` of an empty list is not
      a number, so the list must not be empty. */
  function HandleAddPerson(st: State): (r: State)
    requires StepInRange(st)
    requires |st.people| > 0
    ensures StepInRange(r)
    ensures r.errors == CurrentVerdict(st, st.newPerson).errors
    ensures CurrentVerdict(st, st.newPerson).ok ==>
      && |r.people| == |st.people| + 1
      && r.people[..|st.people|] == st.people
      && r.people[|st.people|].attrs == st.newPerson
      && (forall i :: 0 <= i < |st.people| ==> st.people[i].id < r.people[|st.people|].id)
      && r.people[|st.people|].id == MaxId(st.people) + 1
      && r.newPerson == map[] && !r.addOpen && r.currentStep == 0
      && r.editingPerson == st.editingPerson && r.editOpen == st.editOpen
    ensures !CurrentVerdict(st, st.newPerson).ok ==> r == st.(errors := r.errors)
  {
    var v := CurrentVerdict(st, st.newPerson);
    if v.ok then
      st.(errors := v.errors, people := AppendFresh(st.people, st.newPerson),
          newPerson := map[], addOpen := false, currentStep := 0)
    else st.(errors := v.errors)
  }

  /** `handleEditPerson`: when the current section validates the edited
      person, replace the entries with its id, drop the buffer, close the
      dialog and rewind; otherwise only the error map changes. Reading the
      fields of a `null` buffer throws, so a buffer must exist. */
  function HandleEditPerson(st: State): (r: State)
    requires StepInRange(st)
    requires st.editingPerson.Some?
    ensures StepInRange(r)
    ensures |r.people| == |st.people|
    ensures r.errors == CurrentVerdict(st, st.editingPerson.value.attrs).errors
    ensures CurrentVerdict(st, st.editingPerson.value.attrs).ok ==>
      && (forall i :: 0 <= i < |st.people| ==>
            r.people[i] == (if Some(st.people[i].id) == st.editingPerson.value.id
                            then Record(st.people[i].id, st.editingPerson.value.attrs)
                            else st.people[i]))
      && r.editingPerson.None? && !r.editOpen && r.currentStep == 0
      && r.newPerson == st.newPerson && r.addOpen == st.addOpen
    ensures !CurrentVerdict(st, st.editingPerson.value.attrs).ok ==> r == st.(errors := r.errors)
  {
    var b := st.editingPerson.value;
    var v := CurrentVerdict(st, b.attrs);
    if v.ok then
      st.(errors := v.errors, people := SaveEdit(st.people, b),
          editingPerson := None, editOpen := false, currentStep := 0)
    else st.(errors := v.errors)
  }

  /** The Edit menu item: load the person into the buffer, open the dialog, rewind. */
  function StartEdit(st: State, p: Record): (r: State)
    ensures StepInRange(r) && r.currentStep == 0
    ensures r.editingPerson == Some(EditBuffer(Some(p.id), p.attrs)) && r.editOpen
    ensures r.people == st.people && r.newPerson == st.newPerson && r.errors == st.errors
    ensures r.addOpen == st.addOpen
  {
    st.(editingPerson := Some(EditBuffer(Some(p.id), p.attrs)), editOpen := true, currentStep := 0)
  }

  /** `handleDelete(id)`: the people without that id survive, in their order. */
  function HandleDelete(st: State, id: int): (r: State)
    ensures r.people == DeleteById(st.people, id)
    ensures forall x :: x in r.people <==> x in st.people && x.id != id
    ensures |r.people| + |WithId(st.people, id)| == |st.people|
    ensures r.(people := st.people) == st
  {
    DeleteByIdMembers(st.people, id);
    DeleteByIdCount(st.people, id);
    st.(people := DeleteById(st.people, id))
  }

  /** The wizard's user actions. */
  datatype Action =
    | Input(name: string, value: string, isEditing: bool)
    | Next
    | Previous
    | Add
    | Edit
    | Delete(id: int)
    | BeginEdit(person: Record)

  /** An action the dialog lets the user take: saving needs a non-empty list
      (for the id) or a person being edited. */
  predicate Enabled(st: State, a: Action) {
    match a
    case Add => |st.people| > 0
    case Edit => st.editingPerson.Some?
    case _ => true
  }

  function Step(st: State, a: Action): State
    requires StepInRange(st) && Enabled(st, a)
  {
    match a
    case Input(name, value, isEditing) => HandleInputChange(st, name, value, isEditing)
    case Next => HandleNextStep(st)
    case Previous => HandlePreviousStep(st)
    case Add => HandleAddPerson(st)
    case Edit => HandleEditPerson(st)
    case Delete(id) => HandleDelete(st, id)
    case BeginEdit(p) => StartEdit(st, p)
  }

  /** Replays actions, stopping at the first one the dialog would not allow. */
  function Run(st: State, actions: seq<Action>): State
    requires StepInRange(st)
    decreases |actions|
  {
    if actions == [] || !Enabled(st, actions[0]) then st
    else
      var next := Step(st, actions[0]);
      if StepInRange(next) then Run(next, actions[1..]) else next
  }

  /** Whatever the user does, the step index stays within the sections. */
  lemma {:induction false} RunKeepsStepInRange(st: State, actions: seq<Action>)
    requires StepInRange(st)
    ensures StepInRange(Run(st, actions))
    decreases |actions|
  {
    if actions != [] && Enabled(st, actions[0]) {
      var next := Step(st, actions[0]);
      assert StepInRange(next);
      RunKeepsStepInRange(next, actions[1..]);
    }
  }

  /** The CPF descriptor of the personal section. */
  const CpfField: Field := Field("cpf", "CPF", TextInput, true, Some(CpfPattern), [])

  /** The CPF keystroke message says "required" when no digit was typed,
      "invalid format" until exactly eleven were, and nothing at eleven. */
  lemma CpfMessage(value: string)
    ensures KeystrokeMessage(CpfField, FormatCpf(value))
         == if |Digits(value)| == 0 then Some(RequiredText)
            else if |Digits(value)| != 11 then Some(InvalidText)
            else None
  {
    var m := FormatCpf(value);
    CpfAcceptedIffEleven(value);
    CpfKeepsDigits(value);
    if |Digits(value)| == 0 {
      assert m == [];
    } else {
      assert m[0] == Digits(value)[0];
      NotBlankWhenFirstIsNotSpace(m);
    }
  }

  /** Typing in the CPF field stores the masked value and records its message. */
  lemma CpfKeystroke(st: State, value: string)
    ensures var r := HandleInputChange(st, "cpf", value, false);
      && r.newPerson["cpf"] == FormatCpf(value)
      && r.errors == st.errors["cpf" := if |Digits(value)| == 0 then Some(RequiredText)
                                       else if |Digits(value)| != 11 then Some(InvalidText)
                                       else None]
  {
    var all := AllFields();
    assert all[3] == CpfField;
    InputErrorRule(all, st, 3, value, false);
    CpfMessage(value);
  }

  /** A masked phone is never blank, because the mask always opens a parenthesis. */
  lemma MaskedPhoneNotBlank(value: string, isMobile: bool)
    ensures !IsBlank(FormatPhone(value, isMobile))
  {
    NotBlankWhenFirstIsNotSpace(FormatPhone(value, isMobile));
  }

  /** A phone field's keystroke message is always `None` for a field without
      a pattern, whichever phone mask it uses. */
  lemma PhoneMessage(f: Field, value: string, isMobile: bool)
    requires f.validation.None?
    ensures KeystrokeMessage(f, FormatPhone(value, isMobile)) == None
  {
    MaskedPhoneNotBlank(value, isMobile);
  }

  /** The phone fields get the phone mask of their kind. */
  lemma MaskOfPhone(name: string, value: string)
    requires name in LandlineFields || name in MobileFields
    ensures Mask(name, value) == FormatPhone(value, name in MobileFields)
  {
  }

  /** Over any schema, a keystroke in a required phone field without a
      pattern clears that field's error. */
  lemma PhoneRule(fields: seq<Field>, st: State, i: int, value: string, isEditing: bool)
    requires 0 <= i < |fields|
    requires forall j :: 0 <= j < i ==> fields[j].name != fields[i].name
    requires fields[i].required && fields[i].validation.None?
    requires fields[i].name in LandlineFields || fields[i].name in MobileFields
    ensures InputChange(fields, st, fields[i].name, value, isEditing).errors == st.errors[fields[i].name := None]
  {
    var name := fields[i].name;
    InputErrorRule(fields, st, i, value, isEditing);
    MaskOfPhone(name, value);
    PhoneMessage(fields[i], value, name in MobileFields);
    assert name != "email";
  }

  /** A keystroke in a phone field always clears its error: the field is
      required, has no pattern, and its masked value is never blank. */
  lemma PhoneKeystrokeClearsError(st: State, name: string, value: string, isEditing: bool)
    requires name in LandlineFields || name in MobileFields
    ensures HandleInputChange(st, name, value, isEditing).errors == st.errors[name := None]
  {
    var i := PhoneIndex(name);
    PhoneRule(AllFields(), st, i, value, isEditing);
  }

  /** Where a phone field sits in the flattened schema. */
  lemma PhoneIndex(name: string) returns (i: int)
    requires name in LandlineFields || name in MobileFields
    ensures 0 <= i < |AllFields()| && AllFields()[i].name == name
    ensures AllFields()[i].required && AllFields()[i].validation.None?
    ensures forall j :: 0 <= j < i ==> AllFields()[j].name != name
  {
    var all := AllFields();
    i := if name == "homePhone" then 15
         else if name == "mobilePhone" then 16
         else if name == "contactPhone" then 17
         else if name == "guardianMobilePhone" then 21
         else 22;
    assert all[i].name == name;
  }

  /** A draft holding only the activity section. */
  const ActivityOnlyDraft: Draft := map["activityName" := "Yoga", "activityShift" := "Morning",
                                        "activitySchedule" := "08:00", "activityDay" := "Monday"]

  /** Every field of the activity section passes on that draft. */
  lemma ActivityOnlyDraftPasses()
    ensures ValidateStep(ActivityFields, ActivityOnlyDraft).ok
  {
    var d := ActivityOnlyDraft;
    NotBlankWhenFirstIsNotSpace(d["activityName"]);
    NotBlankWhenFirstIsNotSpace(d["activityShift"]);
    NotBlankWhenFirstIsNotSpace(d["activitySchedule"]);
    NotBlankWhenFirstIsNotSpace(d["activityDay"]);
    forall i | 0 <= i < |ActivityFields| ensures FieldFailure(ActivityFields[i], d).None? {
    }
  }

  /** `handleAddPerson` checks only the section on screen: on the last step,
      a draft holding only the activity section is saved under the next id
      although every earlier required field, the first name among them, is
      missing. */
  lemma AddChecksOnlyCurrentSection()
    ensures var st := InitialState.(newPerson := ActivityOnlyDraft, currentStep := 3);
      var r := HandleAddPerson(st);
      && Missing(ActivityOnlyDraft, "firstName")
      && r.people == InitialPeople + [Record(3, ActivityOnlyDraft)]
  {
    ActivityOnlyDraftPasses();
    assert FormSections[3].fields == ActivityFields;
    assert MaxId(InitialPeople) == 2;
  }

  /** One record's test in `filteredPeople` as written: `None` is the
      TypeError thrown when an attribute it reads is absent. The phone is
      matched without lower-casing. */
  function PersonMatchesAsWritten(p: Record, term: string): Option<bool> {
    if "firstName" !in p.attrs then None
    else if SearchMatch(p.attrs["firstName"], term) then Some(true)
    else if "lastName" !in p.attrs then None
    else if SearchMatch(p.attrs["lastName"], term) then Some(true)
    else if "email" !in p.attrs then None
    else if SearchMatch(p.attrs["email"], term) then Some(true)
    else if "phone" !in p.attrs then None
    else Some(Includes(p.attrs["phone"], term))
  }

  /** `filteredPeople` as written: `None` when any record's test throws. */
  function FilteredPeopleAsWritten(people: seq<Record>, term: string): Option<seq<Record>> {
    if people == [] then Some([])
    else
      match PersonMatchesAsWritten(people[0], term)
      case None => None
      case Some(keep) =>
        match FilteredPeopleAsWritten(people[1..], term)
        case None => None
        case Some(rest) => Some(if keep then [people[0]] + rest else rest)
  }

  /** No section of the wizard has a field named "phone". */
  lemma NoPhoneField()
    ensures !HasField(AllFields(), "phone")
  {
  }

  /** A person saved through the wizard has no "phone" attribute, so a search
      that misses the first name, last name and e-mail reads `phone` of
      `undefined` and throws. */
  lemma SearchThrowsOnWizardPerson(people: seq<Record>, p: Record, term: string)
    requires p in people
    requires "phone" !in p.attrs
    requires "firstName" in p.attrs && !SearchMatch(p.attrs["firstName"], term)
    requires "lastName" in p.attrs && !SearchMatch(p.attrs["lastName"], term)
    requires "email" in p.attrs && !SearchMatch(p.attrs["email"], term)
    ensures FilteredPeopleAsWritten(people, term).None?
  {
    assert PersonMatchesAsWritten(p, term).None?;
    SearchThrowsAt(people, p, term);
  }

  lemma {:induction false} SearchThrowsAt(people: seq<Record>, p: Record, term: string)
    requires p in people
    requires PersonMatchesAsWritten(p, term).None?
    ensures FilteredPeopleAsWritten(people, term).None?
  {
    if people[0] != p {
      assert p in people[1..];
      SearchThrowsAt(people[1..], p, term);
    }
  }

  /** A concrete case: after "Ana Lima" is saved with no "phone", searching
      for "zzz" throws. */
  lemma SearchThrowsExample(ana: Record, term: string)
    requires ana == Record(3, map["firstName" := "Ana", "lastName" := "Lima", "email" := "a@b.co"])
    requires term == "zzz"
    ensures FilteredPeopleAsWritten(InitialPeople + [ana], term).None?
  {
    var first, last, email := ana.attrs["firstName"], ana.attrs["lastName"], ana.attrs["email"];
    assert first == "Ana" && last == "Lima" && email == "a@b.co";
    LowerWithoutZ(first);
    LowerWithoutZ(last);
    LowerWithoutZ(email);
    assert |Lower(term)| == 3 && Lower(term)[0] == 'z' && Lower(term)[1] == 'z' && Lower(term)[2] == 'z';
    NotIncludedWhenShorter(Lower(first), Lower(term));
    NotIncludedWhenShorter(Lower(last), Lower(term));
    NotIncludedWhenShorter(Lower(email), Lower(term));
    SearchThrowsOnWizardPerson(InitialPeople + [ana], ana, term);
  }

  /** Lower-casing a text without 'z' or 'Z' gives a text without 'z'. */
  lemma LowerWithoutZ(s: string)
    requires forall i :: 0 <= i < |s| ==> s[i] != 'z' && s[i] != 'Z'
    ensures forall i :: 0 <= i < |Lower(s)| ==> Lower(s)[i] != 'z'
  {
  }

  /** A needle made of 'z's is not in a text without 'z'. */
  lemma NotIncludedWhenShorter(hay: string, needle: string)
    requires |needle| > 0 && forall i :: 0 <= i < |needle| ==> needle[i] == 'z'
    requires forall i :: 0 <= i < |hay| ==> hay[i] != 'z'
    ensures !Includes(hay, needle)
  {
    IncludesIffOccurs(hay, needle);
    forall i | 0 <= i ensures !OccursAt(hay, needle, i) {
      if i + |needle| <= |hay| {
        assert hay[i..i + |needle|][0] == hay[i];
      }
    }
  }

  /** One record's test with the absent attributes read as not matching
      (`person.phone?.includes(searchTerm)` and likewise for the others). */
  predicate PersonMatches(p: Record, term: string) {
    || ("firstName" in p.attrs && SearchMatch(p.attrs["firstName"], term))
    || ("lastName" in p.attrs && SearchMatch(p.attrs["lastName"], term))
    || ("email" in p.attrs && SearchMatch(p.attrs["email"], term))
    || ("phone" in p.attrs && Includes(p.attrs["phone"], term))
  }

  /** The corrected `filteredPeople`: never throws and keeps a person iff one
      of the four attributes matches. */
  function FilteredPeople(people: seq<Record>, term: string): (r: seq<Record>)
    ensures forall p :: p in r <==> p in people && PersonMatches(p, term)
  {
    Filter(people, (p: Record) => PersonMatches(p, term))
  }

  /** Where the search as written does not throw, the corrected search returns
      the same list. */
  lemma {:induction false} FilteredPeopleAgrees(people: seq<Record>, term: string)
    requires FilteredPeopleAsWritten(people, term).Some?
    ensures FilteredPeopleAsWritten(people, term) == Some(FilteredPeople(people, term))
  {
    if people != [] {
      FilteredPeopleAgrees(people[1..], term);
      assert PersonMatchesAsWritten(people[0], term) == Some(PersonMatches(people[0], term));
    }
  }
}
