/** The declarative field descriptors every form page is driven by, the draft
    record and error map they fill in, and the validation rules the pages
    share. */
module Schema {
  import opened Text

  /** A JavaScript value that may be `null` or `undefined`. */
  datatype Option<+T> = None | Some(value: T)

  /** The input widget a descriptor asks for. */
  datatype FieldKind =
    | TextInput | SelectInput | DateInput | RadioInput | TextAreaInput
    | EmailInput | NumberInput | TelInput | PasswordInput | TimeInput

  /** The regular expressions the person wizard attaches to fields. */
  datatype Pattern =
    | CpfPattern      // /^\d{3}\.\d{3}\.\d{3}-\d{2}$/
    | ZipCodePattern  // /^\d{5}-\d{3}$/
    | EmailPattern    // /^[^\s@]+@[^\s@]+\.[^\s@]+$/

  datatype Field = Field(
    name: string,
    labelText: string,
    kind: FieldKind,
    required: bool,
    validation: Option<Pattern>,
    options: seq<string>)

  /** The record a dialog is filling in: attribute name to the text typed so far. */
  type Draft = map<string, string>

  /** Field name to error message; `None` is the `null` a cleared entry holds. */
  type ErrorMap = map<string, Option<string>>

  /** A character of one of the three runs of the e-mail pattern: `[^\s@]`. */
  predicate EmailChar(c: char) {
    !IsSpace(c) && c != '@'
  }

  /** `[^\s@]+` matching the whole of `s`. */
  predicate EmailRun(s: string) {
    |s| > 0 && forall i :: 0 <= i < |s| ==> EmailChar(s[i])
  }

  /** `pattern.test(s)` for the three patterns, written out by hand. */
  predicate Matches(p: Pattern, s: string) {
    match p
    case CpfPattern =>
      && |s| == 14
      && s[3] == '.' && s[7] == '.' && s[11] == '-'
      && forall i :: 0 <= i < 14 && i != 3 && i != 7 && i != 11 ==> IsDigit(s[i])
    case ZipCodePattern =>
      && |s| == 9
      && s[5] == '-'
      && forall i :: 0 <= i < 9 && i != 5 ==> IsDigit(s[i])
    case EmailPattern =>
      exists at, dot ::
        && 0 < at && at + 1 < dot && dot + 1 < |s|
        && s[at] == '@' && s[dot] == '.'
        && EmailRun(s[..at]) && EmailRun(s[at + 1..dot]) && EmailRun(s[dot + 1..])
  }

  /** `{ ...m, [key]: v }`: the entry for `key` becomes `v`, the others stay. */
  function Assign<V>(m: map<string, V>, key: string, v: V): (r: map<string, V>)
    ensures key in r && r[key] == v
    ensures r - {key} == m - {key}
    ensures forall k :: k != key ==> (k in r <==> k in m)
    ensures forall k :: k != key && k in m ==> r[k] == m[k]
  {
    m[key := v]
  }

  /** No two descriptors of a schema share a name. */
  predicate DistinctNames(fields: seq<Field>) {
    forall i, j :: 0 <= i < j < |fields| ==> fields[i].name != fields[j].name
  }

  predicate HasField(fields: seq<Field>, name: string) {
    exists i :: 0 <= i < |fields| && fields[i].name == name
  }

  /** `fields.find(f => f.name === name)`: the first descriptor with that name. */
  function Find(fields: seq<Field>, name: string): (r: Option<Field>)
    ensures r.None? <==> !HasField(fields, name)
    ensures r.Some? ==> exists i :: 0 <= i < |fields| && fields[i] == r.value && fields[i].name == name
  {
    if fields == [] then None
    else if fields[0].name == name then Some(fields[0])
    else
      var r := Find(fields[1..], name);
      assert forall i :: 1 <= i < |fields| ==> fields[i] == fields[1..][i - 1];
      r
  }

  /** In a schema without repeated names, looking up a descriptor's name finds that descriptor. */
  lemma FindDistinct(fields: seq<Field>, i: int)
    requires DistinctNames(fields)
    requires 0 <= i < |fields|
    ensures Find(fields, fields[i].name) == Some(fields[i])
  {
    FindFirst(fields, i);
  }

  /** The lookup returns the first descriptor carrying the name. */
  lemma {:induction false} FindFirst(fields: seq<Field>, i: int)
    requires 0 <= i < |fields|
    requires forall j :: 0 <= j < i ==> fields[j].name != fields[i].name
    ensures Find(fields, fields[i].name) == Some(fields[i])
  {
    if i > 0 {
      assert fields[1..][i - 1] == fields[i];
      FindFirst(fields[1..], i - 1);
    }
  }

  /** `!draft[name]?.trim()`: the attribute is absent or blank after trimming. */
  predicate Missing(draft: Draft, name: string) {
    name !in draft || IsBlank(draft[name])
  }

  /** The two wordings of a required-field error the pages use. */
  datatype Wording =
    | Labelled  // `${field.label} é obrigatório`
    | Generic   // 'This field is required'

  const RequiredText: string := "This field is required"
  const InvalidText: string := "Invalid format"

  function RequiredMessage(w: Wording, f: Field): string {
    match w
    case Labelled => f.labelText + " é obrigatório"
    case Generic => RequiredText
  }

  /** The per-keystroke rule most pages share: look the name up in the schema,
      and record the required message when that field is required and the
      new value is blank, `null` otherwise (names outside the schema too). */
  function KeystrokeError(fields: seq<Field>, name: string, value: string, w: Wording): (r: Option<string>)
    ensures !HasField(fields, name) ==> r == None
    ensures r.Some? ==> IsBlank(value)
  {
    match Find(fields, name)
    case Some(f) => if f.required && IsBlank(value) then Some(RequiredMessage(w, f)) else None
    case None => None
  }

  /** For a field of a schema without repeated names, the keystroke error is the
      required message exactly when that field is required and the value is blank. */
  lemma KeystrokeErrorOfField(fields: seq<Field>, i: int, value: string, w: Wording)
    requires DistinctNames(fields)
    requires 0 <= i < |fields|
    ensures KeystrokeError(fields, fields[i].name, value, w)
         == (if fields[i].required && IsBlank(value) then Some(RequiredMessage(w, fields[i])) else None)
  {
    FindDistinct(fields, i);
  }

  /** `fields.filter(f => f.required)`. */
  function RequiredFields(fields: seq<Field>): (r: seq<Field>)
    ensures forall f :: f in r <==> f in fields && f.required
  {
    if fields == [] then []
    else if fields[0].required then [fields[0]] + RequiredFields(fields[1..])
    else RequiredFields(fields[1..])
  }

  /** `requiredFields.some(f => !draft[f.name]?.toString().trim())`. */
  predicate AnyRequiredMissing(fields: seq<Field>, draft: Draft) {
    exists i :: 0 <= i < |fields| && fields[i].required && Missing(draft, fields[i].name)
  }

  /** The error map a validation pass builds field by field: an entry for
      each field whose check fails, holding the failure. On a repeated name
      the later field's entry is the one kept. */
  function CollectErrors(fields: seq<Field>, check: Field -> Option<string>): (m: ErrorMap)
    ensures forall k :: k in m <==>
      exists i :: 0 <= i < |fields| && fields[i].name == k && check(fields[i]).Some?
    ensures forall k :: k in m ==> m[k].Some?
    ensures forall k :: k in m ==> exists i :: 0 <= i < |fields| && fields[i].name == k && m[k] == check(fields[i])
    decreases |fields|
  {
    if fields == [] then map[]
    else
      var init := fields[..|fields| - 1];
      var last := fields[|fields| - 1];
      assert forall i :: 0 <= i < |init| ==> init[i] == fields[i];
      var m := CollectErrors(init, check);
      if check(last).Some? then m[last.name := check(last)] else m
  }

  /** One more field at the end adds its failure, if any, over what came before. */
  lemma CollectErrorsSnoc(fields: seq<Field>, f: Field, check: Field -> Option<string>)
    ensures var m := CollectErrors(fields, check);
      CollectErrors(fields + [f], check) == if check(f).Some? then m[f.name := check(f)] else m
  {
    assert (fields + [f])[..|fields|] == fields;
  }

  /** Without repeated names, each failing field's entry is its own failure. */
  lemma {:induction false} CollectErrorsValue(fields: seq<Field>, check: Field -> Option<string>, i: int)
    requires DistinctNames(fields)
    requires 0 <= i < |fields| && check(fields[i]).Some?
    ensures CollectErrors(fields, check)[fields[i].name] == check(fields[i])
    decreases |fields|
  {
    var init := fields[..|fields| - 1];
    var last := fields[|fields| - 1];
    if i < |fields| - 1 {
      assert init[i] == fields[i];
      assert DistinctNames(init);
      CollectErrorsValue(init, check, i);
      assert last.name != fields[i].name;
    }
  }

  /** A pass records nothing exactly when no field fails. */
  lemma CollectErrorsEmpty(fields: seq<Field>, check: Field -> Option<string>)
    ensures CollectErrors(fields, check) == map[] <==>
      forall i :: 0 <= i < |fields| ==> check(fields[i]).None?
  {
    if exists i :: 0 <= i < |fields| && check(fields[i]).Some? {
      var i :| 0 <= i < |fields| && check(fields[i]).Some?;
      assert fields[i].name in CollectErrors(fields, check);
    }
  }

  /** The check that reports the labelled required message for every required field. */
  function RequiredCheck(f: Field): Option<string> {
    if f.required then Some(RequiredMessage(Labelled, f)) else None
  }

  /** `Object.fromEntries(required.map(f => [f.name, `${f.label} é obrigatório`]))`:
      later descriptors win on a repeated name. */
  function RequiredMessages(fields: seq<Field>): (m: ErrorMap)
    ensures forall k :: k in m <==> exists i :: 0 <= i < |fields| && fields[i].required && fields[i].name == k
    ensures DistinctNames(fields) ==>
      forall i :: 0 <= i < |fields| && fields[i].required ==> m[fields[i].name] == Some(RequiredMessage(Labelled, fields[i]))
  {
    RequiredCheckValues(fields);
    CollectErrors(fields, RequiredCheck)
  }

  /** Without repeated names, each required field's entry is its labelled message. */
  lemma RequiredCheckValues(fields: seq<Field>)
    ensures DistinctNames(fields) ==>
      forall i :: 0 <= i < |fields| && fields[i].required ==>
        CollectErrors(fields, RequiredCheck)[fields[i].name] == Some(RequiredMessage(Labelled, fields[i]))
  {
    if DistinctNames(fields) {
      forall i | 0 <= i < |fields| && fields[i].required
        ensures CollectErrors(fields, RequiredCheck)[fields[i].name] == Some(RequiredMessage(Labelled, fields[i]))
      {
        CollectErrorsValue(fields, RequiredCheck, i);
      }
    }
  }

  /** The check of a validation pass that only looks for blanks: a required
      field that is absent or blank after trimming fails with its required
      message. */
  function BlankRequired(person: Draft, w: Wording, f: Field): Option<string> {
    if f.required && Missing(person, f.name) then Some(RequiredMessage(w, f)) else None
  }
}
