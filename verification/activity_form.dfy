/** The standalone activity list component: it loads the list once, filters
    it by name and validates keystrokes. Its error state can end up holding a
    plain string, because the load handler passes a message where an error
    object is expected, and the keystroke handler then spreads that string. */
module ActivityForm {
  import opened Text
  import opened Schema
  import opened Remote
  import opened Collections
  import ActivitiesPage

  /** An activity as the component's interface declares it. */
  datatype Activity = Activity(id_activity: int, name: string, hour_start: string, hour_end: string, id_period: int)

  /** One element of the array the backend answered with. Only `Array.isArray`
      is checked, so an element may be `null` or lack a string `name`: `None`. */
  type Entry = Option<Activity>

  /** The component's `activityFields`: the same three descriptors as the activities page. */
  const ActivityFields: seq<Field> := ActivitiesPage.ActivityFields

  /** The error state: the intended object of per-field entries, or the plain
      message the load handler stores in its place. */
  datatype ErrorState = Fields(entries: ErrorMap) | Message(text: string)

  /** What the activity list request answered with: an array of activities,
      or anything else. */
  datatype Payload = IsArray(items: seq<Entry>) | NotArray

  /** The component's state. */
  datatype State = State(
    atividades: seq<Entry>,
    newActivity: Draft,
    errors: ErrorState,
    addOpen: bool)

  const InitialState: State := State([], map[], Fields(map[]), false)

  const NotAListMessage: string := "Os dados retornados não são uma lista de atividades"
  const LoadFailedMessage: string := "Erro ao carregar as atividades"

  /** The character of a decimal digit. */
  function DigitChar(d: nat): (c: char)
    requires d < 10
    ensures IsDigit(c)
  {
    ('0' as int + d) as char
  }

  /** The decimal text of an array index, as JavaScript prints it. */
  function Decimal(n: nat): (r: string)
    ensures |r| >= 1 && (n >= 10 ==> |r| >= 2)
    ensures r[|r| - 1] == DigitChar(n % 10)
  {
    if n < 10 then [DigitChar(n)] else Decimal(n / 10) + [DigitChar(n % 10)]
  }

  /** Different indices print differently. */
  lemma {:induction false} DecimalInjective(a: nat, b: nat)
    requires Decimal(a) == Decimal(b)
    ensures a == b
    decreases a
  {
    var da, db := Decimal(a), Decimal(b);
    assert a % 10 == b % 10;
    if a >= 10 && b >= 10 {
      assert da[..|da| - 1] == Decimal(a / 10);
      assert db[..|db| - 1] == Decimal(b / 10);
      DecimalInjective(a / 10, b / 10);
    }
  }

  /** `{ ...errors }`: an error object spreads to its entries; a string
      spreads to one entry per character, keyed by the character's index. */
  function Spread(e: ErrorState): (m: ErrorMap)
    ensures e.Fields? ==> m == e.entries
    ensures e.Message? ==> forall i :: 0 <= i < |e.text| ==> Decimal(i) in m && m[Decimal(i)] == Some([e.text[i]])
    ensures e.Message? ==> forall k :: k in m ==> exists i :: 0 <= i < |e.text| && k == Decimal(i)
  {
    match e
    case Fields(entries) => entries
    case Message(text) =>
      CharEntriesInjective(text);
      map i | 0 <= i < |text| :: Decimal(i) := Some([text[i]])
  }

  lemma CharEntriesInjective(text: string)
    ensures forall i, j :: 0 <= i < |text| && 0 <= j < |text| && Decimal(i) == Decimal(j) ==> i == j
  {
    forall i, j | 0 <= i < |text| && 0 <= j < |text| && Decimal(i) == Decimal(j) ensures i == j {
      DecimalInjective(i, j);
    }
  }

  /** Whether an activity's lower-cased name contains the lower-cased term. */
  predicate Matches(a: Activity, term: string) {
    SearchMatch(a.name, term)
  }

  /** `filteredActivities`, recomputed on every render: `None` when the
      callback throws, which it does on any element without a name (reading
      `toLowerCase` of it); otherwise the activities whose name contains the
      term, ignoring case. */
  function FilteredActivities(xs: seq<Entry>, term: string): (r: Option<seq<Activity>>)
    ensures r.None? <==> exists i :: 0 <= i < |xs| && xs[i].None?
    ensures r.Some? ==> forall a :: a in r.value <==> Some(a) in xs && Matches(a, term)
  {
    FilterReadable(xs, (a: Activity) => Matches(a, term))
  }

  /** On a list without bad elements the search is the name filter of the
      activities, so they keep their order. */
  lemma FilteredActivitiesAgrees(xs: seq<Entry>, term: string)
    requires forall i :: 0 <= i < |xs| ==> xs[i].Some?
    ensures FilteredActivities(xs, term) == Some(Filter(Present(xs), (a: Activity) => Matches(a, term)))
  {
    FilterReadableAgrees(xs, (a: Activity) => Matches(a, term));
  }

  /** Searching for nothing lists every activity, in order, unless an element has no name. */
  lemma FilteredActivitiesEmptyTerm(xs: seq<Entry>)
    requires forall i :: 0 <= i < |xs| ==> xs[i].Some?
    ensures FilteredActivities(xs, "") == Some(Present(xs))
  {
    var ys := Present(xs);
    forall i | 0 <= i < |ys| ensures Matches(ys[i], "") {
      IncludesEmpty(Lower(ys[i].name));
    }
    FilteredActivitiesAgrees(xs, "");
    FilterKeepsAll(ys, (a: Activity) => Matches(a, ""));
  }

  /** `handleInputChange`: store the value; the error state becomes an error
      object again, holding the spread of the previous state with the field's
      entry set: its labelled required message when a schema field is blank,
      `null` otherwise. */
  function HandleInputChange(st: State, name: string, value: string): (r: State)
    ensures name in r.newActivity && r.newActivity[name] == value
    ensures r.newActivity - {name} == st.newActivity - {name}
    ensures r.errors.Fields?
    ensures r.errors.entries - {name} == Spread(st.errors) - {name}
    ensures name in r.errors.entries
    ensures r.errors.entries[name].Some? <==> ActivitiesPage.IsActivityField(name) && IsBlank(value)
    ensures name == "name" && IsBlank(value) ==> r.errors.entries[name] == Some("Nome Atividade é obrigatório")
    ensures name == "hour_start" && IsBlank(value) ==> r.errors.entries[name] == Some("Hora Inicio é obrigatório")
    ensures name == "hour_end" && IsBlank(value) ==> r.errors.entries[name] == Some("Hora Final é obrigatório")
    ensures r.atividades == st.atividades && r.addOpen == st.addOpen
  {
    ActivitiesPage.KeystrokeOnActivityFields(name, value);
    st.(newActivity := Assign(st.newActivity, name, value),
        errors := Fields(Assign(Spread(st.errors), name, KeystrokeError(ActivityFields, name, value, Labelled))))
  }

  /** The load effect, with the awaited reply as a parameter: the list is
      replaced only by an array; a non-array reply stores one message, and a
      failed call (a missing token included) stores another. */
  function Load(st: State, session: Session, listed: Net<Payload>): (r: State)
    ensures SessionToken(session).Some? && listed.Resolved? && listed.value.IsArray? ==>
      r == st.(atividades := listed.value.items)
    ensures !(SessionToken(session).Some? && listed.Resolved? && listed.value.IsArray?) ==>
      r.atividades == st.atividades && r.errors.Message?
    ensures SessionToken(session).Some? && listed.Resolved? && listed.value.NotArray? ==>
      r == st.(errors := Message(NotAListMessage))
    ensures SessionToken(session).None? || listed.Rejected? ==>
      r == st.(errors := Message(LoadFailedMessage))
  {
    var reply: Net<Payload> := Authorized(session, ListActivities, listed).reply;
    match reply
    case Resolved(IsArray(items)) => st.(atividades := items)
    case Resolved(NotArray) => st.(errors := Message(NotAListMessage))
    case Rejected => st.(errors := Message(LoadFailedMessage))
  }

  /** After a failed load, the next keystroke leaves one entry per character
      of the message beside the field's own: entry "0" holds "E". */
  lemma KeystrokeAfterFailedLoad(st: State, session: Session, value: string)
    requires SessionToken(session).None?
    ensures var r := HandleInputChange(Load(st, session, Rejected), "name", value);
      && "0" in r.errors.entries && r.errors.entries["0"] == Some("E")
  {
    assert Decimal(0) == "0";
  }
}
