/** The users page: a searchable list of accounts and a dialog that
    registers a new one through the admin API. */
module UsersPage {
  import opened Text
  import opened Schema
  import opened Remote
  import opened Collections

  /** A listed account. */
  datatype User = User(id_user: string, username: string)

  /** What the user context holds: `null` before the first load, or the JSON
      value `getAllUsers` resolved with. Since `fetch` resolves on an error
      status too, that value is an array (whose elements may be `null` or
      lack a string `username`: `None`) or some other object. */
  datatype Listing = NoList | Users(items: seq<Option<User>>) | NotArray

  /** `userFields`. */
  const UserFields: seq<Field> := [
    Field("username", "Nome do Usuário", TextInput, true, None, []),
    Field("password", "Senha", PasswordInput, true, None, [])
  ]

  /** The page's state; `usuarios` is the user context's value. */
  datatype State = State(
    usuarios: Listing,
    newUser: Draft,
    errors: ErrorMap,
    addOpen: bool)

  /** Whether the lower-cased username contains the lower-cased term. */
  predicate Matches(u: User, term: string) {
    SearchMatch(u.username, term)
  }

  /** `filteredUsers`, recomputed on every render: `None` when it throws.
      `usuarios || []` turns `null` into an empty list; an object that is not
      an array has no `filter`; an unreadable element throws in the callback.
      Otherwise a user stays iff the username matches the term. */
  function FilteredUsers(usuarios: Listing, term: string): (r: Option<seq<User>>)
    ensures usuarios.NoList? ==> r == Some([])
    ensures usuarios.NotArray? ==> r.None?
    ensures usuarios.Users? ==> (r.None? <==> exists i :: 0 <= i < |usuarios.items| && usuarios.items[i].None?)
    ensures usuarios.Users? && r.Some? ==> forall u :: u in r.value <==> Some(u) in usuarios.items && Matches(u, term)
  {
    match usuarios
    case NoList => Some([])
    case NotArray => None
    case Users(items) => FilterReadable(items, (u: User) => Matches(u, term))
  }

  /** On an array of readable users the search is the username filter, so the
      users keep their order. */
  lemma FilteredUsersAgrees(xs: seq<Option<User>>, term: string)
    requires forall i :: 0 <= i < |xs| ==> xs[i].Some?
    ensures FilteredUsers(Users(xs), term) == Some(Filter(Present(xs), (u: User) => Matches(u, term)))
  {
    FilterReadableAgrees(xs, (u: User) => Matches(u, term));
  }

  /** Searching for nothing lists every readable user, in order. */
  lemma FilteredUsersEmptyTerm(xs: seq<Option<User>>)
    requires forall i :: 0 <= i < |xs| ==> xs[i].Some?
    ensures FilteredUsers(Users(xs), "") == Some(Present(xs))
  {
    var us := Present(xs);
    forall i | 0 <= i < |us| ensures Matches(us[i], "") {
      IncludesEmpty(Lower(us[i].username));
    }
    FilteredUsersAgrees(xs, "");
    FilterKeepsAll(us, (u: User) => Matches(u, ""));
  }

  /** `handleInputChange`: store the value; the field's error becomes its
      labelled required message when username or password is blank, and
      `null` otherwise (names outside the schema included). */
  function HandleInputChange(st: State, name: string, value: string): (r: State)
    ensures name in r.newUser && r.newUser[name] == value
    ensures r.newUser - {name} == st.newUser - {name}
    ensures r.errors - {name} == st.errors - {name}
    ensures name in r.errors
    ensures r.errors[name].Some? <==> (name == "username" || name == "password") && IsBlank(value)
    ensures name == "password" && IsBlank(value) ==> r.errors[name] == Some("Senha é obrigatório")
    ensures name == "username" && IsBlank(value) ==> r.errors[name] == Some("Nome do Usuário é obrigatório")
    ensures r.usuarios == st.usuarios && r.addOpen == st.addOpen
  {
    KeystrokeOnUserFields(name, value);
    st.(newUser := Assign(st.newUser, name, value),
        errors := Assign(st.errors, name, KeystrokeError(UserFields, name, value, Labelled)))
  }

  lemma KeystrokeOnUserFields(name: string, value: string)
    ensures var e := KeystrokeError(UserFields, name, value, Labelled);
      && (e.Some? <==> (name == "username" || name == "password") && IsBlank(value))
      && (name == "password" && IsBlank(value) ==> e == Some("Senha é obrigatório"))
      && (name == "username" && IsBlank(value) ==> e == Some("Nome do Usuário é obrigatório"))
  {
    if name == "username" {
      assert DistinctNames(UserFields);
      KeystrokeErrorOfField(UserFields, 0, value, Labelled);
      UserLabels();
    } else if name == "password" {
      assert DistinctNames(UserFields);
      KeystrokeErrorOfField(UserFields, 1, value, Labelled);
      UserLabels();
    } else {
      assert !HasField(UserFields, name);
    }
  }

  /** The labelled required messages of the two fields. */
  lemma UserLabels()
    ensures RequiredMessage(Labelled, UserFields[0]) == "Nome do Usuário é obrigatório"
    ensures RequiredMessage(Labelled, UserFields[1]) == "Senha é obrigatório"
  {
    assert "Nome do Usuário" + " é obrigatório" == "Nome do Usuário é obrigatório";
    assert "Senha" + " é obrigatório" == "Senha é obrigatório";
  }

  /** The messages the refused add merges in: both fields, filled or not. */
  lemma UserRequiredMessages()
    ensures RequiredMessages(UserFields)
         == map["username" := Some("Nome do Usuário é obrigatório"), "password" := Some("Senha é obrigatório")]
  {
    var m := RequiredMessages(UserFields);
    UserLabels();
    assert DistinctNames(UserFields);
    assert m.Keys == {"username", "password"} by {
      forall k ensures k in m <==> k in {"username", "password"} {
        assert k in m <==> exists i :: 0 <= i < |UserFields| && UserFields[i].required && UserFields[i].name == k;
        if k == "username" { assert UserFields[0].name == k; }
        if k == "password" { assert UserFields[1].name == k; }
      }
    }
    assert m["username"] == Some("Nome do Usuário é obrigatório") by { assert UserFields[0].required; }
    assert m["password"] == Some("Senha é obrigatório") by { assert UserFields[1].required; }
  }

  /** Merging the messages over an error map sets the two entries and keeps the rest. */
  lemma MergeUserMessages(errors: ErrorMap)
    ensures errors + RequiredMessages(UserFields)
         == errors["username" := Some("Nome do Usuário é obrigatório")]["password" := Some("Senha é obrigatório")]
  {
    UserRequiredMessages();
  }

  /** The dialog may submit exactly when both fields hold something besides spaces. */
  predicate Complete(d: Draft) {
    && "username" in d && "password" in d
    && !IsBlank(d["username"]) && !IsBlank(d["password"])
  }

  lemma GateIffComplete(d: Draft)
    ensures !AnyRequiredMissing(UserFields, d) <==> Complete(d)
  {
    if Complete(d) {
      forall i | 0 <= i < |UserFields| ensures !Missing(d, UserFields[i].name) {
      }
    } else {
      if "username" !in d || IsBlank(d["username"]) {
        assert UserFields[0].required && Missing(d, UserFields[0].name);
      } else {
        assert UserFields[1].required && Missing(d, UserFields[1].name);
      }
    }
  }

  /** A handler's new state and the requests it sent. */
  datatype Outcome = Outcome(state: State, sent: seq<Sent>)

  /** `handleAddUser`, with the two awaited replies as parameters: with a
      blank field it sends nothing and marks both fields; otherwise it
      registers the account and reloads the list (`getAllUsers(100, 0)`),
      storing the whole reply, and clears and closes the dialog when both
      calls settle well. The admin calls carry no token. */
  function HandleAddUser(st: State, registered: Net<()>, listed: Net<Listing>): (r: Outcome)
    ensures !Complete(st.newUser) ==>
      && r.sent == []
      && r.state == st.(errors := st.errors["username" := Some("Nome do Usuário é obrigatório")]
                                           ["password" := Some("Senha é obrigatório")])
    ensures Complete(st.newUser) ==>
      && r.sent == [Sent(RegisterUser(st.newUser["username"], st.newUser["password"]), None)]
                   + (if registered.Resolved? then [Sent(ListUsers(100, 0), None)] else [])
      && (registered.Resolved? && listed.Resolved? ==>
            r.state == st.(usuarios := listed.value, newUser := map[], addOpen := false))
      && (registered.Rejected? || listed.Rejected? ==> r.state == st)
  {
    GateIffComplete(st.newUser);
    if AnyRequiredMissing(UserFields, st.newUser) then
      MergeUserMessages(st.errors);
      Outcome(st.(errors := st.errors + RequiredMessages(UserFields)), [])
    else
      Register(st, registered, listed)
  }

  /** The calls `handleAddUser` makes once the gate is passed. */
  function Register(st: State, registered: Net<()>, listed: Net<Listing>): (r: Outcome)
    requires Complete(st.newUser)
    ensures r.sent == [Sent(RegisterUser(st.newUser["username"], st.newUser["password"]), None)]
                    + (if registered.Resolved? then [Sent(ListUsers(100, 0), None)] else [])
    ensures registered.Resolved? && listed.Resolved? ==>
      r.state == st.(usuarios := listed.value, newUser := map[], addOpen := false)
    ensures registered.Rejected? || listed.Rejected? ==> r.state == st
  {
    var register := Unauthenticated(RegisterUser(st.newUser["username"], st.newUser["password"]), registered);
    if register.reply.Rejected? then Outcome(st, register.sent)
    else
      var list := Unauthenticated(ListUsers(100, 0), listed);
      match list.reply
      case Rejected => Outcome(st, register.sent + list.sent)
      case Resolved(us) => Outcome(st.(usuarios := us, newUser := map[], addOpen := false), register.sent + list.sent)
  }

  /** A filled username with an empty password: the password is reported as
      "Senha é obrigatório", the username is marked too, and nothing is sent. */
  lemma EmptyPasswordRefused(st: State, registered: Net<()>, listed: Net<Listing>)
    requires st.newUser == map["username" := "ana", "password" := ""]
    ensures var r := HandleAddUser(st, registered, listed);
      && r.sent == []
      && r.state.errors["password"] == Some("Senha é obrigatório")
      && r.state.errors["username"] == Some("Nome do Usuário é obrigatório")
  {
    assert IsBlank("");
  }
}
