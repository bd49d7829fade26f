# Lacos dashboard forms, in Dafny

The lacosAtt dashboard is a browser client for a social-services organisation.
Staff use it to register people, activities and user accounts. The logic worth
stating formally sits in the pages' event handlers:

- the multi-step person wizard (`people-forms.tsx`) with its declarative field
  schema, its CPF and phone input masks, per-keystroke and per-step validation,
  and the in-memory add / edit / delete of people;
- the backend-driven person page (`pessoas/page.tsx`), which validates six
  steps of required fields and submits through the people service with the
  session's token;
- the user and activity pages, which gate a create call on required fields
  and reload the list afterwards;
- the three activity components: the list-and-filter form, the edit dashboard
  with its validation, and the create dialog;
- the sidebar's avatar initials.

Every handler is a pure function from the component's state (and, where the
handler awaits the backend, the backend's replies passed in as `Net` values)
to the next state and the log of requests it sent. Shared pieces have their
own modules:

- `Text`: digits, trimming, case mapping, substring search;
- `Schema`: field descriptors, drafts, error maps and the shared validation rules;
- `Remote`: sessions, requests and replies;
- `Collections`: record lists with append / replace / delete by id, and filters over loaded JSON arrays whose elements may be unreadable;
- `Masks`: the CPF and phone formats.

## Model

The rows for `Remote.SessionToken`, `Remote.Authorized`, `Remote.Unauthenticated`,
`ActivitiesPage.PeriodOf` and `ActivityUpdate.Schedule` are definitions: of the
token lookup, of the two kinds of service call, and of a default value. Their
contracts spell out each case; they are not proved properties. The other rows
state properties of the handlers built from them.

| member | source | states |
|---|---|---|
| Text.DigitsIdempotent | src/app/app/pessoas/_components/people-forms.tsx:116 | stripping non-digits twice is the same as once |
| Text.BlankIffAllSpace | src/app/app/pessoas/_components/people-forms.tsx:202 | a value is empty after `trim()` exactly when every character is white space |
| Text.IncludesIffOccurs | src/app/app/pessoas/_components/people-forms.tsx:105-111 | `includes` holds exactly when the needle occurs at some index of the text |
| Schema.FindFirst | src/app/app/pessoas/_components/people-forms.tsx:167 | `find` by name returns the first descriptor carrying that name |
| Schema.KeystrokeErrorOfField | src/app/app/usuarios/page.tsx:53-58 | the keystroke error of a schema field is its required message exactly when the field is required and the value is blank, otherwise `null` |
| Schema.CollectErrors | src/app/app/pessoas/_components/people-forms.tsx:198-210 | a validation pass records an entry exactly for the fields whose check fails, each holding that field's failure |
| Schema.CollectErrorsValue | src/app/app/pessoas/_components/people-forms.tsx:201-209 | without repeated names, each failing field's entry is its own failure and not a later one's |
| Schema.CollectErrorsEmpty | src/app/app/pessoas/_components/people-forms.tsx:196-212 | the pass records nothing exactly when every field passes |
| Schema.RequiredMessages | src/app/app/usuarios/page.tsx:62-70 | the merged messages have a key exactly for each required field, holding "label é obrigatório" |
| Remote.SessionToken | src/services/PeopleService.tsx:16-22 | a token is produced exactly when the session has a non-empty `jwt`, and it is that `jwt` |
| Remote.Authorized | src/services/AtividadeService.tsx:15-28 | without a token nothing is sent and the call fails; with one, exactly one request carrying that bearer is sent and the server's reply is returned |
| Remote.Unauthenticated | src/services/AdminService.tsx:6-15 | the admin calls send one request without any bearer |
| Remote.AuthorizedCarriesToken | src/services/PeopleService.tsx:28-38 | every request a token-checked call sends carries the session's non-empty `jwt` |
| Collections.Filter | src/app/app/pessoas/_components/people-forms.tsx:245-248 | `filter` keeps exactly the elements that pass, never more than it was given |
| Collections.FilterAppend | src/app/app/usuarios/page.tsx:41-43 | filtering a concatenation is the concatenation of the filtered parts, so order is kept |
| Collections.AppendFresh | src/app/app/pessoas/_components/people-forms.tsx:227-228 | one record is appended with an id larger than every existing id, and the old entries are kept in place |
| Collections.ReplaceById | src/app/app/pessoas/_components/people-forms.tsx:237 | the list keeps its length, and exactly the entries with the id are replaced |
| Collections.DeleteByIdCount | src/app/app/pessoas/_components/people-forms.tsx:246 | what deletion keeps plus the entries carrying the id add up to the whole list |
| Collections.DeleteUndoesAppend | src/app/app/pessoas/_components/people-forms.tsx:225-248 | deleting the record just added under a fresh id restores the list |
| Collections.ReplaceByIdIdempotent | src/app/app/pessoas/_components/people-forms.tsx:237 | saving the same edit twice is the same as once |
| Collections.SaveEdit | src/app/app/atividades/_components/activity_update.tsx:141-143 | saving an edit buffer keeps the length, and only entries whose id equals the buffer's id become the buffer's record |
| Masks.FormatCpf | src/app/app/pessoas/_components/people-forms.tsx:115-121 | the masked CPF has the digits typed plus one separator per started group after the first |
| Masks.CpfKeepsDigits | src/app/app/pessoas/_components/people-forms.tsx:115-121 | the CPF mask keeps exactly the typed digits, in order, even past the eleventh |
| Masks.CpfIdempotent | src/app/app/pessoas/_components/people-forms.tsx:115-121 | masking an already masked CPF changes nothing |
| Masks.CpfAcceptedIffEleven | src/app/app/pessoas/_components/people-forms.tsx:48 | the masked value passes the CPF pattern exactly when eleven digits were typed |
| Masks.CpfExample | src/app/app/pessoas/_components/people-forms.tsx:120 | "12345678900" is shown as "123.456.789-00" |
| Masks.PhoneKeepsDigits | src/app/app/pessoas/_components/people-forms.tsx:125-136 | the phone mask keeps the first 11 (mobile) or 10 (landline) typed digits, in order, and no other digit |
| Masks.PhoneIdempotent | src/app/app/pessoas/_components/people-forms.tsx:125-136 | for a fixed kind of number, masking a masked phone changes nothing |
| Masks.PhoneFullShape | src/app/app/pessoas/_components/people-forms.tsx:130-135 | once the cap of 11 (mobile) or 10 (landline) digits is reached, the value reads `(dd)ddddd-dddd` or `(dd)dddd-dddd`: brackets and dash at those positions, a digit everywhere else |
| Sidebar.SplitJoin | src/app/app/_components/sidebar.tsx:25 | splitting a name on spaces loses nothing: joining the pieces gives the name back |
| Sidebar.GetInitialsSpec | src/app/app/_components/sidebar.tsx:24-29 | the initials are the upper-cased first characters of the non-empty space-separated pieces, in order, one per piece |
| Sidebar.GetInitialsHasNoSpace | src/app/app/_components/sidebar.tsx:24-29 | the initials never contain a space |
| Sidebar.GetInitialsOneWord | src/app/app/_components/sidebar.tsx:24-29 | a single word yields exactly its upper-cased first letter |
| PeopleForms.Store | src/app/app/pessoas/_components/people-forms.tsx:160-165 | a keystroke writes the masked value into the edit buffer (started empty when none) or into the draft, and changes no other attribute |
| PeopleForms.RecordKeystroke | src/app/app/pessoas/_components/people-forms.tsx:167-174 | only the typed field's error can change; the e-mail and unknown names leave the map alone; a required field records its keystroke message |
| PeopleForms.InputChange | src/app/app/pessoas/_components/people-forms.tsx:147-175 | the handler is the masked store plus at most one error entry, the typed field's |
| PeopleForms.InputErrorRule | src/app/app/pessoas/_components/people-forms.tsx:167-174 | for a schema field, the keystroke records "This field is required" when blank, "Invalid format" when its pattern rejects, `null` otherwise, and only for required non-e-mail fields |
| PeopleForms.FieldFailure | src/app/app/pessoas/_components/people-forms.tsx:201-209 | a field passes exactly when it is optional or filled and its pattern accepts the value; a missing required field fails as required, before its pattern |
| PeopleForms.ValidateStep | src/app/app/pessoas/_components/people-forms.tsx:196-213 | the step is valid exactly when every field passes, exactly when the new error map is empty, whose keys are exactly the failing fields |
| PeopleForms.ValidateStepValue | src/app/app/pessoas/_components/people-forms.tsx:201-209 | each failing field's entry is that field's failure |
| PeopleForms.HandleNextStep | src/app/app/pessoas/_components/people-forms.tsx:215-219 | the step advances by one exactly when the current section validates and it is not the last, and it never leaves the range of sections |
| PeopleForms.HandlePreviousStep | src/app/app/pessoas/_components/people-forms.tsx:221-223 | the step goes back by one, stopping at 0 |
| PeopleForms.HandleAddPerson | src/app/app/pessoas/_components/people-forms.tsx:225-233 | when the current section validates, the draft is appended under id `Math.max` + 1, above every existing id, and the add dialog resets while the edit buffer and edit dialog stay; otherwise only the errors change |
| PeopleForms.HandleEditPerson | src/app/app/pessoas/_components/people-forms.tsx:235-243 | when the current section validates the edit buffer, the entries with its id become its record in place, the buffer is dropped, the edit dialog closes at step 0, and the draft and add dialog stay; otherwise only the errors change |
| PeopleForms.StartEdit | src/app/app/pessoas/_components/people-forms.tsx:406-410 | choosing Edit loads the person into the buffer and opens the edit dialog at step 0, leaving the list, the draft, the errors and the add dialog as they were |
| PeopleForms.HandleDelete | src/app/app/pessoas/_components/people-forms.tsx:245-248 | the list becomes the people without the id, in their order (`Collections.DeleteByIdAppend`), so exactly those with the id are removed; nothing else changes |
| PeopleForms.RunKeepsStepInRange | src/app/app/pessoas/_components/people-forms.tsx:312 | any sequence of wizard actions keeps the step inside the sections, so `formSections[currentStep]` is always defined |
| PeopleForms.CpfMessage | src/app/app/pessoas/_components/people-forms.tsx:147-174 | the CPF keystroke message is required for no digits, invalid format for other than eleven, `null` for eleven |
| PeopleForms.CpfKeystroke | src/app/app/pessoas/_components/people-forms.tsx:147-174 | typing into the CPF stores the masked value and sets only the CPF's error, by digit count |
| PeopleForms.PhoneKeystrokeClearsError | src/app/app/pessoas/_components/people-forms.tsx:151-174 | a phone keystroke always clears that phone's error: the mask starts with "(" and so is never blank |
| PeopleForms.AddChecksOnlyCurrentSection | src/app/app/pessoas/_components/people-forms.tsx:225-228 | on the last step a person with no first name is added, since only the current section is validated |
| PeopleForms.SearchThrowsOnWizardPerson | src/app/app/pessoas/_components/people-forms.tsx:105-111 | as written, a search that does not match a wizard-added person's name or e-mail reads its missing `phone` and throws |
| PeopleForms.SearchThrowsExample | src/app/app/pessoas/_components/people-forms.tsx:105-111 | adding Ana Lima through the wizard and searching "zzz" throws |
| PeopleForms.FilteredPeople | src/app/app/pessoas/_components/people-forms.tsx:105-111 | the corrected filter keeps a person exactly when the first name, last name or e-mail contains the term ignoring case, or the phone contains it |
| PeopleForms.FilteredPeopleAgrees | src/app/app/pessoas/_components/people-forms.tsx:105-111 | whenever the filter as written does not throw, it returns what the corrected one returns |
| PeoplePage.DefaultPersonCoversSteps | src/app/app/pessoas/page.tsx:109-132 | the default person has exactly the attributes of the six steps, all empty |
| PeoplePage.HandleInputChange | src/app/app/pessoas/page.tsx:164-173 | one attribute is stored; only its error changes, and it is non-null only for a blank value of a current-step field |
| PeoplePage.KeystrokeOnStepField | src/app/app/pessoas/page.tsx:168-172 | for a field of the current step the error is "label é obrigatório" exactly when the value is blank |
| PeoplePage.ValidateStep | src/app/app/pessoas/page.tsx:175-185 | the step is valid exactly when none of its required fields is missing; the new messages are merged over the old map, which keeps its other entries |
| PeoplePage.ValidateStepMessage | src/app/app/pessoas/page.tsx:177-182 | a missing field of the step gets "label é obrigatório" |
| PeoplePage.HandleNext | src/app/app/pessoas/page.tsx:187-189 | the step advances by one exactly when the step validates |
| PeoplePage.HandleBack | src/app/app/pessoas/page.tsx:191 | the step goes back by one, stopping at 0 |
| PeoplePage.HandleSubmit | src/app/app/pessoas/page.tsx:193-220 | nothing is sent unless the step validates and the first session lookup finds a token; the create request goes first with that token, and the reload follows only when the create resolved and the second lookup found a token; only when both calls resolve is the list replaced, the draft reset and the dialog closed at step 0 |
| PeoplePage.Press | src/app/app/pessoas/page.tsx:310-317 | the footer's buttons keep the step inside the six steps |
| PeoplePage.SubmitGate | src/app/app/pessoas/page.tsx:194-195 | with a missing field nothing is sent and the list is unchanged |
| UsersPage.FilteredUsers | src/app/app/usuarios/page.tsx:41-43 | a `null` list reads as empty; the search throws exactly when the stored reply is not an array or has an unreadable element; otherwise a user is kept exactly when the username contains the term ignoring case |
| UsersPage.FilteredUsersAgrees | src/app/app/usuarios/page.tsx:41-43 | on an array of readable users the search is the username filter, so their order is kept |
| UsersPage.FilteredUsersEmptyTerm | src/app/app/usuarios/page.tsx:41-43 | an empty search lists every user in order |
| UsersPage.HandleInputChange | src/app/app/usuarios/page.tsx:45-59 | one attribute is stored; its error is "label é obrigatório" exactly when it is a user field and the value is blank |
| UsersPage.UserRequiredMessages | src/app/app/usuarios/page.tsx:62-70 | a refused add marks both fields, with "Nome do Usuário é obrigatório" and "Senha é obrigatório" |
| UsersPage.GateIffComplete | src/app/app/usuarios/page.tsx:62-63 | the add proceeds exactly when both fields hold something besides white space |
| UsersPage.HandleAddUser | src/app/app/usuarios/page.tsx:61-89 | an incomplete form sends nothing and marks both fields; a complete one sends the register request without a token, then `getAllUsers(100, 0)` only if the register resolved, and only when both calls resolve stores the list reply as it is, clears the draft and closes the dialog |
| UsersPage.EmptyPasswordRefused | src/app/app/usuarios/page.tsx:61-70 | an empty password is refused with "Senha é obrigatório" and nothing is sent |
| ActivitiesPage.FilteredActivities | src/app/app/atividades/page.tsx:45-46 | `null` entries and entries without a name are dropped; the rest are kept exactly when the name contains the term ignoring case |
| ActivitiesPage.HandleInputChange | src/app/app/atividades/page.tsx:49-63 | one attribute is stored; its error is non-null exactly when it is an activity field and the value is blank, and then it is "Nome Atividade é obrigatório", "Hora Inicio é obrigatório" or "Hora Final é obrigatório" |
| ActivitiesPage.GateIffComplete | src/app/app/atividades/page.tsx:66-67 | the add proceeds exactly when all three fields hold something besides white space |
| ActivitiesPage.ActivityRequiredMessages | src/app/app/atividades/page.tsx:66-74 | a refused add marks all three fields with their labelled messages |
| ActivitiesPage.PeriodOf | src/app/app/atividades/page.tsx:79 | a draft without `id_period` is sent with period 1 |
| ActivitiesPage.HandleAddActivity | src/app/app/atividades/page.tsx:65-100 | an incomplete form sends nothing and marks all three fields; a complete one sends the create with the first lookup's token, then the reload only when the create resolved and the second lookup found a token, and resets only when both calls resolve |
| ActivityForm.DecimalInjective | src/app/app/atividades/_components/activity_form.tsx:71-74 | distinct character positions give distinct keys when a message string is spread into the error map |
| ActivityForm.Spread | src/app/app/atividades/_components/activity_form.tsx:102-104 | spreading an error map keeps it; spreading a message string gives one entry per character, keyed by its decimal index |
| ActivityForm.FilteredActivities | src/app/app/atividades/_components/activity_form.tsx:83-86 | the search throws exactly when a loaded element is `null` or has no name; otherwise an activity is kept exactly when its name contains the term ignoring case |
| ActivityForm.FilteredActivitiesAgrees | src/app/app/atividades/_components/activity_form.tsx:83-86 | on a list without bad elements the search is the name filter of the activities, so their order is kept |
| ActivityForm.FilteredActivitiesEmptyTerm | src/app/app/atividades/_components/activity_form.tsx:83-86 | an empty search lists every activity in order |
| ActivityForm.HandleInputChange | src/app/app/atividades/_components/activity_form.tsx:90-106 | one attribute is stored; the error map becomes the spread of the old one with the typed field's entry set, non-null exactly for a blank activity field and then "Nome Atividade é obrigatório", "Hora Inicio é obrigatório" or "Hora Final é obrigatório" |
| ActivityForm.Load | src/app/app/atividades/_components/activity_form.tsx:62-80 | a list reply is stored; a non-list reply, a missing token or a failed call leave the list and store the matching message string as the errors |
| ActivityForm.KeystrokeAfterFailedLoad | src/app/app/atividades/_components/activity_form.tsx:74-104 | after a failed load, a keystroke turns the message into per-character entries such as "0" holding "E" |
| ActivityUpdate.HandleInputChange | src/app/app/atividades/_components/activity_update.tsx:101-115 | the value goes into the create draft even while editing; its error is "This field is required" exactly when it is one of the five fields and blank |
| ActivityUpdate.Schedule | src/app/app/atividades/_components/activity_update.tsx:94 | a time list yields its first element, a single time itself |
| ActivityUpdate.HandleTimeChange | src/app/app/atividades/_components/activity_update.tsx:92-97 | the picked time is written into the edit buffer (an empty pick removes the attribute), which is started empty and without id when there is none; nothing else changes |
| ActivityUpdate.ValidateActivity | src/app/app/atividades/_components/activity_update.tsx:120-133 | valid exactly when all five fields are present and non-blank; the errors are exactly the failing fields, each "This field is required" |
| ActivityUpdate.HandleEditActivity | src/app/app/atividades/_components/activity_update.tsx:139-146 | when valid, the entries with the buffer's id are replaced in place and the dialog resets, the create draft untouched; otherwise only the errors change |
| ActivityUpdate.ResetEditingActivity | src/app/app/atividades/_components/activity_update.tsx:151-155 | the buffer is dropped, the dialog closed, the errors cleared, the lists kept |
| ActivityUpdate.FilteredActivities | src/app/app/atividades/_components/activity_update.tsx:84-88 | an activity is kept exactly when its name or its day contains the term ignoring case |
| ActivityUpdate.EditKeepsListable | src/app/app/atividades/_components/activity_update.tsx:84-88 | saving an edit keeps every activity searchable: a saved buffer has a name and a day |
| ActivityUpdate.RunKeepsNameless | src/app/app/atividades/_components/activity_update.tsx:92-115 | after any sequence of keystrokes and time picks, an edit buffer that started without a name still has none |
| ActivityUpdate.EditNeverSaves | src/app/app/atividades/_components/activity_update.tsx:120-146 | from a buffer without a name, whatever is typed or picked, saving the edit fails validation and leaves the list as it was |
| ActivityCreate.HandleSave | src/app/app/atividades/_components/activity_create.tsx:49-53 | with an error on record nothing happens; otherwise the draft is handed over and the form cleared, errors kept |
| ActivityCreate.HandleInputChange | src/app/app/atividades/_components/activity_create.tsx:56-70 | one attribute is stored; its error is "This field is required" exactly when it is one of the five fields and blank |
| ActivityCreate.HandleTimeChange | src/app/app/atividades/_components/activity_create.tsx:72-75 | the picked time goes into the draft (an empty pick removes the attribute), the other attributes stay, and the error map is never touched |
| ActivityCreate.UntouchedFormSaved | src/app/app/atividades/_components/activity_create.tsx:50 | a form nobody typed into is saved, with an empty activity |
| ActivityCreate.BlankKeystrokeBlocksSave | src/app/app/atividades/_components/activity_create.tsx:50-65 | blanking one of the five fields blocks the save |
| ActivityCreate.FixingLastErrorUnblocksSave | src/app/app/atividades/_components/activity_create.tsx:50-67 | filling in the field that held the only error lets the save hand over the draft with the new value |

## Left out

- HTTP, `axios`/`fetch`, `getSession` and the backend are not modelled. Each awaited call is a `Net` value passed in (the reply, or a rejection). Each token lookup is a `Session` value; a handler that makes two service calls takes one per call, since each call looks the session up again.
- The e-mail debounce effect of the wizard (`people-forms.tsx:177-194`) uses a timer and is not modelled. Keystrokes in the e-mail field leave its error alone, as the handler does.
- Regular expressions are written out as predicates for the three patterns the wizard uses: CPF, CEP and e-mail.
- Sidebar.Initial: a `char` is a whole Unicode scalar value, while JavaScript strings are UTF-16 code units. For a name piece starting outside the Basic Multilingual Plane (an emoji, a rare CJK ideograph) `charAt(0)` yields a lone high surrogate, but the model yields the whole character. The same holds for every string length and index in the model.
- `toLowerCase` and `toUpperCase` are modelled for ASCII letters only. The white space `trim` removes follows the JavaScript set.
- React rendering, contexts, dialogs, routing, the theme provider and the authentication route are not modelled. The component state is an explicit record instead.
- PeopleForms.HandleAddPerson: requires a non-empty people list. With an empty list `Math.max` is `-Infinity` and the source stores a person with that id; this is not modelled.
- Collections.AppendFresh: requires a non-empty list, for the same reason: the `-Infinity` id an empty list yields is not modelled.
- PeopleForms.HandleEditPerson: requires an edit buffer. With `null` the source's validation reads a field of `null` and throws; that throw is not modelled.
- ActivityUpdate.HandleEditActivity: requires an edit buffer. With `null` the source's validation reads a field of `null` and throws; that throw is not modelled.
- `ActivityUpdate.FilteredActivities` requires every activity to have a name and a day, since reading a missing one throws. `ActivityUpdate.EditKeepsListable` shows that saving an edit keeps this property.
- An empty list from a time picker stores `undefined`. It is modelled as removing the attribute, which reads the same afterwards.
- Deleting users and activities, updating users, and linking activities to people are not modelled. They are single service calls with no logic of their own.
- UsersPage.HandleAddUser: the administrator service uses `fetch`, which does not reject on an HTTP error status. A reply such as a 409 with a JSON body is `Resolved`, so the page reloads, clears the draft and closes the dialog as on success. Only a network failure or a body that is not JSON is `Rejected`.
- The administrator service sends no bearer token, and `Remote.Unauthenticated` follows that code rather than the general rule that API calls carry the session's token.
- The users page stores the whole reply of the list call in `usuarios`, whatever its shape, and the model keeps that. The page's delete handler reads `.data` of the same reply instead; deleting is not modelled.
- `PeoplePage.HandleNext` does not clamp the step, as in the source. The footer only offers Next before the last step, and `PeoplePage.Press` proves that the footer keeps the step in range.
- The three activity components model list entries as string maps or as a typed `Activity` record, whichever each file reads. The list component only checks that the reply is an array, so its elements are `Option<Activity>`: `None` stands for a `null` element or one without a string `name`, the cases its search reads. The users page's list elements are `Option<User>` in the same way. Other malformed fields of an element are not modelled, since the component never reads them. Integer ids and periods are `int`; no overflow is possible.
- The activity edit dashboard has no operation that loads an existing activity into its edit buffer, so none is modelled. The edit buffer is filled only by the handlers the component has.

## Findings

| source | as written | input that shows it | evidently intended | confidence | as-written member | corrected member |
|---|---|---|---|---|---|---|
| src/app/app/pessoas/_components/people-forms.tsx:105-111 | the search reads `person.phone.includes(...)` on every person whose first name, last name and e-mail do not match; the wizard never creates a `phone` attribute, so `undefined.includes` throws | add Ana Lima (a@b.co) through the wizard, then search "zzz" | a person without the attribute simply does not match on it | high, not executed | PeopleForms.SearchThrowsExample | PeopleForms.FilteredPeopleAgrees |
