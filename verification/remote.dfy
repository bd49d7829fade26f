/** The remote backend as the pages see it: every awaited service call either
    resolves with a value or rejects, and the calls of the people and
    activity services first ask the session for its JWT. The HTTP transport
    itself is outside the model; what is kept is which requests leave the
    browser and with what bearer token. */
module Remote {
  import opened Schema

  /** The settled outcome of an awaited call. For the axios-based people and
      activity services a rejection covers a network failure, an HTTP error
      status and a missing session token alike. The fetch-based admin service
      rejects only on a network failure or a body that is not JSON: an HTTP
      error status with a JSON body resolves with that body. */
  datatype Net<+T> = Resolved(value: T) | Rejected

  /** The `id_period` the activity page sends: the draft's text when the key
      is there, the number 1 that the destructuring default supplies otherwise. */
  datatype Period = PeriodText(text: string) | PeriodNumber(n: int)

  /** The HTTP requests the core handlers issue. */
  datatype Request =
    | CreatePerson(person: Draft)
    | ListPersons(limit: int, offset: int)
    | RegisterUser(username: string, password: string)
    | ListUsers(limit: int, offset: int)
    | CreateActivity(name: string, hourStart: string, hourEnd: string, period: Period)
    | ListActivities

  /** A request that left the browser, with the bearer token it carried. */
  datatype Sent = Sent(request: Request, bearer: Option<string>)

  /** The next-auth session as `getSession()` hands it over. */
  datatype Session = NoSession | Session(jwt: Option<string>)

  /** `getSessionToken`: the JWT, or the "Usuário não autenticado" rejection
      when the session, or its JWT, is missing or empty. */
  function SessionToken(s: Session): (r: Option<string>)
    ensures r.Some? <==> s.Session? && s.jwt.Some? && s.jwt.value != ""
    ensures r.Some? ==> r == s.jwt
  {
    match s
    case NoSession => None
    case Session(jwt) => if jwt.Some? && jwt.value != "" then jwt else None
  }

  const UnauthenticatedMessage: string := "Usuário não autenticado"

  /** The requests one call put on the wire, and how the call settled. */
  datatype Exchange<+T> = Exchange(sent: seq<Sent>, reply: Net<T>)

  /** A call of the people or activity services: without a token it rejects
      before any request is made; with one, the request carries the token as
      its bearer and the call settles as the server answers. */
  function Authorized<T>(s: Session, request: Request, server: Net<T>): (r: Exchange<T>)
    ensures SessionToken(s).None? ==> r.sent == [] && r.reply == Rejected
    ensures SessionToken(s).Some? ==> r.sent == [Sent(request, SessionToken(s))] && r.reply == server
  {
    match SessionToken(s)
    case None => Exchange([], Rejected)
    case Some(token) => Exchange([Sent(request, Some(token))], server)
  }

  /** A call of the admin service, which uses `fetch` with no token at all. */
  function Unauthenticated<T>(request: Request, server: Net<T>): (r: Exchange<T>)
    ensures r.sent == [Sent(request, None)] && r.reply == server
  {
    Exchange([Sent(request, None)], server)
  }

  /** Every request an authorized call sends carries the session's JWT. */
  lemma AuthorizedCarriesToken<T>(s: Session, request: Request, server: Net<T>)
    ensures forall x :: x in Authorized(s, request, server).sent ==>
      x.bearer.Some? && s.Session? && x.bearer == s.jwt && x.bearer.value != ""
  {
  }
}
