/** The authorization decision of `onAuthenticate` (hocuspocus-server/src/index.ts:43-109):
    a live connection to a room presents either a token, or a docId, pin and display name.
    The two backend calls (`validateToken`, `validateJoinAccess`) are oracle parameters. */
module Gatekeeper {
  import opened Wrappers
  import opened EventLog

  /** The query parameters of the connection request; `None` when a parameter is absent. */
  datatype AuthParams = AuthParams(token: Option<string>, docId: Option<string>, pin: Option<string>, name: Option<string>)

  /** What `validateToken` returns when the backend accepted the token. */
  datatype TokenInfo = TokenInfo(id: string, title: string, docId: int)

  /** What `validateJoinAccess` returns when the backend accepted docId and pin. */
  datatype JoinInfo = JoinInfo(id: string, title: string, token: string)

  /** The `data.context.user` that an authorized connection carries. */
  datatype UserContext = UserContext(name: string, token: string)

  datatype AuthOutcome =
    | Authorized(via: AuthMethod, user: UserContext)
    | Rejected(reason: FailReason)
  {
    /** The message of the error thrown on rejection. */
    function Message(): string
      requires Rejected?
    {
      if reason.InvalidToken? then "Unauthorized - Invalid token" else "Unauthorized"
    }
  }

  const DefaultName: string := "User"

  /** `name || "User"` */
  function NameOrDefault(name: Option<string>): string
  {
    if Truthy(name) then name.value else DefaultName
  }

  /** The decision taken for a connection attempt to `room`. `validateJoinAccess` stands for
      `validateJoinAccess(Number(docId), Number(pin))`, so it receives the raw strings. */
  function Authenticate(room: string, p: AuthParams,
                        validateToken: string -> Option<TokenInfo>,
                        validateJoinAccess: (string, string) -> Option<JoinInfo>): (r: AuthOutcome)
    ensures r.Authorized? ==> r.user.name != ""
    ensures r.Authorized? ==> (r.via == TokenMethod <==> Truthy(p.token))
  {
    if Truthy(p.token) then
      var validation := validateToken(p.token.value);
      if validation.Some? && validation.value.id == room then
        Authorized(TokenMethod, UserContext(NameOrDefault(p.name), p.token.value))
      else
        Rejected(InvalidToken)
    else if !Truthy(p.docId) || !Truthy(p.pin) || !Truthy(p.name) then
      Rejected(MissingParams(p.docId, p.pin, p.name))
    else
      var document := validateJoinAccess(p.docId.value, p.pin.value);
      if document.None? then
        Rejected(InvalidCredentials(p.docId, p.pin))
      else
        Authorized(CredentialsMethod, UserContext(p.name.value, document.value.token))
  }

  /** The `auth_attempt` entry logged first for every attempt. */
  function AttemptEvent(room: string, p: AuthParams): (e: EventData)
    ensures e.AuthAttempt? && e.roomUUID == room
    ensures e.hasToken <==> Truthy(p.token)
    ensures e.docId == p.docId && e.pin == p.pin && e.name == p.name
  {
    AuthAttempt(Truthy(p.token), p.docId, p.pin, p.name, room)
  }

  /** The `auth_success` or `auth_failed` entry logged for an outcome. */
  function OutcomeEvent(room: string, p: AuthParams, r: AuthOutcome): (e: EventData)
    ensures e.AuthSuccess? <==> r.Authorized?
    ensures e.AuthSuccess? ==> e.via == r.via && e.name == p.name && e.roomUUID == room
    ensures e.AuthSuccess? ==> (e.docId == if r.via == CredentialsMethod then p.docId else None)
    ensures r.Rejected? ==> e == AuthFailed(r.reason)
  {
    match r
    case Authorized(TokenMethod, _) => AuthSuccess(TokenMethod, p.name, room, None)
    case Authorized(CredentialsMethod, _) => AuthSuccess(CredentialsMethod, p.name, room, p.docId)
    case Rejected(reason) => AuthFailed(reason)
  }

  /** With a token, the token alone decides: accepted exactly when the verifier returns the
      room's own id, under the given name or "User". */
  lemma TokenPathDecides(room: string, p: AuthParams,
                         validateToken: string -> Option<TokenInfo>,
                         validateJoinAccess: (string, string) -> Option<JoinInfo>)
    requires Truthy(p.token)
    ensures var r := Authenticate(room, p, validateToken, validateJoinAccess);
            var v := validateToken(p.token.value);
            && (r.Authorized? <==> v.Some? && v.value.id == room)
            && (r.Authorized? ==> r == Authorized(TokenMethod, UserContext(NameOrDefault(p.name), p.token.value)))
            && (r.Rejected? ==> r.reason == InvalidToken)
            && (r.Authorized? && !Truthy(p.name) ==> r.user.name == "User")
  {
  }

  /** With a token, the docId/pin path is never consulted: neither the credentials nor the
      join oracle affect the outcome, so a rejected token never falls back to them. */
  lemma TokenPathNeverFallsBack(room: string, p: AuthParams, docId: Option<string>, pin: Option<string>,
                                validateToken: string -> Option<TokenInfo>,
                                join1: (string, string) -> Option<JoinInfo>,
                                join2: (string, string) -> Option<JoinInfo>)
    requires Truthy(p.token)
    ensures Authenticate(room, p, validateToken, join1)
         == Authenticate(room, p.(docId := docId, pin := pin), validateToken, join2)
  {
  }

  /** Without a token, a missing or empty docId, pin or name is rejected before either
      verifier is asked: the outcome is the same whatever the oracles answer. */
  lemma MissingParamsFailFast(room: string, p: AuthParams,
                              validateToken: string -> Option<TokenInfo>,
                              validateJoinAccess: (string, string) -> Option<JoinInfo>)
    requires !Truthy(p.token)
    requires !Truthy(p.docId) || !Truthy(p.pin) || !Truthy(p.name)
    ensures Authenticate(room, p, validateToken, validateJoinAccess) == Rejected(MissingParams(p.docId, p.pin, p.name))
  {
  }

  /** Without a token and with all three credentials, the attempt is authorized exactly when
      the join lookup returns a document, under the given name and with that document's token. */
  lemma CredentialPathDecides(room: string, p: AuthParams,
                              validateToken: string -> Option<TokenInfo>,
                              validateJoinAccess: (string, string) -> Option<JoinInfo>)
    requires !Truthy(p.token) && Truthy(p.docId) && Truthy(p.pin) && Truthy(p.name)
    ensures var r := Authenticate(room, p, validateToken, validateJoinAccess);
            var d := validateJoinAccess(p.docId.value, p.pin.value);
            && (r.Authorized? <==> d.Some?)
            && (r.Authorized? ==> r == Authorized(CredentialsMethod, UserContext(p.name.value, d.value.token)))
            && (r.Rejected? ==> r.reason == InvalidCredentials(p.docId, p.pin))
  {
  }

  /** Without a token the room name plays no part: the document the credentials resolve to is
      never compared with the room being joined. */
  lemma CredentialPathIgnoresRoom(room1: string, room2: string, p: AuthParams,
                                  validateToken: string -> Option<TokenInfo>,
                                  validateJoinAccess: (string, string) -> Option<JoinInfo>)
    requires !Truthy(p.token)
    ensures Authenticate(room1, p, validateToken, validateJoinAccess)
         == Authenticate(room2, p, validateToken, validateJoinAccess)
  {
  }

  /** The error a rejected attempt throws: "Unauthorized - Invalid token" exactly on the token
      path, plain "Unauthorized" on the credential path. */
  lemma RejectionMessages(room: string, p: AuthParams,
                          validateToken: string -> Option<TokenInfo>,
                          validateJoinAccess: (string, string) -> Option<JoinInfo>)
    ensures var r := Authenticate(room, p, validateToken, validateJoinAccess);
            r.Rejected? ==> (r.Message() == if Truthy(p.token) then "Unauthorized - Invalid token" else "Unauthorized")
  {
  }
}
