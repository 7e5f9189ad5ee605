/** The backend's document controller (backend/src/controllers/document.controller.ts):
    create, join, verify and save, over a document store keyed by the record id.
    Store failures are an input (`storeFails`); id, docId and pin generation are inputs. */
module Documents {
  import opened Wrappers
  import opened Text
  import opened Jwt

  /** A stored document; `createdAt` and `updatedAt` are opaque timestamps. */
  datatype Document = Document(id: string, title: string, docId: int, pin: int, content: string,
                               createdAt: string, updatedAt: string)

  /** The store, keyed by the record id (the UUID that also names the live room). */
  type Store = map<string, Document>

  /** Every record is stored under its own id. */
  ghost predicate WellKeyed(store: Store)
  {
    forall id :: id in store ==> store[id].id == id
  }

  /** JavaScript truthiness of an optional number: present and not 0. */
  predicate GivenNumber(v: Option<int>)
  {
    v.Some? && v.value != 0
  }

  /** The `token` field of a request body: absent, a string that is not a token, or a token. */
  datatype TokenField = Missing | Malformed(text: string) | Encoded(token: Token)

  /** `!!token`: an encoded token, or any non-empty string. */
  predicate TokenGiven(t: TokenField)
  {
    t.Encoded? || (t.Malformed? && t.text != "")
  }

  datatype CreateResponse =
    | Created(id: string, docId: int, pin: int, joinLink: string, token: Token)
    | MissingTitle
    | CreateFailed
  {
    function Status(): int
    {
      match this
      case Created(_, _, _, _, _) => 201
      case MissingTitle => 400
      case CreateFailed => 500
    }
  }

  datatype JoinResponse =
    | JoinReady(id: string, title: string, token: Token)
    | MissingFields
    | JoinNotFound
    | JoinFailed
  {
    function Status(): int
    {
      match this
      case JoinReady(_, _, _) => 200
      case MissingFields => 400
      case JoinNotFound => 404
      case JoinFailed => 500
    }
  }

  datatype VerifyResponse =
    | TokenValid(id: string, title: string, docId: int)
    | VerifyMissingToken
    | VerifyUnauthorized
    | VerifyNotFound
  {
    function Status(): int
    {
      match this
      case TokenValid(_, _, _) => 200
      case VerifyMissingToken => 400
      case VerifyUnauthorized => 401
      case VerifyNotFound => 404
    }
  }

  datatype SaveResponse =
    | Saved(id: string, title: string, savedAt: string)
    | SaveMissingToken
    | SaveUnauthorized
  {
    function Status(): int
    {
      match this
      case Saved(_, _, _) => 200
      case SaveMissingToken => 400
      case SaveUnauthorized => 401
    }
  }

  /** The fallbacks for the `JWT_SECRET` and `FRONTEND_URL` environment variables. */
  const DefaultSecret: string := "your-secret-key-change-in-production"
  const DefaultBaseURL: string := "http://localhost:3000"

  /** `${baseURL}/join?docId=${docId}`: the base URL, the join path, then the docId in
      decimal (digits only for a docId that is not negative). */
  function JoinLink(baseURL: string, docId: int): (link: string)
    ensures IsPrefix(baseURL + "/join?docId=", link)
    ensures |link| > |baseURL + "/join?docId="|
    ensures docId >= 0 <==> AllDigits(link[|baseURL + "/join?docId="|..])
  {
    baseURL + "/join?docId=" + IntToDecimal(docId)
  }

  /** The record `createDocument` writes: the given title and codes, empty content. */
  function NewDocument(id: string, title: string, docId: int, pin: int, stamp: string): Document
  {
    Document(id, title, docId, pin, "", stamp, stamp)
  }

  predicate Matches(d: Document, docId: int, pin: int)
  {
    d.docId == docId && d.pin == pin
  }

  predicate HasMatch(store: Store, docId: int, pin: int)
  {
    exists id :: id in store && Matches(store[id], docId, pin)
  }

  /** `findFirst({ where: { docId, pin } })`: some record with both codes. The store has no
      order here, so which of several matches is returned is left open. */
  ghost function FindFirst(store: Store, docId: int, pin: int): (r: Option<Document>)
    ensures r.Some? <==> HasMatch(store, docId, pin)
    ensures r.Some? ==> r.value in store.Values && Matches(r.value, docId, pin)
  {
    if HasMatch(store, docId, pin) then
      var id :| id in store && Matches(store[id], docId, pin);
      Some(store[id])
    else None
  }

  /** `joinDocument`: 400 without both codes (0 counts as missing), 500 when the store fails,
      404 when no record has both codes, else 200 with a record's id and title and a fresh
      7-day token. It never changes the store. */
  ghost function JoinDocument(store: Store, secret: string, now: int,
                              docId: Option<int>, pin: Option<int>, storeFails: bool): (r: JoinResponse)
    ensures !GivenNumber(docId) || !GivenNumber(pin) ==> r == MissingFields
    ensures r == JoinFailed <==> GivenNumber(docId) && GivenNumber(pin) && storeFails
    ensures r.JoinNotFound? <==>
              GivenNumber(docId) && GivenNumber(pin) && !storeFails && !HasMatch(store, docId.value, pin.value)
    ensures r.JoinReady? <==>
              GivenNumber(docId) && GivenNumber(pin) && !storeFails && HasMatch(store, docId.value, pin.value)
    ensures r.JoinReady? ==>
              && GivenNumber(docId) && GivenNumber(pin)
              && (exists d :: d in store.Values && Matches(d, docId.value, pin.value) && d.id == r.id && d.title == r.title)
              && r.token == Sign(Claims(r.id, docId.value, pin.value, r.title), secret, now)
  {
    if !GivenNumber(docId) || !GivenNumber(pin) then MissingFields
    else if storeFails then JoinFailed
    else
      match FindFirst(store, docId.value, pin.value)
      case None => JoinNotFound
      case Some(document) =>
        JoinReady(document.id, document.title,
                  Sign(Claims(document.id, docId.value, pin.value, document.title), secret, now))
  }

  /** `verifyToken`: 400 without a token; 401 when the token does not verify or the store
      fails (the inner catch); 404 when its document is gone; else 200 with the stored id,
      title and docId. It never changes the store. */
  function VerifyToken(store: Store, secret: string, now: int, token: TokenField, storeFails: bool): (r: VerifyResponse)
    ensures r == VerifyMissingToken <==> !TokenGiven(token)
    ensures TokenGiven(token) && (!token.Encoded? || Verify(token.token, secret, now).None? || storeFails) ==>
              r == VerifyUnauthorized
    ensures (token.Encoded? && Verify(token.token, secret, now).Some? && !storeFails
             && token.token.claims.documentId in store) ==> r.TokenValid?
    ensures r.TokenValid? ==>
              && token.Encoded? && Verify(token.token, secret, now) == Some(token.token.claims)
              && token.token.claims.documentId in store
              && var d := store[token.token.claims.documentId];
                 r == TokenValid(d.id, d.title, d.docId)
    ensures r.VerifyNotFound? <==>
              && token.Encoded? && Verify(token.token, secret, now).Some? && !storeFails
              && token.token.claims.documentId !in store
    ensures token.Encoded? && now >= token.token.exp ==> r == VerifyUnauthorized
  {
    if !TokenGiven(token) then VerifyMissingToken
    else if !token.Encoded? then VerifyUnauthorized
    else
      match Verify(token.token, secret, now)
      case None => VerifyUnauthorized
      case Some(decoded) =>
        if storeFails then VerifyUnauthorized
        else if decoded.documentId !in store then VerifyNotFound
        else
          var document := store[decoded.documentId];
          TokenValid(document.id, document.title, document.docId)
  }

  /** The HTTP codes `joinDocument` answers with, each under its exact condition. */
  lemma JoinStatusCodes(store: Store, secret: string, now: int,
                        docId: Option<int>, pin: Option<int>, storeFails: bool)
    ensures var code := JoinDocument(store, secret, now, docId, pin, storeFails).Status();
            && (code == 400 <==> !GivenNumber(docId) || !GivenNumber(pin))
            && (code == 500 <==> GivenNumber(docId) && GivenNumber(pin) && storeFails)
            && (code == 404 <==> GivenNumber(docId) && GivenNumber(pin) && !storeFails
                                 && !HasMatch(store, docId.value, pin.value))
            && (code == 200 <==> GivenNumber(docId) && GivenNumber(pin) && !storeFails
                                 && HasMatch(store, docId.value, pin.value))
  {
  }

  /** The HTTP codes `verifyToken` answers with, each under its exact condition; a store error
      behind a valid token is a 401, not a 500. */
  lemma VerifyStatusCodes(store: Store, secret: string, now: int, token: TokenField, storeFails: bool)
    ensures var code := VerifyToken(store, secret, now, token, storeFails).Status();
            && (code == 400 <==> !TokenGiven(token))
            && (code == 401 <==> TokenGiven(token)
                                 && (!token.Encoded? || Verify(token.token, secret, now).None? || storeFails))
            && (code == 404 <==> token.Encoded? && Verify(token.token, secret, now).Some? && !storeFails
                                 && token.token.claims.documentId !in store)
            && (code == 200 <==> token.Encoded? && Verify(token.token, secret, now).Some? && !storeFails
                                 && token.token.claims.documentId in store)
  {
  }

  /** The controller: the store it writes and the configuration it reads. */
  class DocumentController {
    var store: Store
    const secret: string
    const baseURL: string

    ghost predicate Valid()
      reads this
    {
      WellKeyed(store)
    }

    /** `JWT_SECRET` and `FRONTEND_URL` fall back to their defaults when unset or empty. Both
        are read once here; the source reads `FRONTEND_URL` anew on every create. */
    constructor (jwtSecretEnv: Option<string>, frontendUrlEnv: Option<string>, initial: Store)
      requires WellKeyed(initial)
      ensures Valid() && store == initial
      ensures secret == if Truthy(jwtSecretEnv) then jwtSecretEnv.value else DefaultSecret
      ensures baseURL == if Truthy(frontendUrlEnv) then frontendUrlEnv.value else DefaultBaseURL
    {
      store := initial;
      secret := if Truthy(jwtSecretEnv) then jwtSecretEnv.value else DefaultSecret;
      baseURL := if Truthy(frontendUrlEnv) then frontendUrlEnv.value else DefaultBaseURL;
    }

    /** `createDocument`. `newId` is the id the store assigns; a store failure, including an id
        already taken, is a 500 with nothing written. */
    method CreateDocument(title: Option<string>, newId: string, docId: int, pin: int,
                          stamp: string, now: int, storeFails: bool)
      returns (r: CreateResponse)
      requires Valid()
      modifies this
      ensures Valid()
      ensures !Truthy(title) ==> r == MissingTitle && store == old(store)
      ensures Truthy(title) && (storeFails || newId in old(store)) ==> r == CreateFailed && store == old(store)
      ensures Truthy(title) && !storeFails && newId !in old(store) ==>
                && store == old(store)[newId := NewDocument(newId, title.value, docId, pin, stamp)]
                && r == Created(newId, docId, pin, JoinLink(baseURL, docId),
                                Sign(Claims(newId, docId, pin, title.value), secret, now))
    {
      if !Truthy(title) {
        return MissingTitle;
      }
      if storeFails || newId in store {
        return CreateFailed;
      }
      var document := NewDocument(newId, title.value, docId, pin, stamp);
      store := store[newId := document];

      var joinLink := JoinLink(baseURL, document.docId);
      var token := Sign(Claims(document.id, document.docId, document.pin, document.title), secret, now);
      return Created(document.id, document.docId, document.pin, joinLink, token);
    }

    /** `saveDocument`: 400 without a token; 401 when the token does not verify, its record is
        missing or the store fails; else only that record's content (and its update time)
        change, and the response carries its id, title and the update time. */
    method SaveDocument(token: TokenField, content: string, now: int, stamp: string, storeFails: bool)
      returns (r: SaveResponse)
      requires Valid()
      modifies this
      ensures Valid()
      ensures r == SaveMissingToken <==> !TokenGiven(token)
      ensures !r.Saved? ==> store == old(store)
      ensures r.SaveUnauthorized? <==>
                && TokenGiven(token)
                && (|| !token.Encoded? || Verify(token.token, secret, now).None? || storeFails
                    || token.token.claims.documentId !in old(store))
      ensures r.Saved? ==>
                && token.Encoded?
                && var id := token.token.claims.documentId;
                   && id in old(store)
                   && store == old(store)[id := old(store)[id].(content := content, updatedAt := stamp)]
                   && r == Saved(id, old(store)[id].title, stamp)
    {
      if !TokenGiven(token) {
        return SaveMissingToken;
      }
      if !token.Encoded? {
        return SaveUnauthorized;
      }
      var decoded := Verify(token.token, secret, now);
      if decoded.None? || storeFails || decoded.value.documentId !in store {
        return SaveUnauthorized;
      }
      var id := decoded.value.documentId;
      var document := store[id].(content := content, updatedAt := stamp);
      store := store[id := document];
      return Saved(document.id, document.title, document.updatedAt);
    }
  }

  // ---------- round trips and frame properties ----------

  /** Joining with the codes a create just stored finds that create's record, as long as no
      earlier record had the same docId and pin. */
  lemma CreateThenJoin(store: Store, secret: string, id: string, title: string, docId: int, pin: int,
                       stamp: string, now: int)
    requires WellKeyed(store) && id !in store
    requires docId != 0 && pin != 0
    requires !HasMatch(store, docId, pin)
    ensures JoinDocument(store[id := NewDocument(id, title, docId, pin, stamp)], secret, now, Some(docId), Some(pin), false)
         == JoinReady(id, title, Sign(Claims(id, docId, pin, title), secret, now))
  {
    var after := store[id := NewDocument(id, title, docId, pin, stamp)];
    assert id in after && Matches(after[id], docId, pin);
    var found := FindFirst(after, docId, pin);
    var k :| k in after && after[k] == found.value;
    assert k == id;
  }

  /** The token a create returns verifies, for seven days, to the created id, title and docId. */
  lemma CreateThenVerify(store: Store, secret: string, id: string, title: string, docId: int, pin: int,
                         stamp: string, issued: int, now: int)
    requires now < issued + SevenDays
    ensures VerifyToken(store[id := NewDocument(id, title, docId, pin, stamp)], secret, now,
                        Encoded(Sign(Claims(id, docId, pin, title), secret, issued)), false)
         == TokenValid(id, title, docId)
  {
  }

  /** The token a join returns verifies, for seven days, to the joined record's id and title. */
  lemma JoinThenVerify(store: Store, secret: string, issued: int, now: int, docId: Option<int>, pin: Option<int>)
    requires WellKeyed(store)
    requires JoinDocument(store, secret, issued, docId, pin, false).JoinReady?
    requires now < issued + SevenDays
    ensures var joined := JoinDocument(store, secret, issued, docId, pin, false);
            VerifyToken(store, secret, now, Encoded(joined.token), false) == TokenValid(joined.id, joined.title, docId.value)
  {
    var joined := JoinDocument(store, secret, issued, docId, pin, false);
    var d :| d in store.Values && Matches(d, docId.value, pin.value) && d.id == joined.id && d.title == joined.title;
    var k :| k in store && store[k] == d;
    assert store[joined.id] == d;
  }

  /** Once seven days have passed it is refused with 401. */
  lemma ExpiredTokenRefused(store: Store, secret: string, claims: Claims, issued: int, now: int, storeFails: bool)
    requires now >= issued + SevenDays
    ensures VerifyToken(store, secret, now, Encoded(Sign(claims, secret, issued)), storeFails) == VerifyUnauthorized
  {
  }

  /** A token signed with another key is refused with 401. */
  lemma ForgedTokenRefused(store: Store, secret: string, key: string, claims: Claims, issued: int, now: int, storeFails: bool)
    requires key != secret
    ensures VerifyToken(store, secret, now, Encoded(Sign(claims, key, issued)), storeFails) == VerifyUnauthorized
  {
  }

  /** Once its document is removed, a still-valid token is answered with 404. */
  lemma DeletedDocumentNotFound(store: Store, secret: string, claims: Claims, issued: int, now: int)
    requires now < issued + SevenDays
    ensures VerifyToken(store - {claims.documentId}, secret, now, Encoded(Sign(claims, secret, issued)), false) == VerifyNotFound
  {
  }

  /** Saving content does not change what any token verifies to. */
  lemma SavePreservesVerification(store: Store, secret: string, now: int, token: TokenField,
                                  id: string, content: string, stamp: string)
    requires id in store
    ensures VerifyToken(store[id := store[id].(content := content, updatedAt := stamp)], secret, now, token, false)
         == VerifyToken(store, secret, now, token, false)
  {
  }

  /** The join link ends with the decimal docId, which reads back as the docId. */
  lemma JoinLinkCarriesDocId(baseURL: string, docId: nat)
    ensures var link := JoinLink(baseURL, docId);
            var code := link[|baseURL + "/join?docId="|..];
            && IsPrefix(baseURL + "/join?docId=", link)
            && AllDigits(code) && DecimalValue(code) == docId
  {
    var link := JoinLink(baseURL, docId);
    assert link == (baseURL + "/join?docId=") + NatToDecimal(docId);
    assert link[|baseURL + "/join?docId="|..] == NatToDecimal(docId);
    DecimalRoundTrip(docId);
  }
}
