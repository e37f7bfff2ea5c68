/** The auth service of index.js: the `users` table, the `/api/register`,
    `/api/login` and `/api/user` handlers, the `authenticateUser` middleware
    and the catch-all 404. */
module Server {
  import opened Wrappers
  import opened Strings
  import opened Crypto

  // ---------------------------------------------------------------------------
  // Responses
  // ---------------------------------------------------------------------------

  /** What a response carries besides its status and message. */
  datatype Payload =
    | NoPayload
    | NewUser(id: nat, email: string)   // `user: result.rows[0]`, the RETURNING id, email
    | Token(token: string)              // `token`
    | User(claims: Claims)              // `user: req.user`
    | ApiKey(key: Option<string>)       // `googleApiKey`

  /** A JSON response. `message` is the `error` field for statuses of 400 and
      above and the `message` field otherwise. */
  datatype Response = Response(status: nat, message: string, payload: Payload)

  function Failure(status: nat, error: string): (r: Response)
  {
    Response(status, error, NoPayload)
  }

  const MissingFields := "Email and password are required"
  const UserExists := "User already exists"
  const RegistrationFailed := "User registration failed"
  const Registered := "User registered successfully"
  const InvalidCredentials := "Invalid email or password"
  const LoginFailed := "Login failed"
  const LoginSucceeded := "Login successful"
  const NoToken := "Unauthorized: No token provided"
  const InvalidToken := "Unauthorized: Invalid token"
  const UserAuthenticated := "User authenticated"
  const RouteNotFound := "Route not found"
  /** The status text Express's default error handler sends (as an HTML page,
      not JSON) when `bodyParser.json()` cannot parse a body. */
  const BadRequest := "Bad Request"

  /** Where the database or the signing library throws, so that the handler's
      `catch` answers 500: the SELECT, the INSERT, or `jwt.sign` (no secret). */
  datatype Fault = NoFault | LookupFails | InsertFails | SigningFails

  // ---------------------------------------------------------------------------
  // The users table
  // ---------------------------------------------------------------------------

  /** A row of `users` apart from its email: the serial id and the bcrypt hash. */
  datatype Row = Row(id: nat, hash: string)

  /** The table keyed by email, and the next value of the id sequence. */
  datatype Store = Store(rows: map<string, Row>, nextId: nat)

  /** Every stored email is non-empty (the handler refuses falsy ones), ids
      come from the sequence, and no two rows share an id. */
  ghost predicate ValidStore(st: Store)
  {
    && 1 <= st.nextId
    && (forall e :: e in st.rows ==> e != "" && 1 <= st.rows[e].id < st.nextId)
    && (forall e1, e2 :: e1 in st.rows && e2 in st.rows && st.rows[e1].id == st.rows[e2].id ==> e1 == e2)
  }

  /** `POST /api/register` on a store: the response and the store afterwards. */
  function RegisterStep(st: Store, email: Option<string>, password: Option<string>,
                        hasher: Hasher, salt: string, fault: Fault): (out: (Response, Store))
    ensures !Truthy(email) || !Truthy(password) ==> out == (Failure(400, MissingFields), st)
    ensures Truthy(email) && Truthy(password) && fault == LookupFails ==> out == (Failure(500, RegistrationFailed), st)
    ensures Truthy(email) && Truthy(password) && fault != LookupFails && email.value in st.rows
         ==> out == (Failure(400, UserExists), st)
    ensures Truthy(email) && Truthy(password) && fault == InsertFails && email.value !in st.rows
         ==> out == (Failure(500, RegistrationFailed), st)
    ensures out.0.status == 201
        <==> Truthy(email) && Truthy(password) && fault !in {LookupFails, InsertFails} && email.value !in st.rows
    ensures out.0.status != 201 ==> out.1 == st && out.0.payload == NoPayload
    ensures out.0.status == 201 ==>
      && out.1.rows == st.rows[email.value := Row(st.nextId, hasher.hash(password.value, SaltRounds, salt))]
      && out.1.nextId == st.nextId + 1
      && out.0 == Response(201, Registered, NewUser(st.nextId, email.value))
  {
    if !Truthy(email) || !Truthy(password) then (Failure(400, MissingFields), st)
    else if fault == LookupFails then (Failure(500, RegistrationFailed), st)
    else if email.value in st.rows then (Failure(400, UserExists), st)
    else if fault == InsertFails then (Failure(500, RegistrationFailed), st)
    else
      var id := st.nextId;
      var row := Row(id, hasher.hash(password.value, SaltRounds, salt));
      (Response(201, Registered, NewUser(id, email.value)), Store(st.rows[email.value := row], id + 1))
  }

  /** `POST /api/login` on a store; the store is only read. */
  function LoginStep(st: Store, email: Option<string>, password: Option<string>,
                     hasher: Hasher, signer: Signer, now: int, fault: Fault): (r: Response)
    ensures !Truthy(email) || !Truthy(password) ==> r == Failure(400, MissingFields)
    ensures Truthy(email) && Truthy(password) && fault == LookupFails ==> r == Failure(500, LoginFailed)
    ensures Truthy(email) && Truthy(password) && fault != LookupFails && email.value !in st.rows
         ==> r == Failure(400, InvalidCredentials)
    ensures Truthy(email) && Truthy(password) && fault != LookupFails && email.value in st.rows
            && !hasher.compare(password.value, st.rows[email.value].hash)
         ==> r == Failure(400, InvalidCredentials)
    ensures Truthy(email) && Truthy(password) && fault == SigningFails && email.value in st.rows
            && hasher.compare(password.value, st.rows[email.value].hash)
         ==> r == Failure(500, LoginFailed)
    ensures r.status == 200
        <==> && Truthy(email) && Truthy(password) && fault !in {LookupFails, SigningFails}
             && email.value in st.rows && hasher.compare(password.value, st.rows[email.value].hash)
    ensures r.status == 200 ==>
      var row := st.rows[email.value];
      r == Response(200, LoginSucceeded, Token(signer.sign(IssueClaims(row.id, email.value, now))))
    ensures r.status != 200 ==> r.payload == NoPayload
    ensures r.status == 400 <==> r == Failure(400, MissingFields) || r == Failure(400, InvalidCredentials)
  {
    if !Truthy(email) || !Truthy(password) then Failure(400, MissingFields)
    else if fault == LookupFails then Failure(500, LoginFailed)
    else if email.value !in st.rows then Failure(400, InvalidCredentials)
    else
      var row := st.rows[email.value];
      if !hasher.compare(password.value, row.hash) then Failure(400, InvalidCredentials)
      else if fault == SigningFails then Failure(500, LoginFailed)
      else Response(200, LoginSucceeded, Token(signer.sign(IssueClaims(row.id, email.value, now))))
  }

  /** Registration keeps the table well formed. */
  lemma RegisterKeepsValid(st: Store, email: Option<string>, password: Option<string>,
                           hasher: Hasher, salt: string, fault: Fault)
    requires ValidStore(st)
    ensures ValidStore(RegisterStep(st, email, password, hasher, salt, fault).1)
  {
    var out := RegisterStep(st, email, password, hasher, salt, fault);
    if out.0.status == 201 {
      var e := email.value;
      forall e1, e2 | e1 in out.1.rows && e2 in out.1.rows && out.1.rows[e1].id == out.1.rows[e2].id
        ensures e1 == e2
      {
        if e1 != e && e2 != e {
          assert st.rows[e1].id == st.rows[e2].id;
        }
      }
    }
  }

  /** A registered email cannot be registered again, whatever the password. */
  lemma RegisterTwice(st: Store, email: string, password: string, other: string,
                      hasher: Hasher, salt: string, salt2: string)
    requires email != "" && password != "" && other != ""
    requires email !in st.rows
    ensures var (r1, st1) := RegisterStep(st, Some(email), Some(password), hasher, salt, NoFault);
            && r1 == Response(201, Registered, NewUser(st.nextId, email))
            && RegisterStep(st1, Some(email), Some(other), hasher, salt2, NoFault) == (Failure(400, UserExists), st1)
  {
  }

  /** Login answers an unknown email and a wrong password identically, so the
      response does not reveal which emails are registered. */
  lemma LoginDoesNotRevealAccounts(st: Store, known: string, unknown: string, wrong: string,
                                   hasher: Hasher, signer: Signer, now: int)
    requires known in st.rows && known != "" && unknown !in st.rows && unknown != ""
    requires wrong != "" && !hasher.compare(wrong, st.rows[known].hash)
    ensures LoginStep(st, Some(unknown), Some(wrong), hasher, signer, now, NoFault)
         == LoginStep(st, Some(known), Some(wrong), hasher, signer, now, NoFault)
         == Failure(400, InvalidCredentials)
  {
  }

  /** With bcrypt's law, logging in right after registering with the same
      password succeeds and the token's claims are the new row's id and email,
      expiring an hour after issue. */
  lemma LoginAfterRegister(st: Store, email: string, password: string, hasher: Hasher, salt: string,
                           signer: Signer, now: int)
    requires HashLaw(hasher)
    requires email != "" && password != "" && email !in st.rows
    ensures var st1 := RegisterStep(st, Some(email), Some(password), hasher, salt, NoFault).1;
            LoginStep(st1, Some(email), Some(password), hasher, signer, now, NoFault)
            == Response(200, LoginSucceeded, Token(signer.sign(Claims(st.nextId, email, now, now + 3600))))
  {
    var st1 := RegisterStep(st, Some(email), Some(password), hasher, salt, NoFault).1;
    assert st1.rows[email].hash == hasher.hash(password, SaltRounds, salt);
  }

  // ---------------------------------------------------------------------------
  // authenticateUser and /api/user
  // ---------------------------------------------------------------------------

  /** `header.split(" ")[1]`: the second space-separated word, whatever the
      first one is (the scheme word is never checked). */
  function BearerToken(header: string): (r: Option<string>)
    ensures r.None? <==> ' ' !in header
    ensures r.Some? ==> ' ' !in r.value
  {
    SplitSingle(header, ' ');
    var parts := Split(header, ' ');
    if |parts| >= 2 then Some(parts[1]) else None
  }

  /** The word after the first space is the token, whatever precedes it. */
  lemma BearerTokenOf(scheme: string, token: string, tail: string)
    requires ' ' !in scheme && ' ' !in token
    requires tail == "" || tail[0] == ' '
    ensures BearerToken(scheme + " " + token + tail) == Some(token)
  {
    var header := scheme + " " + token + tail;
    assert header == scheme + ([' '] + (token + tail));
    SplitPrepend(scheme, [' '] + (token + tail), ' ');
    assert ([' '] + (token + tail))[1..] == token + tail;
    SplitPrepend(token, tail, ' ');
    var st := Split(tail, ' ');
    if tail == "" {
      assert st == [""];
    } else {
      assert st == [""] + Split(tail[1..], ' ');
    }
    assert token + st[0] == token;
  }

  /** The outcome of the middleware: a rejection, or the decoded claims for `req.user`. */
  datatype Auth = Denied(response: Response) | Granted(user: Claims)

  /** `authenticateUser`: no (or an empty) `Authorization` header is 401; a
      missing or empty second word, or one that fails verification, is 403;
      otherwise the decoded claims are passed on verbatim. */
  function Authenticate(header: Option<string>, signer: Signer, now: int): (r: Auth)
    ensures !Truthy(header) <==> r == Denied(Failure(401, NoToken))
    ensures r.Granted? <==>
      && Truthy(header) && Truthy(BearerToken(header.value))
      && signer.verify(BearerToken(header.value).value, now).Some?
    ensures r.Granted? ==> Some(r.user) == signer.verify(BearerToken(header.value).value, now)
    ensures Truthy(header) && r.Denied? ==> r.response == Failure(403, InvalidToken)
  {
    if !Truthy(header) then Denied(Failure(401, NoToken))
    else
      var token := BearerToken(header.value);
      // `jwt.verify` refuses an absent or empty token before looking at it
      if !Truthy(token) then Denied(Failure(403, InvalidToken))
      else
        match signer.verify(token.value, now)
        case None => Denied(Failure(403, InvalidToken))
        case Some(claims) => Granted(claims)
  }

  /** `GET /api/user` behind the middleware. */
  function UserRoute(header: Option<string>, signer: Signer, now: int): (r: Response)
    ensures r.status == 200 <==> Authenticate(header, signer, now).Granted?
    ensures r.status == 200 ==> r == Response(200, UserAuthenticated, User(Authenticate(header, signer, now).user))
    ensures r.status != 200 ==> r == Authenticate(header, signer, now).response
  {
    match Authenticate(header, signer, now)
    case Denied(response) => response
    case Granted(claims) => Response(200, UserAuthenticated, User(claims))
  }

  /** A token from a successful login, sent after any scheme word, authenticates
      as the logged-in user until it expires. */
  lemma IssuedTokenAuthenticates(st: Store, email: string, password: string, hasher: Hasher,
                                 signer: Signer, issued: int, scheme: string, now: int)
    requires TokenLaw(signer) && ' ' !in scheme
    requires LoginStep(st, Some(email), Some(password), hasher, signer, issued, NoFault).status == 200
    ensures var token := LoginStep(st, Some(email), Some(password), hasher, signer, issued, NoFault).payload.token;
            var row := st.rows[email];
            UserRoute(Some(scheme + " " + token), signer, now)
            == if now < issued + TokenLifetime
               then Response(200, UserAuthenticated, User(Claims(row.id, email, issued, issued + TokenLifetime)))
               else Failure(403, InvalidToken)
  {
    var row := st.rows[email];
    var claims := IssueClaims(row.id, email, issued);
    var token := signer.sign(claims);
    BearerTokenOf(scheme, token, "");
    assert scheme + " " + token + "" == scheme + " " + token;
    assert signer.verify(token, now) == if now < claims.exp then Some(claims) else None;
  }

  /** A header without a space never authenticates: there is no second word. */
  lemma NoSecondWordRejected(header: string, signer: Signer, now: int)
    requires header != "" && ' ' !in header
    ensures UserRoute(Some(header), signer, now) == Failure(403, InvalidToken)
  {
  }

  // ---------------------------------------------------------------------------
  // Routing
  // ---------------------------------------------------------------------------

  datatype Method = Get | Head | Post | Options | Other

  /** What Express dispatches a request to. */
  datatype Endpoint =
    | Preflight        // `cors()` answers every OPTIONS request itself
    | StaticFile
    | ConfigRoute
    | BodyRejected     // `bodyParser.json()` fails to parse a JSON body
    | UserInfoRoute
    | RegisterRoute
    | LoginRoute
    | Fallback

  /** A route path as Express matches it by default: case-insensitively and
      with an optional trailing slash. */
  predicate PathIs(path: string, route: string)
  {
    CaseEq(path, route) || CaseEq(path, route + "/")
  }

  /** Dispatch in registration order: `cors()` (which ends every OPTIONS
      request), the static middleware (GET and HEAD of a file under `public`),
      `/api/config`, then `bodyParser.json()` (a body declared JSON that does not
      parse ends there), the three remaining routes, and the catch-all. GET
      routes also serve HEAD. `path` is the request path without its query string. */
  function Route(verb: Method, path: string, staticFiles: set<string>, malformedBody: bool): (e: Endpoint)
    ensures e == Preflight <==> verb == Options
    ensures e == StaticFile <==> verb in {Get, Head} && path in staticFiles
    ensures e == ConfigRoute <==> verb in {Get, Head} && path !in staticFiles && PathIs(path, "/api/config")
    ensures e == BodyRejected <==>
      && verb != Options && malformedBody
      && !(verb in {Get, Head} && (path in staticFiles || PathIs(path, "/api/config")))
    ensures e == UserInfoRoute <==>
      && verb in {Get, Head} && !malformedBody
      && path !in staticFiles && !PathIs(path, "/api/config") && PathIs(path, "/api/user")
    ensures e == RegisterRoute <==> verb == Post && !malformedBody && PathIs(path, "/api/register")
    ensures e == LoginRoute <==>
      verb == Post && !malformedBody && !PathIs(path, "/api/register") && PathIs(path, "/api/login")
    ensures e == Fallback <==>
      && verb != Options && !malformedBody
      && !(verb in {Get, Head} && (path in staticFiles || PathIs(path, "/api/config") || PathIs(path, "/api/user")))
      && !(verb == Post && (PathIs(path, "/api/register") || PathIs(path, "/api/login")))
  {
    var get := verb in {Get, Head};
    if verb == Options then Preflight
    else if get && path in staticFiles then StaticFile
    else if get && PathIs(path, "/api/config") then ConfigRoute
    else if malformedBody then BodyRejected
    else if get && PathIs(path, "/api/user") then UserInfoRoute
    else if verb == Post && PathIs(path, "/api/register") then RegisterRoute
    else if verb == Post && PathIs(path, "/api/login") then LoginRoute
    else Fallback
  }

  /** The catch-all answer. */
  function NotFound(): (r: Response)
    ensures r.status == 404 && r.message == RouteNotFound && r.payload == NoPayload
  {
    Failure(404, RouteNotFound)
  }

  /** A request as the handlers see it: HTTP method, path, the `Authorization`
      header, whether its body is declared JSON but does not parse, and the
      `email` and `password` fields of the parsed body. */
  datatype Request = Request(verb: Method, path: string, authorization: Option<string>,
                             malformedBody: bool, email: Option<string>, password: Option<string>)

  /** The environment of one request: the library pairs, the random salt, the
      clock, the set of static files, `GOOGLE_API_KEY` and any failure. */
  datatype Env = Env(hasher: Hasher, signer: Signer, salt: string, now: int,
                     staticFiles: set<string>, apiKey: Option<string>, fault: Fault)

  /** The whole server on a store: the response to one request (None when a
      static file is served) and the store afterwards. */
  function Serve(st: Store, req: Request, env: Env): (out: (Option<Response>, Store))
    ensures out.1 != st ==> Route(req.verb, req.path, env.staticFiles, req.malformedBody) == RegisterRoute
    ensures out.0.None? <==> Route(req.verb, req.path, env.staticFiles, req.malformedBody) == StaticFile
    ensures Route(req.verb, req.path, env.staticFiles, req.malformedBody) == Fallback ==> out == (Some(NotFound()), st)
    ensures Route(req.verb, req.path, env.staticFiles, req.malformedBody) == Preflight
         ==> out == (Some(Response(204, "", NoPayload)), st)
    ensures Route(req.verb, req.path, env.staticFiles, req.malformedBody) == BodyRejected
         ==> out == (Some(Failure(400, BadRequest)), st)
    ensures Route(req.verb, req.path, env.staticFiles, req.malformedBody) == ConfigRoute
         ==> out == (Some(Response(200, "", ApiKey(env.apiKey))), st)
  {
    match Route(req.verb, req.path, env.staticFiles, req.malformedBody)
    case Preflight => (Some(Response(204, "", NoPayload)), st)
    case StaticFile => (None, st)
    case ConfigRoute => (Some(Response(200, "", ApiKey(env.apiKey))), st)
    case BodyRejected => (Some(Failure(400, BadRequest)), st)
    case UserInfoRoute => (Some(UserRoute(req.authorization, env.signer, env.now)), st)
    case RegisterRoute =>
      var (r, st1) := RegisterStep(st, req.email, req.password, env.hasher, env.salt, env.fault);
      (Some(r), st1)
    case LoginRoute =>
      (Some(LoginStep(st, req.email, req.password, env.hasher, env.signer, env.now, env.fault)), st)
    case Fallback => (Some(NotFound()), st)
  }

  /** `/api/config` is registered before the body parser: a GET of it returns
      the key even with a body that does not parse, while the same body sent to
      `/api/user` is refused by the parser before the middleware runs. */
  lemma ConfigBeforeBodyParser(st: Store, authorization: Option<string>, env: Env)
    requires "/api/config" !in env.staticFiles && "/api/user" !in env.staticFiles
    ensures Serve(st, Request(Get, "/api/config", authorization, true, None, None), env)
         == (Some(Response(200, "", ApiKey(env.apiKey))), st)
    ensures Serve(st, Request(Get, "/api/user", authorization, true, None, None), env)
         == (Some(Failure(400, BadRequest)), st)
  {
    assert CaseEq("/api/config", "/api/config");
    assert !CaseEq("/api/user", "/api/config") && !CaseEq("/api/user", "/api/config/");
  }

  /** Serving a request keeps the table well formed. */
  lemma ServeKeepsValid(st: Store, req: Request, env: Env)
    requires ValidStore(st)
    ensures ValidStore(Serve(st, req, env).1)
  {
    if Route(req.verb, req.path, env.staticFiles, req.malformedBody) == RegisterRoute {
      RegisterKeepsValid(st, req.email, req.password, env.hasher, env.salt, env.fault);
    }
  }

  // ---------------------------------------------------------------------------
  // The table as the handlers mutate it
  // ---------------------------------------------------------------------------

  /** The `users` table the register and login handlers query, one request at a time. */
  class UsersTable {
    var rows: map<string, Row>
    var nextId: nat

    ghost function Contents(): Store
      reads this
    {
      Store(rows, nextId)
    }

    ghost predicate Valid()
      reads this
    {
      ValidStore(Contents())
    }

    constructor ()
      ensures Valid() && rows == map[] && nextId == 1
    {
      rows := map[];
      nextId := 1;
    }

    /** `POST /api/register`: the checks with early returns, then the INSERT. */
    method Register(email: Option<string>, password: Option<string>, hasher: Hasher, salt: string, fault: Fault)
      returns (resp: Response)
      requires Valid()
      modifies this
      ensures Valid()
      ensures (resp, Contents()) == RegisterStep(old(Contents()), email, password, hasher, salt, fault)
    {
      RegisterKeepsValid(Contents(), email, password, hasher, salt, fault);
      if !Truthy(email) || !Truthy(password) {
        return Failure(400, MissingFields);
      }
      if fault == LookupFails {
        return Failure(500, RegistrationFailed);
      }
      if email.value in rows {
        return Failure(400, UserExists);
      }
      var hashed := hasher.hash(password.value, SaltRounds, salt);
      if fault == InsertFails {
        return Failure(500, RegistrationFailed);
      }
      var id := nextId;
      rows := rows[email.value := Row(id, hashed)];
      nextId := nextId + 1;
      resp := Response(201, Registered, NewUser(id, email.value));
    }

    /** `POST /api/login`: reads the table and never changes it. */
    method Login(email: Option<string>, password: Option<string>, hasher: Hasher, signer: Signer,
                 now: int, fault: Fault)
      returns (resp: Response)
      ensures resp == LoginStep(Contents(), email, password, hasher, signer, now, fault)
    {
      if !Truthy(email) || !Truthy(password) {
        return Failure(400, MissingFields);
      }
      if fault == LookupFails {
        return Failure(500, LoginFailed);
      }
      if email.value !in rows {
        return Failure(400, InvalidCredentials);
      }
      var row := rows[email.value];
      var valid := hasher.compare(password.value, row.hash);
      if !valid {
        return Failure(400, InvalidCredentials);
      }
      if fault == SigningFails {
        return Failure(500, LoginFailed);
      }
      var token := signer.sign(IssueClaims(row.id, email.value, now));
      resp := Response(200, LoginSucceeded, Token(token));
    }
  }
}
