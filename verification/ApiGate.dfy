/** HandleApiRequest as the step function of the session machine. */
module ApiGate {
  import opened Bytes
  import opened Json
  import opened Tokens
  import opened Users
  import opened Verifier
  import opened Wrappers

  /** What the JSON library makes of a login body. */
  datatype LoginBody = NotJson | Credentials(username: bytes, password: bytes)

  /** A request, with the clock readings made while it is handled. */
  datatype Request = Request(
    isPost: bool, path: bytes, token: bytes, body: bytes, login: LoginBody,
    issued: nat, now: nat, at: int)

  datatype Status = Success | BadRequest | Unauthorized | Forbidden | Raised

  /** Untouched is a response the handler leaves as it was; the fixed texts are named by what they say. */
  datatype Response = Untouched | TokenJson(token: bytes) | UserJson(user: UserData)
    | InvalidJson | SecretCalled | MethodNotFound(path: bytes)

  datatype Context = Context(route: bytes, token: bytes, body: bytes)

  datatype Reply = Reply(users: seq<UserData>, context: Context, status: Status, response: Response)

  function LoginPath(): bytes { Ascii("/api/login") }

  function LogoutPath(): bytes { Ascii("/api/logout") }

  function SecretPath(): bytes { Ascii("/api/secret") }

  function InfoPath(): bytes { Ascii("/api/info") }

  /** The keys of route_methods_. */
  predicate Routed(path: bytes) {
    path == LogoutPath() || path == SecretPath() || path == InfoPath()
  }

  predicate IsLogin(r: Request) {
    r.isPost && r.path == LoginPath()
  }

  predicate NoToken(token: bytes) {
    token == [] || token == Ascii("undefined")
  }

  predicate Timely(r: Request) {
    Instant(r.issued, r.now)
  }

  /** The user a token is attributed to may call the method. */
  predicate Permitted(users: seq<UserData>, token: bytes, path: bytes) {
    var i := HolderIndex(users, token); i < |users| && path in users[i].routes
  }

  function Attributed(users: seq<UserData>, token: bytes): UserData {
    var i := HolderIndex(users, token); if i == |users| then NOBODY else users[i]
  }

  // ----- the step -----

  function LoginReply(hmac: Hmac, users: seq<UserData>, context: Context, r: Request): Reply {
    match r.login
    case NotJson => Reply(users, context, BadRequest, InvalidJson)
    case Credentials(username, password) =>
      var a := Authenticated(hmac, users, username, password, r.issued, r.now);
      if a.1.None? then Reply(a.0, context, Unauthorized, Untouched)
      else Reply(a.0, context, Success, TokenJson(a.1.value))
  }

  /** The routed methods, which always succeed. */
  function MethodReply(users: seq<UserData>, r: Request): Reply {
    var context := Context(r.path, r.token, r.body);
    if r.path == LogoutPath() then Reply(Disproved(users, r.token), context, Success, Untouched)
    else if r.path == SecretPath() then Reply(users, context, Success, SecretCalled)
    else Reply(users, context, Success, UserJson(Attributed(users, r.token)))
  }

  function Handled(hmac: Hmac, users: seq<UserData>, context: Context, r: Request): Reply {
    if IsLogin(r) then LoginReply(hmac, users, context, r)
    else if NoToken(r.token) then Reply(users, context, Unauthorized, Untouched)
    else match Answer(hmac, users, r.token, r.at)
      case Thrown => Reply(users, context, Raised, Untouched)
      case Rejected(_) => Reply(Verified(hmac, users, r.token, r.at), context, Unauthorized, Untouched)
      case Accepted =>
        if !Routed(r.path) then Reply(users, context, BadRequest, MethodNotFound(r.path))
        else if !Permitted(users, r.token, r.path) then Reply(users, context, Forbidden, Untouched)
        else MethodReply(users, r)
  }

  class ApiHandler {
    const store: UserStore
    var context: Context

    constructor (s: UserStore)
      ensures store == s && context == Context([], [], [])
    {
      store, context := s, Context([], [], []);
    }

    /** LoginUser. */
    method LoginUser(r: Request) returns (status: Status, response: Response)
      requires Timely(r)
      modifies store
      ensures Reply(store.users, context, status, response) == LoginReply(store.hmac, old(store.users), context, r)
    {
      if r.login.NotJson? {
        return BadRequest, InvalidJson;
      }
      var token := store.AuthenticateUser(r.login.username, r.login.password, r.issued, r.now);
      if token.None? {
        return Unauthorized, Untouched;
      }
      status, response := Success, TokenJson(token.value);
    }

    /** ExecuteRouteMethod: the methods work on the context, not on the request. */
    method ExecuteRouteMethod() returns (response: Response)
      requires Routed(context.route)
      modifies store
      ensures if context.route == LogoutPath() then
          store.users == Disproved(old(store.users), context.token) && response == Untouched
        else if context.route == SecretPath() then store.users == old(store.users) && response == SecretCalled
        else store.users == old(store.users) && response == UserJson(Attributed(store.users, context.token))
    {
      if context.route == LogoutPath() {
        store.DisproveUser(context.token);
        response := Untouched;
      } else if context.route == SecretPath() {
        response := SecretCalled;
      } else {
        var user := store.GetUserData(context.token);
        response := UserJson(user);
      }
    }

    /** HandleApiRequest. */
    method HandleApiRequest(r: Request) returns (status: Status, response: Response)
      requires Timely(r)
      modifies this, store
      ensures Reply(store.users, context, status, response) == Handled(store.hmac, old(store.users), old(context), r)
    {
      if r.isPost && r.path == LoginPath() {
        status, response := LoginUser(r);
        return;
      }
      if NoToken(r.token) {
        return Unauthorized, Untouched;
      }
      ghost var before := store.users;
      var v := store.VerifyToken(r.token, r.at);
      if v == Thrown {
        return Raised, Untouched;
      }
      if v != Accepted {
        return Unauthorized, Untouched;
      }
      assert store.users == before;
      if !Routed(r.path) {
        return BadRequest, MethodNotFound(r.path);
      }
      var allowed := store.CheckAccess(r.token, r.path);
      if !allowed {
        return Forbidden, Untouched;
      }
      context := Context(r.path, r.token, r.body);
      response := ExecuteRouteMethod();
      status := Success;
    }
  }

  /** The three ways a request can change the users. */
  lemma HandledUsers(hmac: Hmac, users: seq<UserData>, context: Context, r: Request)
    ensures var next := Handled(hmac, users, context, r).users;
      || next == users
      || (next == Disproved(users, r.token) && (Checked(hmac, r.token, r.at).Rejected? || r.path == LogoutPath()))
      || (IsLogin(r) && r.login.Credentials?
          && next == LoggedIn(hmac, users, r.login.username, r.login.password, r.issued, r.now))
  {
  }
}
