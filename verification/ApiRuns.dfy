/** Runs of requests: which sessions there are, what each status means for them, and what ends them. */
module ApiRuns {
  import opened ApiGate
  import opened Bytes
  import opened Json
  import opened JsonAccepted
  import opened Jwt
  import opened TokenParts
  import opened Tokens
  import opened UserRuns
  import opened Users
  import opened Verifier
  import opened Wrappers

  // ----- runs -----

  datatype State = State(users: seq<UserData>, context: Context)

  function Step(hmac: Hmac, s: State, r: Request): State {
    var reply := Handled(hmac, s.users, s.context, r); State(reply.users, reply.context)
  }

  function Run(hmac: Hmac, s: State, requests: seq<Request>): State {
    if requests == [] then s
    else Step(hmac, Run(hmac, s, requests[..|requests| - 1]), requests[|requests| - 1])
  }

  predicate AllTimely(requests: seq<Request>) {
    forall r :: r in requests ==> Timely(r)
  }

  lemma HandledOwned(hmac: Hmac, users: seq<UserData>, context: Context, r: Request)
    requires Owned(hmac, users) && Timely(r)
    ensures Owned(hmac, Handled(hmac, users, context, r).users)
  {
    HandledUsers(hmac, users, context, r);
    DisprovedOwned(hmac, users, r.token);
    if r.login.Credentials? {
      LoggedInOwned(hmac, users, r.login.username, r.login.password, r.issued, r.now);
    }
  }

  lemma {:induction false} RunOwned(hmac: Hmac, s: State, requests: seq<Request>)
    requires Owned(hmac, s.users) && AllTimely(requests)
    ensures Owned(hmac, Run(hmac, s, requests).users)
  {
    if requests != [] {
      var before := Run(hmac, s, requests[..|requests| - 1]);
      RunOwned(hmac, s, requests[..|requests| - 1]);
      HandledOwned(hmac, before.users, before.context, requests[|requests| - 1]);
    }
  }

  /** The state before the first request. */
  function Start(): State {
    State(InitialUsers(), Context([], [], []))
  }

  /** Request k of the run is a login with the user's name and password that was answered with this token. */
  ghost predicate AnsweredAt(hmac: Hmac, requests: seq<Request>, k: nat, user: UserData, token: bytes) {
    k < |requests| && Answered(hmac, Run(hmac, Start(), requests[..k]), requests[k], user, token)
  }

  predicate Answered(hmac: Hmac, s: State, r: Request, user: UserData, token: bytes) {
    && IsLogin(r) && r.login.Credentials? && Credited(user, r.login.username, r.login.password)
    && Handled(hmac, s.users, s.context, r).response == TokenJson(token)
  }

  lemma AnsweredBefore(hmac: Hmac, requests: seq<Request>, k: nat, user: UserData, token: bytes)
    requires requests != [] && AnsweredAt(hmac, requests[..|requests| - 1], k, user, token)
    ensures AnsweredAt(hmac, requests, k, user, token)
  {
    assert requests[..|requests| - 1][..k] == requests[..k];
  }

  lemma DisprovedTokens(users: seq<UserData>, other: bytes, i: nat, token: bytes)
    requires i < |users| && token in Disproved(users, other)[i].tokens
    ensures token in users[i].tokens
  {
    DisprovedCopies(users, other, i, token);
  }

  lemma LoggedInTokens(hmac: Hmac, s: State, r: Request, i: nat, token: bytes)
    requires i < |s.users| && IsLogin(r) && r.login.Credentials?
    requires token in Step(hmac, s, r).users[i].tokens && token !in s.users[i].tokens
    ensures Answered(hmac, s, r, s.users[i], token)
  {
    LoginFinds(s.users, r.login.username, r.login.password);
  }

  /** A token that is new to a user after a request is the answer to that user's login. */
  lemma StepTokens(hmac: Hmac, s: State, r: Request, i: nat, token: bytes)
    requires i < |s.users|
    ensures SameUsers(Step(hmac, s, r).users, s.users)
    ensures token in Step(hmac, s, r).users[i].tokens ==>
      token in s.users[i].tokens || Answered(hmac, s, r, s.users[i], token)
  {
    HandledUsers(hmac, s.users, s.context, r);
    DisprovedSame(s.users, r.token);
    if r.login.Credentials? {
      LoggedInSame(hmac, s.users, r.login.username, r.login.password, r.issued, r.now);
    }
    if Step(hmac, s, r).users == Disproved(s.users, r.token) {
      if token in Step(hmac, s, r).users[i].tokens {
        DisprovedTokens(s.users, r.token, i, token);
      }
    } else if IsLogin(r) && r.login.Credentials?
        && token in Step(hmac, s, r).users[i].tokens && token !in s.users[i].tokens {
      LoggedInTokens(hmac, s, r, i, token);
    }
  }

  lemma AnsweredAlike(hmac: Hmac, s: State, r: Request, a: UserData, b: UserData, token: bytes)
    requires Answered(hmac, s, r, a, token) && a.username == b.username && a.password == b.password
    ensures Answered(hmac, s, r, b, token)
  {
  }

  lemma StepSame(hmac: Hmac, s: State, r: Request)
    ensures SameUsers(Step(hmac, s, r).users, s.users)
  {
    if s.users != [] {
      StepTokens(hmac, s, r, 0, []);
    } else {
      HandledUsers(hmac, s.users, s.context, r);
    }
  }

  /** Over every run of requests, each stored token was the answer to a login of the user who keeps it. */
  lemma {:induction false} StoredWasAnswered(hmac: Hmac, requests: seq<Request>, i: nat, token: bytes) returns (k: nat)
    requires i < |Run(hmac, Start(), requests).users| && token in Run(hmac, Start(), requests).users[i].tokens
    ensures AnsweredAt(hmac, requests, k, Run(hmac, Start(), requests).users[i], token)
  {
    var n := |requests| - 1;
    if n >= 0 {
      var s, r := Run(hmac, Start(), requests[..n]), requests[n];
      StepSame(hmac, s, r);
      StepTokens(hmac, s, r, i, token);
      SameCredits(s.users, Step(hmac, s, r).users, i);
      if token in s.users[i].tokens {
        k := StoredWasAnswered(hmac, requests[..n], i, token);
        AnsweredBefore(hmac, requests, k, s.users[i], token);
        var past := Run(hmac, Start(), requests[..k]);
        AnsweredAlike(hmac, past, requests[k], s.users[i], Step(hmac, s, r).users[i], token);
      } else {
        k := n;
        AnsweredAlike(hmac, s, r, s.users[i], Step(hmac, s, r).users[i], token);
      }
    }
  }

  // ----- keeping a token -----

  predicate Keeps(users: seq<UserData>, i: nat, token: bytes) {
    i < |users| && token in users[i].tokens
  }

  lemma WithoutKeepsOthers(tokens: seq<bytes>, other: bytes, token: bytes)
    requires token in tokens && token != other
    ensures token in Without(tokens, other)
  {
    var j := TokenIndex(tokens, other);
    TokenFinds(tokens, other);
    if j < |tokens| {
      assert tokens == tokens[..j] + [tokens[j]] + tokens[j + 1..];
    }
  }

  lemma DisprovedKeeps(users: seq<UserData>, other: bytes, i: nat, token: bytes)
    ensures SameUsers(Disproved(users, other), users)
    ensures Keeps(users, i, token) && token != other ==> Keeps(Disproved(users, other), i, token)
  {
    if Keeps(users, i, token) && token != other {
      WithoutKeepsOthers(users[i].tokens, other, token);
    }
  }

  lemma LoggedInKeeps(hmac: Hmac, users: seq<UserData>, username: bytes, password: bytes, issued: nat, now: nat,
                      i: nat, token: bytes)
    ensures SameUsers(LoggedIn(hmac, users, username, password, issued, now), users)
    ensures Keeps(users, i, token) ==> Keeps(LoggedIn(hmac, users, username, password, issued, now), i, token)
  {
  }

  /** A request that could end the session of a token: a logout with it, or its use when it is refused. */
  predicate Ends(hmac: Hmac, r: Request, token: bytes) {
    r.token == token && (Checked(hmac, token, r.at).Rejected? || r.path == LogoutPath())
  }

  lemma HandledKeeps(hmac: Hmac, s: State, r: Request, i: nat, token: bytes)
    requires Keeps(s.users, i, token) && !Ends(hmac, r, token)
    ensures SameUsers(Step(hmac, s, r).users, s.users) && Keeps(Step(hmac, s, r).users, i, token)
  {
    HandledUsers(hmac, s.users, s.context, r);
    DisprovedKeeps(s.users, r.token, i, token);
    if r.login.Credentials? {
      LoggedInKeeps(hmac, s.users, r.login.username, r.login.password, r.issued, r.now, i, token);
    }
  }

  lemma KeptIsHeld(users: seq<UserData>, i: nat, token: bytes)
    requires Keeps(users, i, token)
    ensures Holds(users[i], token) && HolderIndex(users, token) < |users|
  {
    FindsItself(token);
    var j :| 0 <= j < |users[i].tokens| && users[i].tokens[j] == token;
    assert Finds(users[i].tokens[j], token);
    HolderFinds(users, token);
  }

  lemma {:induction false} RunKeeps(hmac: Hmac, s: State, requests: seq<Request>, i: nat, token: bytes)
    requires Keeps(s.users, i, token) && forall r :: r in requests ==> !Ends(hmac, r, token)
    ensures SameUsers(Run(hmac, s, requests).users, s.users) && Keeps(Run(hmac, s, requests).users, i, token)
  {
    if requests != [] {
      var last := requests[|requests| - 1];
      RunKeeps(hmac, s, requests[..|requests| - 1], i, token);
      assert last in requests;
      HandledKeeps(hmac, Run(hmac, s, requests[..|requests| - 1]), last, i, token);
    }
  }

  lemma TokenIsPresent(token: bytes)
    requires Cut(token).Some?
    ensures !NoToken(token)
  {
    var t := Ascii("undefined");
    assert forall c :: c in t ==> c != PERIOD;
    CutParts(token);
    assert PERIOD in token;
  }

  /** The user who keeps a token is the one it is attributed to. */
  lemma KeeperIsHolder(hmac: Hmac, users: seq<UserData>, i: nat, token: bytes)
    requires Owned(hmac, users) && Keeps(users, i, token) && DecodeToken(token).Ok?
    ensures HolderIndex(users, token) == i
  {
    KeptIsHeld(users, i, token);
    HolderFinds(users, token);
    HolderIsNamed(hmac, users[i], token);
    HolderIsNamed(hmac, users[HolderIndex(users, token)], token);
  }

  // ----- what a reply means -----

  /** The time lies in the minute that a login started, cut to whole seconds. */
  predicate InLifetimeOf(r: Request, at: int) {
    Within(IssuedSecond(r.issued), ExpirySecond(r.now), at)
  }

  /** After the run, user i keeps the token, a login of that user was answered with it, and its minute is not over. */
  ghost predicate InSession(hmac: Hmac, requests: seq<Request>, i: nat, token: bytes, at: int) {
    var users := Run(hmac, Start(), requests).users;
    Keeps(users, i, token)
    && exists k: nat :: AnsweredAt(hmac, requests, k, users[i], token) && InLifetimeOf(requests[k], at)
  }

  /** The token that a login request makes for this user name. */
  predicate Makes(hmac: Hmac, r: Request, username: bytes, token: bytes) {
    token == CreatedToken(hmac, username, r.issued, r.now)
  }

  lemma LoginAnswer(hmac: Hmac, users: seq<UserData>, context: Context, r: Request, token: bytes)
    requires r.login.Credentials? && LoginReply(hmac, users, context, r).response == TokenJson(token)
    ensures Authenticated(hmac, users, r.login.username, r.login.password, r.issued, r.now).1 == Some(token)
  {
  }

  lemma GivenMakes(hmac: Hmac, users: seq<UserData>, r: Request, token: bytes)
    requires r.login.Credentials?
    requires Authenticated(hmac, users, r.login.username, r.login.password, r.issued, r.now).1 == Some(token)
    ensures Makes(hmac, r, r.login.username, token)
  {
  }

  lemma AnsweredToken(hmac: Hmac, s: State, r: Request, user: UserData, token: bytes)
    requires Answered(hmac, s, r, user, token)
    ensures Makes(hmac, r, user.username, token)
  {
    LoginAnswer(hmac, s.users, s.context, r, token);
    GivenMakes(hmac, s.users, r, token);
  }

  lemma Seconds(r: Request)
    requires Timely(r)
    ensures Second(IssuedSecond(r.issued)) && Second(ExpirySecond(r.now))
  {
  }

  /** The token of a login is good in the login's minute and at no other time. */
  lemma MadeWindow(hmac: Hmac, r: Request, username: bytes, token: bytes, at: int)
    requires Timely(r) && Makes(hmac, r, username, token)
    ensures DecodeToken(token).Ok? && (Checked(hmac, token, at) == Accepted <==> InLifetimeOf(r, at))
  {
    Seconds(r);
    TokenDecodes(hmac, username, IssuedSecond(r.issued), ExpirySecond(r.now));
    TokenWindow(hmac, username, IssuedSecond(r.issued), ExpirySecond(r.now), at);
  }

  lemma AnsweredAtMakes(hmac: Hmac, requests: seq<Request>, k: nat, user: UserData, token: bytes)
    requires AllTimely(requests) && AnsweredAt(hmac, requests, k, user, token)
    ensures Timely(requests[k]) && Makes(hmac, requests[k], user.username, token)
  {
    assert requests[k] in requests;
    AnsweredToken(hmac, Run(hmac, Start(), requests[..k]), requests[k], user, token);
  }

  lemma SessionIsAccepted(hmac: Hmac, requests: seq<Request>, i: nat, token: bytes, at: int)
    requires AllTimely(requests) && InSession(hmac, requests, i, token, at)
    ensures var users := Run(hmac, Start(), requests).users;
      Answer(hmac, users, token, at) == Accepted && HolderIndex(users, token) == i
  {
    var users := Run(hmac, Start(), requests).users;
    InitiallyOwned(hmac);
    RunOwned(hmac, Start(), requests);
    var k: nat :| AnsweredAt(hmac, requests, k, users[i], token) && InLifetimeOf(requests[k], at);
    AnsweredAtMakes(hmac, requests, k, users[i], token);
    MadeWindow(hmac, requests[k], users[i].username, token, at);
    KeptIsHeld(users, i, token);
    KeeperIsHolder(hmac, users, i, token);
  }

  lemma AcceptedIsSession(hmac: Hmac, requests: seq<Request>, token: bytes, at: int)
    requires AllTimely(requests) && Answer(hmac, Run(hmac, Start(), requests).users, token, at) == Accepted
    ensures InSession(hmac, requests, HolderIndex(Run(hmac, Start(), requests).users, token), token, at)
  {
    var users := Run(hmac, Start(), requests).users;
    var i := HolderIndex(users, token);
    InitiallyOwned(hmac);
    RunOwned(hmac, Start(), requests);
    OwnedAcceptedIsKept(hmac, users, token, at);
    KeeperFinds(users, token);
    var k := StoredWasAnswered(hmac, requests, i, token);
    AnsweredAtMakes(hmac, requests, k, users[i], token);
    MadeWindow(hmac, requests[k], users[i].username, token, at);
  }

  /** After every run, a token is accepted exactly in a session, and then it is attributed to the session's user. */
  lemma AcceptedExactly(hmac: Hmac, requests: seq<Request>, token: bytes, at: int)
    requires AllTimely(requests)
    ensures var users := Run(hmac, Start(), requests).users;
      && (Answer(hmac, users, token, at) == Accepted <==> exists i: nat :: InSession(hmac, requests, i, token, at))
      && forall i: nat :: InSession(hmac, requests, i, token, at) ==> i == HolderIndex(users, token)
  {
    var users := Run(hmac, Start(), requests).users;
    if Answer(hmac, users, token, at) == Accepted {
      AcceptedIsSession(hmac, requests, token, at);
    }
    forall i: nat | InSession(hmac, requests, i, token, at)
      ensures Answer(hmac, users, token, at) == Accepted && i == HolderIndex(users, token)
    {
      SessionIsAccepted(hmac, requests, i, token, at);
    }
  }

  lemma SessionsStart(hmac: Hmac, requests: seq<Request>)
    requires AllTimely(requests)
    ensures Owned(hmac, Run(hmac, Start(), requests).users)
  {
    InitiallyOwned(hmac);
    RunOwned(hmac, Start(), requests);
  }

  lemma AcceptedIsPresent(hmac: Hmac, users: seq<UserData>, token: bytes, at: int)
    requires Answer(hmac, users, token, at) == Accepted
    ensures !NoToken(token) && HolderIndex(users, token) < |users|
  {
    AcceptedIsSigned(hmac, token, at);
    TokenIsPresent(token);
  }

  /** The status of a request in terms of the answer its token gets. */
  lemma StatusOfAnswer(hmac: Hmac, users: seq<UserData>, context: Context, r: Request)
    requires !IsLogin(r)
    ensures var status, answer := Handled(hmac, users, context, r).status, Answer(hmac, users, r.token, r.at);
      var accepted := !NoToken(r.token) && answer == Accepted;
      && (status == Success <==> accepted && Routed(r.path) && Permitted(users, r.token, r.path))
      && (status == Forbidden <==> accepted && Routed(r.path) && !Permitted(users, r.token, r.path))
      && (status == BadRequest <==> accepted && !Routed(r.path))
      && (status == Raised <==> !NoToken(r.token) && answer == Thrown)
  {
  }

  /**
   * What each status says after every run of requests. Everything but a login is decided by the session of its token:
   * served when the session's user has the route, forbidden when not, a bad request when there is no such method. An
   * exception comes from a part of a stored token that does not decode, and whatever remains is not authorised.
   */
  lemma StatusMeaning(hmac: Hmac, requests: seq<Request>, r: Request)
    requires AllTimely(requests) && !IsLogin(r)
    ensures var s := Run(hmac, Start(), requests);
      var status := Handled(hmac, s.users, s.context, r).status;
      && (status == Success <==> exists i: nat ::
            (InSession(hmac, requests, i, r.token, r.at) && Routed(r.path) && r.path in s.users[i].routes))
      && (status == Forbidden <==> exists i: nat ::
            (InSession(hmac, requests, i, r.token, r.at) && Routed(r.path) && r.path !in s.users[i].routes))
      && (status == BadRequest <==> exists i: nat ::
            (InSession(hmac, requests, i, r.token, r.at) && !Routed(r.path)))
      && (status == Raised <==> (!NoToken(r.token) && DecodeToken(r.token).Err?
            && exists i :: (0 <= i < |s.users| && Holds(s.users[i], r.token))))
  {
    var s := Run(hmac, Start(), requests);
    SessionsStart(hmac, requests);
    StatusOfAnswer(hmac, s.users, s.context, r);
    AcceptedExactly(hmac, requests, r.token, r.at);
    HeldThrows(hmac, s.users, r.token, r.at);
    if Answer(hmac, s.users, r.token, r.at) == Accepted {
      AcceptedIsPresent(hmac, s.users, r.token, r.at);
      assert InSession(hmac, requests, HolderIndex(s.users, r.token), r.token, r.at);
    }
  }

  lemma {:induction false} RunSame(hmac: Hmac, requests: seq<Request>)
    ensures SameUsers(Run(hmac, Start(), requests).users, InitialUsers())
  {
    if requests != [] {
      var before := Run(hmac, Start(), requests[..|requests| - 1]);
      RunSame(hmac, requests[..|requests| - 1]);
      StepSame(hmac, before, requests[|requests| - 1]);
    }
  }

  lemma InfoReply(hmac: Hmac, users: seq<UserData>, context: Context, r: Request)
    requires !IsLogin(r) && Handled(hmac, users, context, r).status == Success && r.path == InfoPath()
    ensures Handled(hmac, users, context, r).response == UserJson(Attributed(users, r.token))
  {
  }

  lemma ServedIsAccepted(hmac: Hmac, users: seq<UserData>, context: Context, r: Request)
    requires !IsLogin(r) && Handled(hmac, users, context, r).status == Success
    ensures Answer(hmac, users, r.token, r.at) == Accepted && Routed(r.path) && Permitted(users, r.token, r.path)
    ensures r.path == InfoPath() ==> Handled(hmac, users, context, r).response == UserJson(Attributed(users, r.token))
  {
    StatusOfAnswer(hmac, users, context, r);
    if r.path == InfoPath() {
      InfoReply(hmac, users, context, r);
    }
  }

  lemma SessionLogin(hmac: Hmac, requests: seq<Request>, i: nat, token: bytes, at: int) returns (k: nat)
    requires InSession(hmac, requests, i, token, at)
    ensures AnsweredAt(hmac, requests, k, Run(hmac, Start(), requests).users[i], token) && InLifetimeOf(requests[k], at)
  {
    k :| AnsweredAt(hmac, requests, k, Run(hmac, Start(), requests).users[i], token) && InLifetimeOf(requests[k], at);
  }

  /**
   * Every run of requests from the initial store: a routed method runs only for the user its token names, only on that
   * user's routes, and only if an earlier request of the run logged that user in, with name and password, and was
   * answered with this very token, whose minute is not over. What /api/info returns is that user.
   */
  lemma MethodsRunForNamedUser(hmac: Hmac, requests: seq<Request>, r: Request) returns (i: nat, k: nat)
    requires AllTimely(requests) && !IsLogin(r)
    requires var s := Run(hmac, Start(), requests); Handled(hmac, s.users, s.context, r).status == Success
    ensures Routed(r.path) && DecodeToken(r.token).Ok?
    ensures var s := Run(hmac, Start(), requests);
      && i < |s.users| && r.path in s.users[i].routes && r.token in s.users[i].tokens
      && Find(DecodeToken(r.token).value.payloadClaims, USERNAME) == Some(Str(s.users[i].username))
      && AnsweredAt(hmac, requests, k, s.users[i], r.token) && InLifetimeOf(requests[k], r.at)
      && (r.path == InfoPath() ==> Handled(hmac, s.users, s.context, r).response == UserJson(s.users[i]))
  {
    var s := Run(hmac, Start(), requests);
    i := HolderIndex(s.users, r.token);
    SessionsStart(hmac, requests);
    ServedIsAccepted(hmac, s.users, s.context, r);
    OwnedTokenNamesUser(hmac, s.users, r.token, r.at);
    AcceptedIsSession(hmac, requests, r.token, r.at);
    k := SessionLogin(hmac, requests, i, r.token, r.at);
  }

  // ----- requests that fail -----

  lemma FailedLogin(hmac: Hmac, users: seq<UserData>, context: Context, r: Request)
    requires LoginReply(hmac, users, context, r).status != Success
    ensures LoginReply(hmac, users, context, r).context == context && LoginReply(hmac, users, context, r).users == users
  {
  }

  /** A request that does not succeed leaves the context alone, and of the users at most the refused token. */
  lemma FailureChangesLittle(hmac: Hmac, users: seq<UserData>, context: Context, r: Request)
    requires Handled(hmac, users, context, r).status != Success
    ensures Handled(hmac, users, context, r).context == context
    ensures Handled(hmac, users, context, r).users
         == if IsLogin(r) || NoToken(r.token) then users else Verified(hmac, users, r.token, r.at)
  {
    if IsLogin(r) {
      FailedLogin(hmac, users, context, r);
    }
  }

  /**
   * A request that fails ends no session, unless it uses the session's own token at a time when that is refused, and
   * the user keeps just one copy.
   */
  lemma FailureKeepsSessions(hmac: Hmac, s: State, r: Request, token: bytes, now: int)
    requires Owned(hmac, s.users) && Answer(hmac, s.users, token, now) == Accepted
    requires Handled(hmac, s.users, s.context, r).status != Success
    ensures HolderIndex(s.users, token) < |s.users|
    ensures Answer(hmac, Step(hmac, s, r).users, token, now) == Accepted
      <==> !(r.token == token && !IsLogin(r) && Checked(hmac, token, r.at).Rejected?
             && Copies(s.users[HolderIndex(s.users, token)], token) == 1)
  {
    FailureChangesLittle(hmac, s.users, s.context, r);
    AcceptedIsPresent(hmac, s.users, token, now);
    OwnedAcceptedIsKept(hmac, s.users, token, now);
    KeeperFinds(s.users, token);
    if r.token == token {
      CopiesAfterLogout(hmac, s.users, token, now);
    } else {
      DisprovedKeeps(s.users, r.token, HolderIndex(s.users, token), token);
      if Step(hmac, s, r).users == Disproved(s.users, r.token) {
        KeptIsHeld(Step(hmac, s, r).users, HolderIndex(s.users, token), token);
      }
    }
  }

  // ----- a session from login to use -----

  /** A request with a kept, accepted token on one of the keeper's routes succeeds. */
  lemma KeptTokenServes(hmac: Hmac, s: State, i: nat, r: Request)
    requires Owned(hmac, s.users) && Keeps(s.users, i, r.token) && Checked(hmac, r.token, r.at) == Accepted
    requires !IsLogin(r) && Routed(r.path) && r.path in s.users[i].routes
    ensures Handled(hmac, s.users, s.context, r).status == Success && HolderIndex(s.users, r.token) == i
  {
    AcceptedIsSigned(hmac, r.token, r.at);
    KeeperIsHolder(hmac, s.users, i, r.token);
    TokenIsPresent(r.token);
  }

  /** Logging in gives the user a new token. */
  lemma LoginGives(hmac: Hmac, s: State, r: Request, i: nat, token: bytes)
    requires IsLogin(r) && r.login.Credentials?
    requires i == LoginIndex(s.users, r.login.username, r.login.password) < |s.users|
    requires token == CreatedToken(hmac, r.login.username, r.issued, r.now)
    ensures Handled(hmac, s.users, s.context, r).response == TokenJson(token)
    ensures SameUsers(Step(hmac, s, r).users, s.users) && Keeps(Step(hmac, s, r).users, i, token)
  {
    WithTokenKeeps(s.users, i, token);
    assert Authenticated(hmac, s.users, r.login.username, r.login.password, r.issued, r.now)
        == (WithToken(s.users, i, token), Some(token));
  }

  lemma WithTokenKeeps(users: seq<UserData>, i: nat, token: bytes)
    requires i < |users|
    ensures SameUsers(WithToken(users, i, token), users) && Keeps(WithToken(users, i, token), i, token)
  {
  }

  lemma SameRoutes(a: seq<UserData>, b: seq<UserData>, i: nat)
    requires SameUsers(a, b) && i < |a|
    ensures a[i].routes == b[i].routes
  {
    assert a[i].(tokens := []).routes == b[i].(tokens := []).routes;
  }

  /**
   * From login to use: in a store in order, log in, let any requests follow that neither log the token out nor have it
   * refused, and a request with the token, in its lifetime and on one of the user's routes, succeeds for that user.
   */
  lemma SessionLasts(hmac: Hmac, s: State, login: Request, between: seq<Request>, r: Request, i: nat)
    requires Owned(hmac, s.users) && Timely(login) && AllTimely(between)
    requires IsLogin(login) && login.login.Credentials?
    requires i == LoginIndex(s.users, login.login.username, login.login.password) < |s.users|
    requires Handled(hmac, s.users, s.context, login).response == TokenJson(r.token)
    requires forall q :: q in between ==> !Ends(hmac, q, r.token)
    requires InLifetimeOf(login, r.at)
    requires !IsLogin(r) && Routed(r.path) && r.path in s.users[i].routes
    ensures var later := Run(hmac, Step(hmac, s, login), between);
      Handled(hmac, later.users, later.context, r).status == Success && HolderIndex(later.users, r.token) == i
  {
    var username := login.login.username;
    var first := Step(hmac, s, login);
    LoginGives(hmac, s, login, i, CreatedToken(hmac, username, login.issued, login.now));
    HandledOwned(hmac, s.users, s.context, login);
    RunOwned(hmac, first, between);
    RunKeeps(hmac, first, between, i, r.token);
    SameRoutes(Run(hmac, first, between).users, first.users, i);
    SameRoutes(first.users, s.users, i);
    MadeWindow(hmac, login, username, r.token, r.at);
    KeptTokenServes(hmac, Run(hmac, first, between), i, r);
  }

  /** A token in its lifetime is not refused, so only logging out ends its session. */
  lemma OnlyLogoutEnds(hmac: Hmac, username: bytes, iat: int, exp: int, r: Request)
    requires Second(iat) && Second(exp) && Within(iat, exp, r.at)
    ensures Ends(hmac, r, TokenText(hmac, username, iat, exp))
      <==> r.token == TokenText(hmac, username, iat, exp) && r.path == LogoutPath()
  {
    TokenWindow(hmac, username, iat, exp, r.at);
  }
}
