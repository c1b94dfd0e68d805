/** What each request does, after every run of requests: the reply, and whose tokens change. */
module ApiEffects {
  import opened ApiGate
  import opened ApiRuns
  import opened Bytes
  import opened Tokens
  import opened UserRuns
  import opened Users
  import opened Verifier

  // ----- what the routed methods do -----

  /** Everybody may log out and ask for their data; only the administrator may call the secret method. */
  lemma RoutesOfUsers(users: seq<UserData>, i: nat)
    requires SameUsers(users, InitialUsers()) && i < |users|
    ensures Ascii("/api/logout") in users[i].routes && Ascii("/api/info") in users[i].routes
    ensures Ascii("/api/secret") in users[i].routes <==> users[i].isAdmin
  {
    var initial := InitialUsers()[i];
    assert users[i].(tokens := []).routes == initial.(tokens := []).routes;
    assert users[i].(tokens := []).isAdmin == initial.(tokens := []).isAdmin;
    RoutesAtFirst();
    assert i == 0 || i == 1;
  }

  lemma RoutesAtFirst()
    ensures var admin, user := InitialUsers()[0], InitialUsers()[1];
      && admin.isAdmin && !user.isAdmin
      && admin.routes == [Ascii("/api/settings"), Ascii("/api/logout"), Ascii("/api/info"), Ascii("/api/secret")]
      && user.routes == [Ascii("/api/settings"), Ascii("/api/logout"), Ascii("/api/info")]
    ensures Ascii("/api/secret") !in InitialUsers()[1].routes
  {
    PathsDiffer();
  }

  lemma PathsDiffer()
    ensures Ascii("/api/secret") != Ascii("/api/settings") && Ascii("/api/secret") != Ascii("/api/logout")
    ensures Ascii("/api/secret") != Ascii("/api/info") && Ascii("/api/logout") != Ascii("/api/info")
    ensures Ascii("/api/login") != Ascii("/api/logout") && Ascii("/api/login") != Ascii("/api/secret")
    ensures Ascii("/api/login") != Ascii("/api/info")
  {
    assert |Ascii("/api/secret")| == 11 && |Ascii("/api/settings")| == 13 && |Ascii("/api/logout")| == 11;
    assert |Ascii("/api/info")| == 9 && |Ascii("/api/login")| == 10;
    assert Ascii("/api/secret")[5] == 's' as int && Ascii("/api/logout")[5] == 'l' as int;
  }

  /** A request with an accepted token of user i is decided by that user's routes. */
  lemma SessionServes(hmac: Hmac, requests: seq<Request>, i: nat, r: Request)
    requires AllTimely(requests) && !IsLogin(r) && InSession(hmac, requests, i, r.token, r.at)
    ensures var s := Run(hmac, Start(), requests);
      && Owned(hmac, s.users) && SameUsers(s.users, InitialUsers()) && i < |s.users|
      && Answer(hmac, s.users, r.token, r.at) == Accepted && HolderIndex(s.users, r.token) == i && !NoToken(r.token)
  {
    var s := Run(hmac, Start(), requests);
    SessionsStart(hmac, requests);
    RunSame(hmac, requests);
    SessionIsAccepted(hmac, requests, i, r.token, r.at);
    AcceptedIsPresent(hmac, s.users, r.token, r.at);
  }

  lemma HandledLogout(hmac: Hmac, users: seq<UserData>, context: Context, r: Request)
    requires r.path == LogoutPath() && !IsLogin(r) && !NoToken(r.token)
    requires Answer(hmac, users, r.token, r.at) == Accepted && Permitted(users, r.token, r.path)
    ensures Handled(hmac, users, context, r)
         == Reply(Disproved(users, r.token), Context(r.path, r.token, r.body), Success, Untouched)
  {
  }

  /** Taking one copy away from the keeper changes no other user's copies and no other token's. */
  lemma DisprovedExactly(users: seq<UserData>, token: bytes, i: nat)
    requires i == KeeperIndex(users, token) < |users|
    ensures SameUsers(Disproved(users, token), users)
    ensures Copies(users[i], token) >= 1
    ensures Copies(Disproved(users, token)[i], token) == Copies(users[i], token) - 1
    ensures forall j, t :: 0 <= j < |users| && (j != i || t != token) ==>
      Copies(Disproved(users, token)[j], t) == Copies(users[j], t)
  {
    DisprovedSame(users, token);
    KeeperFinds(users, token);
    DisprovedCopies(users, token, i, token);
    forall j, t | 0 <= j < |users| && (j != i || t != token)
      ensures Copies(Disproved(users, token)[j], t) == Copies(users[j], t)
    {
      DisprovedCopies(users, token, j, t);
    }
  }

  /**
   * Logging out, after every run: the request always succeeds, takes exactly one copy of its token from the user of the
   * session and nothing else from anybody, and the token is accepted afterwards, at whatever time it was accepted
   * before, exactly when that user kept it at least twice.
   */
  lemma LogoutRequest(hmac: Hmac, requests: seq<Request>, i: nat, r: Request)
    requires AllTimely(requests) && r.path == Ascii("/api/logout") && InSession(hmac, requests, i, r.token, r.at)
    ensures var s, n := Run(hmac, Start(), requests), Run(hmac, Start(), requests + [r]);
      && Handled(hmac, s.users, s.context, r).status == Success
      && SameUsers(n.users, s.users) && i < |s.users|
      && Copies(n.users[i], r.token) == Copies(s.users[i], r.token) - 1
      && (forall j, t :: 0 <= j < |s.users| && (j != i || t != r.token) ==>
            Copies(n.users[j], t) == Copies(s.users[j], t))
      && (forall now :: Answer(hmac, n.users, r.token, now) == Accepted <==>
            (Answer(hmac, s.users, r.token, now) == Accepted && Copies(s.users[i], r.token) >= 2))
  {
    var s := Run(hmac, Start(), requests);
    PathsDiffer();
    SessionServes(hmac, requests, i, r);
    RoutesOfUsers(s.users, i);
    HandledLogout(hmac, s.users, s.context, r);
    RunMore(hmac, requests, r);
    OwnedAcceptedIsKept(hmac, s.users, r.token, r.at);
    DisprovedExactly(s.users, r.token, i);
    forall now
      ensures Answer(hmac, Disproved(s.users, r.token), r.token, now) == Accepted
        <==> (Answer(hmac, s.users, r.token, now) == Accepted && Copies(s.users[i], r.token) >= 2)
    {
      LogoutAnswer(hmac, s.users, i, r.token, r.at, now);
    }
  }

  lemma RunMore(hmac: Hmac, requests: seq<Request>, r: Request)
    ensures Run(hmac, Start(), requests + [r]) == Step(hmac, Run(hmac, Start(), requests), r)
  {
    assert (requests + [r])[..|requests|] == requests;
  }

  lemma LogoutAnswer(hmac: Hmac, users: seq<UserData>, i: nat, token: bytes, at: int, now: int)
    requires Owned(hmac, users) && Answer(hmac, users, token, at) == Accepted && HolderIndex(users, token) == i
    requires i < |users| && KeeperIndex(users, token) == i
    ensures Answer(hmac, Disproved(users, token), token, now) == Accepted
      <==> (Answer(hmac, users, token, now) == Accepted && Copies(users[i], token) >= 2)
  {
    if Answer(hmac, users, token, now) == Accepted {
      CopiesAfterLogout(hmac, users, token, now);
    } else {
      HolderFinds(Disproved(users, token), token);
    }
  }

  lemma HandledSecret(hmac: Hmac, users: seq<UserData>, context: Context, r: Request)
    requires r.path == SecretPath() && !IsLogin(r) && !NoToken(r.token) && SecretPath() != LogoutPath()
    requires Answer(hmac, users, r.token, r.at) == Accepted
    ensures Handled(hmac, users, context, r)
         == if Permitted(users, r.token, r.path)
            then Reply(users, Context(r.path, r.token, r.body), Success, SecretCalled)
            else Reply(users, context, Forbidden, Untouched)
  {
  }

  /** The secret method, after every run: called for the administrator, forbidden to the others, changing no user. */
  lemma SecretRequest(hmac: Hmac, requests: seq<Request>, i: nat, r: Request)
    requires AllTimely(requests) && r.path == Ascii("/api/secret") && InSession(hmac, requests, i, r.token, r.at)
    ensures var s := Run(hmac, Start(), requests);
      && i < |s.users|
      && Handled(hmac, s.users, s.context, r)
      == if s.users[i].isAdmin then Reply(s.users, Context(r.path, r.token, r.body), Success, SecretCalled)
         else Reply(s.users, s.context, Forbidden, Untouched)
  {
    var s := Run(hmac, Start(), requests);
    PathsDiffer();
    SessionServes(hmac, requests, i, r);
    RoutesOfUsers(s.users, i);
    HandledSecret(hmac, s.users, s.context, r);
  }

  lemma HandledInfo(hmac: Hmac, users: seq<UserData>, context: Context, r: Request)
    requires r.path == InfoPath() && !IsLogin(r) && !NoToken(r.token)
    requires InfoPath() != LogoutPath() && InfoPath() != SecretPath()
    requires Answer(hmac, users, r.token, r.at) == Accepted && Permitted(users, r.token, r.path)
    ensures Handled(hmac, users, context, r)
         == Reply(users, Context(r.path, r.token, r.body), Success, UserJson(users[HolderIndex(users, r.token)]))
  {
  }

  /** Asking for one's data, after every run: it is that of the session's user, and no user changes. */
  lemma InfoRequest(hmac: Hmac, requests: seq<Request>, i: nat, r: Request)
    requires AllTimely(requests) && r.path == Ascii("/api/info") && InSession(hmac, requests, i, r.token, r.at)
    ensures var s := Run(hmac, Start(), requests);
      && i < |s.users|
      && Handled(hmac, s.users, s.context, r)
      == Reply(s.users, Context(r.path, r.token, r.body), Success, UserJson(s.users[i]))
  {
    var s := Run(hmac, Start(), requests);
    PathsDiffer();
    SessionServes(hmac, requests, i, r);
    RoutesOfUsers(s.users, i);
    HandledInfo(hmac, s.users, s.context, r);
  }

  /** Without a token nothing but a login is served, whatever has run before. */
  lemma NoTokenRefused(hmac: Hmac, s: State, r: Request)
    requires r.token == [] || r.token == Ascii("undefined")
    requires !r.isPost || r.path != Ascii("/api/login")
    ensures Handled(hmac, s.users, s.context, r) == Reply(s.users, s.context, Unauthorized, Untouched)
  {
  }

  // ----- a token that nobody keeps -----

  ghost predicate Nowhere(users: seq<UserData>, token: bytes) {
    forall i :: 0 <= i < |users| ==> token !in users[i].tokens
  }

  lemma StepNowhere(hmac: Hmac, s: State, r: Request, token: bytes)
    requires Nowhere(s.users, token)
    requires IsLogin(r) ==> Handled(hmac, s.users, s.context, r).response != TokenJson(token)
    ensures Nowhere(Step(hmac, s, r).users, token)
  {
    var n := Step(hmac, s, r);
    StepSame(hmac, s, r);
    forall i | 0 <= i < |n.users| ensures token !in n.users[i].tokens {
      StepTokens(hmac, s, r, i, token);
    }
  }

  /** None of the requests, run from s, is a login that is answered with the token. */
  ghost predicate NotGiven(hmac: Hmac, s: State, requests: seq<Request>, token: bytes) {
    forall k :: 0 <= k < |requests| && IsLogin(requests[k]) ==>
      var before := Run(hmac, s, requests[..k]);
      Handled(hmac, before.users, before.context, requests[k]).response != TokenJson(token)
  }

  lemma {:induction false} RunNowhere(hmac: Hmac, s: State, requests: seq<Request>, token: bytes)
    requires Nowhere(s.users, token) && NotGiven(hmac, s, requests, token)
    ensures Nowhere(Run(hmac, s, requests).users, token)
  {
    if requests != [] {
      var n := |requests| - 1;
      assert forall k :: 0 <= k < n ==> requests[..n][..k] == requests[..k];
      RunNowhere(hmac, s, requests[..n], token);
      StepNowhere(hmac, Run(hmac, s, requests[..n]), requests[n], token);
    }
  }

  lemma NowhereRefused(hmac: Hmac, users: seq<UserData>, token: bytes, at: int)
    requires Owned(hmac, users) && Nowhere(users, token)
    ensures Answer(hmac, users, token, at) != Accepted
  {
    if Answer(hmac, users, token, at) == Accepted {
      OwnedAcceptedIsKept(hmac, users, token, at);
      KeeperFinds(users, token);
      assert false;
    }
  }

  /**
   * A token that nobody keeps is not accepted again, whatever is requested, until a login is answered with it: after
   * the logout that takes its last copy the session is over for good.
   */
  lemma LoggedOutStaysOut(hmac: Hmac, s: State, requests: seq<Request>, token: bytes, at: int)
    requires Owned(hmac, s.users) && AllTimely(requests)
    requires Nowhere(s.users, token) && NotGiven(hmac, s, requests, token)
    ensures Answer(hmac, Run(hmac, s, requests).users, token, at) != Accepted
  {
    RunOwned(hmac, s, requests);
    RunNowhere(hmac, s, requests, token);
    NowhereRefused(hmac, Run(hmac, s, requests).users, token, at);
  }

  /** An accepted token has no copies but the holder's. */
  lemma OnlyKeeper(hmac: Hmac, users: seq<UserData>, i: nat, token: bytes, at: int)
    requires Owned(hmac, users) && Answer(hmac, users, token, at) == Accepted && HolderIndex(users, token) == i
    ensures forall j :: 0 <= j < |users| && j != i ==> Copies(users[j], token) == 0
  {
    OwnedTokenNamesUser(hmac, users, token, at);
    forall j | 0 <= j < |users| && j != i ensures Copies(users[j], token) == 0 {
      if token in users[j].tokens {
        KeeperHolds(users[j], token);
      }
    }
  }

  lemma LastCopyGone(hmac: Hmac, requests: seq<Request>, i: nat, r: Request)
    requires AllTimely(requests) && r.path == Ascii("/api/logout") && InSession(hmac, requests, i, r.token, r.at)
    requires Copies(Run(hmac, Start(), requests).users[i], r.token) == 1
    ensures Nowhere(Run(hmac, Start(), requests + [r]).users, r.token)
  {
    var users, left := Run(hmac, Start(), requests).users, Run(hmac, Start(), requests + [r]).users;
    LogoutRequest(hmac, requests, i, r);
    PathsDiffer();
    SessionServes(hmac, requests, i, r);
    OnlyKeeper(hmac, users, i, r.token, r.at);
    NoCopies(left, r.token);
  }

  lemma NoCopies(users: seq<UserData>, token: bytes)
    requires forall j :: 0 <= j < |users| ==> Copies(users[j], token) == 0
    ensures Nowhere(users, token)
  {
    forall j | 0 <= j < |users| ensures token !in users[j].tokens {
      assert Copies(users[j], token) == 0;
    }
  }

  lemma AllTimelyMore(requests: seq<Request>, r: Request)
    requires AllTimely(requests) && Timely(r)
    ensures AllTimely(requests + [r])
  {
  }

  /** From the logout that takes a token's last copy on, the token opens nothing until a login is answered with it. */
  lemma LastLogoutLocksOut(hmac: Hmac, requests: seq<Request>, i: nat, r: Request, later: seq<Request>, at: int)
    requires AllTimely(requests) && Timely(r) && AllTimely(later)
    requires r.path == Ascii("/api/logout") && InSession(hmac, requests, i, r.token, r.at)
    requires Copies(Run(hmac, Start(), requests).users[i], r.token) == 1
    requires NotGiven(hmac, Run(hmac, Start(), requests + [r]), later, r.token)
    ensures Answer(hmac, Run(hmac, Run(hmac, Start(), requests + [r]), later).users, r.token, at) != Accepted
  {
    LastCopyGone(hmac, requests, i, r);
    AllTimelyMore(requests, r);
    SessionsStart(hmac, requests + [r]);
    LoggedOutStaysOut(hmac, Run(hmac, Start(), requests + [r]), later, r.token, at);
  }

  /** The initial users' credentials. */
  function Known(username: bytes, password: bytes): (i: nat) {
    if username == Ascii("admin") && password == Ascii("123") then 0
    else if username == Ascii("user") && password == Ascii("456") then 1
    else 2
  }

  lemma KnownIsCredited(users: seq<UserData>, username: bytes, password: bytes)
    requires SameUsers(users, InitialUsers())
    ensures LoginIndex(users, username, password) == Known(username, password)
  {
    assert |Ascii("admin")| == 5 && |Ascii("user")| == 4;
    SameCredits(users, InitialUsers(), 0);
    SameCredits(users, InitialUsers(), 1);
    LoginIs(users, username, password, Known(username, password));
  }

  lemma HandledLogin(hmac: Hmac, users: seq<UserData>, context: Context, r: Request)
    requires IsLogin(r) && r.login.Credentials?
    ensures var i := LoginIndex(users, r.login.username, r.login.password);
      var token := CreatedToken(hmac, r.login.username, r.issued, r.now);
      Handled(hmac, users, context, r)
        == if i == |users| then Reply(users, context, Unauthorized, Untouched)
           else Reply(WithToken(users, i, token), context, Success, TokenJson(token))
  {
    var a := Authenticated(hmac, users, r.login.username, r.login.password, r.issued, r.now);
    assert Handled(hmac, users, context, r) == LoginReply(hmac, users, context, r);
  }

  lemma WithTokenExactly(users: seq<UserData>, i: nat, token: bytes)
    requires i < |users|
    ensures SameUsers(WithToken(users, i, token), users)
    ensures forall j, t :: 0 <= j < |users| ==>
      Copies(WithToken(users, i, token)[j], t) == Copies(users[j], t) + if j == i && t == token then 1 else 0
  {
  }

  /** The reply to a login of user i with the token; there is no user behind the two initial ones. */
  ghost predicate LoginAnswered(reply: Reply, users: seq<UserData>, context: Context, i: nat, token: bytes) {
    && |users| == 2
    && (i >= 2 ==> reply == Reply(users, context, Unauthorized, Untouched))
    && (i < 2 ==>
          && reply.status == Success && reply.response == TokenJson(token) && reply.context == context
          && SameUsers(reply.users, users)
          && forall j, t :: 0 <= j < 2 ==>
               Copies(reply.users[j], t) == Copies(users[j], t) + if j == i && t == token then 1 else 0)
  }

  lemma LoginEffect(hmac: Hmac, users: seq<UserData>, context: Context, r: Request, i: nat, token: bytes)
    requires SameUsers(users, InitialUsers()) && IsLogin(r) && r.login.Credentials?
    requires i == Known(r.login.username, r.login.password)
    requires token == CreatedToken(hmac, r.login.username, r.issued, r.now)
    ensures LoginAnswered(Handled(hmac, users, context, r), users, context, i, token)
  {
    KnownIsCredited(users, r.login.username, r.login.password);
    HandledLogin(hmac, users, context, r);
    if i < 2 {
      WithTokenExactly(users, i, token);
    }
  }

  /**
   * Logging in, after every run: it succeeds exactly with one of the two names and passwords, answers with the token of
   * that name for the two clock readings (TokenStandard.CreatedIs), and adds one copy of it to that user and nothing
   * else to anybody.
   */
  lemma LoginRequest(hmac: Hmac, requests: seq<Request>, r: Request)
    requires r.isPost && r.path == Ascii("/api/login") && r.login.Credentials?
    ensures var s := Run(hmac, Start(), requests);
      LoginAnswered(Handled(hmac, s.users, s.context, r), s.users, s.context,
                    Known(r.login.username, r.login.password),
                    CreatedToken(hmac, r.login.username, r.issued, r.now))
  {
    var s := Run(hmac, Start(), requests);
    RunSame(hmac, requests);
    LoginEffect(hmac, s.users, s.context, r, Known(r.login.username, r.login.password),
                CreatedToken(hmac, r.login.username, r.issued, r.now));
  }

  /** A login body that is no JSON is a bad request and changes nothing. */
  lemma BadLogin(hmac: Hmac, s: State, r: Request)
    requires r.isPost && r.path == Ascii("/api/login") && r.login.NotJson?
    ensures Handled(hmac, s.users, s.context, r) == Reply(s.users, s.context, BadRequest, InvalidJson)
  {
  }
}
