/** Runs of the session store: whose tokens it keeps, where they come from, and when logging out ends a session. */
module UserRuns {
  import opened Bytes
  import opened Json
  import opened JsonAccepted
  import opened Jwt
  import opened StoredTokens
  import opened TokenParts
  import opened Tokens
  import opened Users
  import opened Verifier
  import opened Wrappers

  // ----- runs -----

  datatype Event =
    | Login(username: bytes, password: bytes, issued: nat, now: nat)
    | Check(token: bytes, at: int)
    | Logout(token: bytes)

  predicate Timed(e: Event) {
    e.Login? ==> Instant(e.issued, e.now)
  }

  function Next(hmac: Hmac, users: seq<UserData>, e: Event): seq<UserData> {
    match e
    case Login(username, password, issued, now) => LoggedIn(hmac, users, username, password, issued, now)
    case Check(token, at) => Verified(hmac, users, token, at)
    case Logout(token) => Disproved(users, token)
  }

  /** The store after a run of events, the last one at the end. */
  function After(hmac: Hmac, events: seq<Event>): seq<UserData> {
    if events == [] then InitialUsers() else Next(hmac, After(hmac, events[..|events| - 1]), events[|events| - 1])
  }

  /** A token CreateToken has made for this user name. */
  ghost predicate IsTokenOf(hmac: Hmac, token: bytes, username: bytes) {
    exists iat, exp :: Second(iat) && Second(exp) && token == TokenText(hmac, username, iat, exp)
  }

  predicate DistinctNames(users: seq<UserData>) {
    forall i, j :: 0 <= i < j < |users| ==> users[i].username != users[j].username
  }

  ghost predicate TokensOwned(hmac: Hmac, user: UserData) {
    forall t :: t in user.tokens ==> IsTokenOf(hmac, t, user.username)
  }

  /** User names are distinct and every stored token was made for the user who keeps it. */
  ghost predicate Owned(hmac: Hmac, users: seq<UserData>) {
    DistinctNames(users) && forall i :: 0 <= i < |users| ==> TokensOwned(hmac, users[i])
  }

  lemma InitiallyOwned(hmac: Hmac)
    ensures Owned(hmac, InitialUsers())
  {
    assert |InitialUsers()[0].username| == 5 && |InitialUsers()[1].username| == 4;
  }

  lemma WithoutOwned(hmac: Hmac, user: UserData, token: bytes)
    requires TokensOwned(hmac, user)
    ensures TokensOwned(hmac, user.(tokens := Without(user.tokens, token)))
  {
    assert forall t :: t in Without(user.tokens, token) ==> t in user.tokens;
  }

  lemma UpdateOwned(hmac: Hmac, users: seq<UserData>, i: nat, tokens: seq<bytes>)
    requires Owned(hmac, users) && i < |users| && TokensOwned(hmac, users[i].(tokens := tokens))
    ensures Owned(hmac, users[i := users[i].(tokens := tokens)])
  {
  }

  lemma DisprovedOwned(hmac: Hmac, users: seq<UserData>, token: bytes)
    requires Owned(hmac, users)
    ensures Owned(hmac, Disproved(users, token))
  {
    var i := KeeperIndex(users, token);
    if i < |users| {
      WithoutOwned(hmac, users[i], token);
      UpdateOwned(hmac, users, i, Without(users[i].tokens, token));
    }
  }

  lemma GivenOwned(hmac: Hmac, user: UserData, issued: nat, now: nat)
    requires TokensOwned(hmac, user) && Instant(issued, now)
    ensures TokensOwned(hmac, user.(tokens := user.tokens + [CreatedToken(hmac, user.username, issued, now)]))
  {
    assert Second(IssuedSecond(issued)) && Second(ExpirySecond(now));
    assert IsTokenOf(hmac, CreatedToken(hmac, user.username, issued, now), user.username);
  }

  lemma LoggedInOwned(hmac: Hmac, users: seq<UserData>, username: bytes, password: bytes, issued: nat, now: nat)
    requires Owned(hmac, users) && Instant(issued, now)
    ensures Owned(hmac, LoggedIn(hmac, users, username, password, issued, now))
  {
    var i := LoginIndex(users, username, password);
    if i < |users| {
      LoginFinds(users, username, password);
      GivenOwned(hmac, users[i], issued, now);
      UpdateOwned(hmac, users, i, users[i].tokens + [CreatedToken(hmac, username, issued, now)]);
    }
  }

  /** Every run of logins, verifications and logouts keeps each token with the user it names. */
  lemma {:induction false} RunKeepsOwned(hmac: Hmac, events: seq<Event>)
    requires forall e :: e in events ==> Timed(e)
    ensures Owned(hmac, After(hmac, events))
  {
    if events == [] {
      InitiallyOwned(hmac);
    } else {
      var before, e := After(hmac, events[..|events| - 1]), events[|events| - 1];
      RunKeepsOwned(hmac, events[..|events| - 1]);
      assert e in events;
      match e {
        case Login(username, password, issued, now) => LoggedInOwned(hmac, before, username, password, issued, now);
        case Check(token, at) => DisprovedOwned(hmac, before, token);
        case Logout(token) => DisprovedOwned(hmac, before, token);
      }
    }
  }

  // ----- where stored tokens come from -----

  /** Everything about a user but the tokens. */
  predicate SameUsers(a: seq<UserData>, b: seq<UserData>) {
    |a| == |b| && forall k :: 0 <= k < |a| ==> a[k].(tokens := []) == b[k].(tokens := [])
  }

  lemma DisprovedSame(users: seq<UserData>, token: bytes)
    ensures SameUsers(Disproved(users, token), users)
  {
  }

  lemma LoggedInSame(hmac: Hmac, users: seq<UserData>, username: bytes, password: bytes, issued: nat, now: nat)
    ensures SameUsers(LoggedIn(hmac, users, username, password, issued, now), users)
  {
  }

  lemma NextSame(hmac: Hmac, users: seq<UserData>, e: Event)
    ensures SameUsers(Next(hmac, users, e), users)
  {
    match e {
      case Login(username, password, issued, now) => LoggedInSame(hmac, users, username, password, issued, now);
      case Check(t, at) => DisprovedSame(users, t);
      case Logout(t) => DisprovedSame(users, t);
    }
  }

  /** Whether the login hands this token to this user. */
  predicate Gives(hmac: Hmac, users: seq<UserData>, e: Event, i: nat, token: bytes) {
    e.Login? && i < |users| && LoginIndex(users, e.username, e.password) == i
    && Authenticated(hmac, users, e.username, e.password, e.issued, e.now).1 == Some(token)
  }

  /** Whether the event takes this token from this user. */
  predicate Takes(hmac: Hmac, users: seq<UserData>, e: Event, i: nat, token: bytes) {
    i < |users| && KeeperIndex(users, token) == i
    && match e
       case Login(_, _, _, _) => false
       case Check(t, at) => t == token && HolderIndex(users, t) < |users| && Checked(hmac, t, at).Rejected?
       case Logout(t) => t == token
  }

  function Copies(user: UserData, token: bytes): nat {
    multiset(user.tokens)[token]
  }

  lemma WithoutCopies(tokens: seq<bytes>, other: bytes, token: bytes)
    ensures multiset(Without(tokens, other))[token]
         == multiset(tokens)[token] - if token == other && token in tokens then 1 else 0
  {
    var j := TokenIndex(tokens, other);
    TokenFinds(tokens, other);
    if j < |tokens| {
      assert tokens == tokens[..j] + [tokens[j]] + tokens[j + 1..];
    }
  }

  lemma DisprovedCopies(users: seq<UserData>, other: bytes, i: nat, token: bytes)
    requires i < |users|
    ensures Copies(Disproved(users, other)[i], token)
         == Copies(users[i], token) - if token == other && KeeperIndex(users, other) == i then 1 else 0
  {
    KeeperFinds(users, other);
    WithoutCopies(users[i].tokens, other, token);
  }

  lemma LoggedInCopies(hmac: Hmac, users: seq<UserData>, e: Event, i: nat, token: bytes)
    requires e.Login? && i < |users|
    ensures Copies(LoggedIn(hmac, users, e.username, e.password, e.issued, e.now)[i], token)
         == Copies(users[i], token) + if Gives(hmac, users, e, i, token) then 1 else 0
  {
  }

  lemma NextCopies(hmac: Hmac, users: seq<UserData>, e: Event, i: nat, token: bytes)
    requires i < |users|
    ensures Copies(Next(hmac, users, e)[i], token)
         == Copies(users[i], token) + (if Gives(hmac, users, e, i, token) then 1 else 0)
            - (if Takes(hmac, users, e, i, token) then 1 else 0)
  {
    match e {
      case Login(_, _, _, _) => LoggedInCopies(hmac, users, e, i, token);
      case Check(t, at) => DisprovedCopies(users, t, i, token);
      case Logout(t) => DisprovedCopies(users, t, i, token);
    }
  }

  /** How often a run hands a token to a user, and how often it takes it away again. */
  function Given(hmac: Hmac, events: seq<Event>, i: nat, token: bytes): nat {
    if events == [] then 0
    else
      var before, e := events[..|events| - 1], events[|events| - 1];
      Given(hmac, before, i, token) + if Gives(hmac, After(hmac, before), e, i, token) then 1 else 0
  }

  function Taken(hmac: Hmac, events: seq<Event>, i: nat, token: bytes): nat {
    if events == [] then 0
    else
      var before, e := events[..|events| - 1], events[|events| - 1];
      Taken(hmac, before, i, token) + if Takes(hmac, After(hmac, before), e, i, token) then 1 else 0
  }

  lemma {:induction false} AfterSame(hmac: Hmac, events: seq<Event>)
    ensures SameUsers(After(hmac, events), InitialUsers())
  {
    if events != [] {
      AfterSame(hmac, events[..|events| - 1]);
      NextSame(hmac, After(hmac, events[..|events| - 1]), events[|events| - 1]);
    }
  }

  /** Tokens are conserved: over every run a user keeps as many copies as logins gave, less those taken away. */
  lemma {:induction false} CopiesConserved(hmac: Hmac, events: seq<Event>, i: nat, token: bytes)
    requires i < |InitialUsers()|
    ensures |After(hmac, events)| == |InitialUsers()|
    ensures Copies(After(hmac, events)[i], token) + Taken(hmac, events, i, token) == Given(hmac, events, i, token)
  {
    AfterSame(hmac, events);
    if events != [] {
      var before := events[..|events| - 1];
      CopiesConserved(hmac, before, i, token);
      NextCopies(hmac, After(hmac, before), events[|events| - 1], i, token);
    }
  }

  /** Event k of the run is a login of user i that was answered with this token. */
  ghost predicate LoginAt(hmac: Hmac, events: seq<Event>, k: nat, i: nat, token: bytes) {
    k < |events| && Gives(hmac, After(hmac, events[..k]), events[k], i, token)
  }

  lemma LoginBefore(hmac: Hmac, events: seq<Event>, k: nat, i: nat, token: bytes)
    requires events != [] && LoginAt(hmac, events[..|events| - 1], k, i, token)
    ensures LoginAt(hmac, events, k, i, token)
  {
    assert events[..|events| - 1][..k] == events[..k];
  }

  /** What a run has given, some login of it gave. */
  lemma {:induction false} GivenByLogin(hmac: Hmac, events: seq<Event>, i: nat, token: bytes) returns (k: nat)
    requires Given(hmac, events, i, token) > 0
    ensures LoginAt(hmac, events, k, i, token)
  {
    var n := |events| - 1;
    if Gives(hmac, After(hmac, events[..n]), events[n], i, token) {
      k := n;
    } else {
      k := GivenByLogin(hmac, events[..n], i, token);
      LoginBefore(hmac, events, k, i, token);
    }
  }

  /** The token of this login. */
  predicate IsGiven(hmac: Hmac, e: Event, token: bytes) {
    e.Login? && token == CreatedToken(hmac, e.username, e.issued, e.now)
  }

  /** A login that gives a token has the user's name and password. */
  lemma GivenToUser(hmac: Hmac, users: seq<UserData>, e: Event, i: nat, token: bytes)
    requires Gives(hmac, users, e, i, token)
    ensures i < |users| && Credited(users[i], e.username, e.password) && IsGiven(hmac, e, token)
  {
    LoginFinds(users, e.username, e.password);
  }

  lemma SameCredits(a: seq<UserData>, b: seq<UserData>, i: nat)
    requires SameUsers(a, b) && i < |a|
    ensures a[i].username == b[i].username && a[i].password == b[i].password
  {
    assert a[i].(tokens := []).username == b[i].(tokens := []).username;
    assert a[i].(tokens := []).password == b[i].(tokens := []).password;
  }

  lemma LoginAtCredits(hmac: Hmac, events: seq<Event>, k: nat, i: nat, token: bytes)
    requires LoginAt(hmac, events, k, i, token)
    ensures i < |InitialUsers()| && Credited(InitialUsers()[i], events[k].username, events[k].password)
    ensures IsGiven(hmac, events[k], token)
  {
    AfterSame(hmac, events[..k]);
    GivenToUser(hmac, After(hmac, events[..k]), events[k], i, token);
    SameCredits(After(hmac, events[..k]), InitialUsers(), i);
  }

  // ----- attribution -----

  /** The user name in a decodable token is that of every user who holds it. */
  lemma HolderIsNamed(hmac: Hmac, user: UserData, token: bytes)
    requires TokensOwned(hmac, user) && Holds(user, token) && DecodeToken(token).Ok?
    ensures Find(DecodeToken(token).value.payloadClaims, USERNAME) == Some(Str(user.username))
  {
    var j :| 0 <= j < |user.tokens| && Finds(user.tokens[j], token);
    var stored := user.tokens[j];
    assert IsTokenOf(hmac, stored, user.username);
    var iat, exp :| Second(iat) && Second(exp) && stored == TokenText(hmac, user.username, iat, exp);
    SubstringNamesOwner(hmac, user.username, iat, exp, token);
  }

  /** A token that a store in order holds raises an exception exactly when it does not decode. */
  lemma HeldThrows(hmac: Hmac, users: seq<UserData>, token: bytes, now: int)
    requires Owned(hmac, users)
    ensures Answer(hmac, users, token, now) == Thrown
      <==> (exists i :: 0 <= i < |users| && Holds(users[i], token)) && DecodeToken(token).Err?
  {
    HolderFinds(users, token);
    var i := HolderIndex(users, token);
    if i < |users| && DecodeToken(token).Ok? {
      HolderChecked(hmac, users[i], token, now);
    }
  }

  lemma HolderChecked(hmac: Hmac, user: UserData, token: bytes, now: int)
    requires TokensOwned(hmac, user) && Holds(user, token) && DecodeToken(token).Ok?
    ensures Checked(hmac, token, now) != Thrown
  {
    var j :| 0 <= j < |user.tokens| && Finds(user.tokens[j], token);
    var stored := user.tokens[j];
    assert IsTokenOf(hmac, stored, user.username);
    var iat, exp :| Second(iat) && Second(exp) && stored == TokenText(hmac, user.username, iat, exp);
    SubstringIsChecked(hmac, user.username, iat, exp, token, now);
  }

  /** A token accepted by a store in order is attributed to the user its payload names, and no other user holds it. */
  lemma OwnedTokenNamesUser(hmac: Hmac, users: seq<UserData>, token: bytes, now: int)
    requires Owned(hmac, users) && Answer(hmac, users, token, now) == Accepted
    ensures var i := HolderIndex(users, token);
      && i < |users| && DecodeToken(token).Ok?
      && Find(DecodeToken(token).value.payloadClaims, USERNAME) == Some(Str(users[i].username))
      && forall k :: 0 <= k < |users| && Holds(users[k], token) ==> k == i
  {
    var i := HolderIndex(users, token);
    HolderFinds(users, token);
    AcceptedIsSigned(hmac, token, now);
    HolderIsNamed(hmac, users[i], token);
    forall k | 0 <= k < |users| && Holds(users[k], token) ensures users[k].username == users[i].username {
      HolderIsNamed(hmac, users[k], token);
    }
  }

  /**
   * In every reachable state, a token that VerifyToken accepts is attributed to the user its payload names,
   * although the search only compares substrings; and no other user holds it.
   */
  lemma AcceptedTokenNamesUser(hmac: Hmac, events: seq<Event>, token: bytes, now: int)
    requires forall e :: e in events ==> Timed(e)
    requires Answer(hmac, After(hmac, events), token, now) == Accepted
    ensures var users := After(hmac, events);
      var i := HolderIndex(users, token);
      && i < |users| && DecodeToken(token).Ok?
      && Find(DecodeToken(token).value.payloadClaims, USERNAME) == Some(Str(users[i].username))
      && forall k :: 0 <= k < |users| && Holds(users[k], token) ==> k == i
  {
    RunKeepsOwned(hmac, events);
    OwnedTokenNamesUser(hmac, After(hmac, events), token, now);
  }

  /** An accepted token that a user holds is one the user keeps. */
  lemma HeldIsKept(hmac: Hmac, user: UserData, token: bytes, now: int)
    requires TokensOwned(hmac, user) && Holds(user, token) && Checked(hmac, token, now) == Accepted
    ensures token in user.tokens
  {
    var j :| 0 <= j < |user.tokens| && Finds(user.tokens[j], token);
    var stored := user.tokens[j];
    assert IsTokenOf(hmac, stored, user.username);
    var iat, exp :| Second(iat) && Second(exp) && stored == TokenText(hmac, user.username, iat, exp);
    AcceptedIsStored(hmac, user.username, iat, exp, token, now);
  }

  /** A reachable store accepts only the tokens it keeps, and only from the user who keeps them. */
  lemma AcceptedTokenIsKept(hmac: Hmac, events: seq<Event>, token: bytes, now: int)
    requires forall e :: e in events ==> Timed(e)
    requires Answer(hmac, After(hmac, events), token, now) == Accepted
    ensures var users := After(hmac, events);
      KeeperIndex(users, token) == HolderIndex(users, token) < |users|
  {
    var users := After(hmac, events);
    RunKeepsOwned(hmac, events);
    OwnedAcceptedIsKept(hmac, users, token, now);
  }

  lemma OwnedAcceptedIsKept(hmac: Hmac, users: seq<UserData>, token: bytes, now: int)
    requires Owned(hmac, users) && Answer(hmac, users, token, now) == Accepted
    ensures KeeperIndex(users, token) == HolderIndex(users, token) < |users|
  {
    var i := HolderIndex(users, token);
    OwnedTokenNamesUser(hmac, users, token, now);
    HolderFinds(users, token);
    HeldIsKept(hmac, users[i], token, now);
    forall k | 0 <= k < i ensures token !in users[k].tokens {
      if token in users[k].tokens {
        KeeperHolds(users[k], token);
      }
    }
    KeeperIs(users, token, i);
  }

  /** The minute of a token given by a login, cut to whole seconds. */
  predicate InLifetime(e: Event, now: int) {
    e.Login? && Within(IssuedSecond(e.issued), ExpirySecond(e.now), now)
  }

  /** A token that a user keeps after a run was given to that user by a login of the run. */
  lemma KeptWasGiven(hmac: Hmac, events: seq<Event>, i: nat, token: bytes) returns (k: nat)
    requires i < |After(hmac, events)| && token in After(hmac, events)[i].tokens
    ensures LoginAt(hmac, events, k, i, token)
  {
    AfterSame(hmac, events);
    CopiesConserved(hmac, events, i, token);
    k := GivenByLogin(hmac, events, i, token);
  }

  lemma CreditedAlike(user: UserData, initial: UserData, username: bytes, password: bytes)
    requires user.(tokens := []) == initial.(tokens := []) && Credited(initial, username, password)
    ensures Credited(user, username, password)
  {
    assert user.(tokens := []).username == user.username && user.(tokens := []).password == user.password;
  }

  lemma LoginCredits(hmac: Hmac, events: seq<Event>, k: nat, i: nat, token: bytes)
    requires LoginAt(hmac, events, k, i, token) && i < |After(hmac, events)|
    ensures Credited(After(hmac, events)[i], events[k].username, events[k].password)
  {
    LoginAtCredits(hmac, events, k, i, token);
    AfterSame(hmac, events);
    CreditedAlike(After(hmac, events)[i], InitialUsers()[i], events[k].username, events[k].password);
  }

  lemma LifetimeOfGiven(hmac: Hmac, e: Event, token: bytes, now: int)
    requires IsGiven(hmac, e, token) && Timed(e) && Checked(hmac, token, now) == Accepted
    ensures InLifetime(e, now)
  {
    TokenWindow(hmac, e.username, IssuedSecond(e.issued), ExpirySecond(e.now), now);
  }

  lemma KeptLogin(hmac: Hmac, events: seq<Event>, i: nat, token: bytes) returns (k: nat)
    requires i < |After(hmac, events)| && token in After(hmac, events)[i].tokens
    ensures LoginAt(hmac, events, k, i, token) && IsGiven(hmac, events[k], token)
    ensures Credited(After(hmac, events)[i], events[k].username, events[k].password)
  {
    k := KeptWasGiven(hmac, events, i, token);
    LoginAtCredits(hmac, events, k, i, token);
    LoginCredits(hmac, events, k, i, token);
  }

  /**
   * A reachable store accepts a token only if some login of the run, with the name and password of the user the token
   * is attributed to, was answered with it, and only in the minute that login started.
   */
  lemma AcceptedTokenWasGiven(hmac: Hmac, events: seq<Event>, token: bytes, now: int) returns (i: nat, k: nat)
    requires forall e :: e in events ==> Timed(e)
    requires Answer(hmac, After(hmac, events), token, now) == Accepted
    ensures i == HolderIndex(After(hmac, events), token) < |After(hmac, events)|
    ensures LoginAt(hmac, events, k, i, token) && InLifetime(events[k], now)
    ensures Credited(After(hmac, events)[i], events[k].username, events[k].password)
  {
    i := HolderIndex(After(hmac, events), token);
    AcceptedTokenIsKept(hmac, events, token, now);
    KeeperFinds(After(hmac, events), token);
    k := KeptLogin(hmac, events, i, token);
    LifetimeOfGiven(hmac, events[k], token, now);
  }

  lemma KeeperHolds(user: UserData, token: bytes)
    requires token in user.tokens
    ensures Holds(user, token)
  {
    FindsItself(token);
    var j :| 0 <= j < |user.tokens| && user.tokens[j] == token;
    assert Finds(user.tokens[j], token);
  }

  lemma FindsItself(t: bytes)
    ensures Finds(t, t)
  {
    assert t[..|t|] == t;
  }

  // ----- logging out -----

  /** How many stored tokens are exactly this one, or contain it. */
  function CountHolding(tokens: seq<bytes>, token: bytes): nat {
    if tokens == [] then 0 else CountHolding(tokens[1..], token) + if Finds(tokens[0], token) then 1 else 0
  }

  function TotalHolding(users: seq<UserData>, token: bytes): nat {
    if users == [] then 0 else CountHolding(users[0].tokens, token) + TotalHolding(users[1..], token)
  }

  lemma {:induction false} CountConcat(a: seq<bytes>, b: seq<bytes>, token: bytes)
    ensures CountHolding(a + b, token) == CountHolding(a, token) + CountHolding(b, token)
  {
    if a == [] {
      assert a + b == b;
    } else {
      assert (a + b)[1..] == a[1..] + b;
      CountConcat(a[1..], b, token);
    }
  }

  lemma WithoutCounts(tokens: seq<bytes>, token: bytes)
    ensures CountHolding(Without(tokens, token), token)
         == CountHolding(tokens, token) - if token in tokens then 1 else 0
  {
    var j := TokenIndex(tokens, token);
    TokenFinds(tokens, token);
    if j < |tokens| {
      FindsItself(token);
      assert tokens == tokens[..j] + (tokens[j..j + 1] + tokens[j + 1..]);
      CountConcat(tokens[..j], tokens[j..j + 1] + tokens[j + 1..], token);
      CountConcat(tokens[j..j + 1], tokens[j + 1..], token);
      CountConcat(tokens[..j], tokens[j + 1..], token);
      assert CountHolding(tokens[j..j + 1], token) == 1;
    }
  }

  lemma {:induction false} TotalUpdate(users: seq<UserData>, i: nat, u: UserData, token: bytes)
    requires i < |users|
    ensures TotalHolding(users[i := u], token)
         == TotalHolding(users, token) - CountHolding(users[i].tokens, token) + CountHolding(u.tokens, token)
  {
    if i > 0 {
      assert users[i := u][1..] == users[1..][i - 1 := u];
      TotalUpdate(users[1..], i - 1, u, token);
    } else {
      assert users[i := u][1..] == users[1..];
    }
  }

  lemma {:induction false} CountIsHolds(tokens: seq<bytes>, token: bytes)
    ensures CountHolding(tokens, token) > 0 <==> exists j :: 0 <= j < |tokens| && Finds(tokens[j], token)
  {
    if tokens != [] {
      CountIsHolds(tokens[1..], token);
      assert forall j :: 0 <= j < |tokens| - 1 ==> tokens[1..][j] == tokens[j + 1];
      assert forall j :: 1 <= j < |tokens| ==> tokens[1..][j - 1] == tokens[j];
    }
  }

  lemma {:induction false} TotalIsHeld(users: seq<UserData>, token: bytes)
    ensures TotalHolding(users, token) > 0 <==> exists i :: 0 <= i < |users| && Holds(users[i], token)
  {
    if users != [] {
      CountIsHolds(users[0].tokens, token);
      TotalIsHeld(users[1..], token);
      assert forall i :: 0 <= i < |users| - 1 ==> users[1..][i] == users[i + 1];
      assert forall i :: 1 <= i < |users| ==> users[1..][i - 1] == users[i];
    }
  }

  /** Logging out takes away exactly one stored token, and only an equal one. */
  lemma LogoutRemovesOne(users: seq<UserData>, token: bytes)
    ensures TotalHolding(Disproved(users, token), token)
         == TotalHolding(users, token) - if KeeperIndex(users, token) < |users| then 1 else 0
  {
    var i := KeeperIndex(users, token);
    KeeperFinds(users, token);
    if i < |users| {
      WithoutCounts(users[i].tokens, token);
      TotalUpdate(users, i, users[i].(tokens := Without(users[i].tokens, token)), token);
    }
  }

  /** A token is unknown after a logout exactly when at most the removed token contained it. */
  lemma LogoutEndsSession(users: seq<UserData>, token: bytes)
    ensures HolderIndex(Disproved(users, token), token) == |users|
      <==> TotalHolding(users, token) == if KeeperIndex(users, token) < |users| then 1 else 0
  {
    LogoutRemovesOne(users, token);
    TotalIsHeld(Disproved(users, token), token);
    HolderFinds(Disproved(users, token), token);
  }

  lemma AfterLogout(hmac: Hmac, events: seq<Event>, token: bytes)
    ensures After(hmac, events + [Logout(token)]) == Disproved(After(hmac, events), token)
  {
    assert (events + [Logout(token)])[..|events|] == events;
  }

  /**
   * In every reachable state, an accepted token is still accepted after a logout exactly when its user keeps it twice,
   * that is, when the logins of the run have given it at least twice more than it was taken away.
   */
  lemma SessionSurvivesLogout(hmac: Hmac, events: seq<Event>, token: bytes, now: int)
    requires forall e :: e in events ==> Timed(e)
    requires Answer(hmac, After(hmac, events), token, now) == Accepted
    ensures var i := HolderIndex(After(hmac, events), token);
      (Answer(hmac, After(hmac, events + [Logout(token)]), token, now) == Accepted)
        <==> (Given(hmac, events, i, token) >= Taken(hmac, events, i, token) + 2)
  {
    var users := After(hmac, events);
    RunKeepsOwned(hmac, events);
    AcceptedTokenIsKept(hmac, events, token, now);
    AfterSame(hmac, events);
    CopiesConserved(hmac, events, HolderIndex(users, token), token);
    AfterLogout(hmac, events, token);
    CopiesAfterLogout(hmac, users, token, now);
  }

  lemma CopiesAfterLogout(hmac: Hmac, users: seq<UserData>, token: bytes, now: int)
    requires Owned(hmac, users) && Answer(hmac, users, token, now) == Accepted
    requires KeeperIndex(users, token) == HolderIndex(users, token) < |users|
    ensures Answer(hmac, Disproved(users, token), token, now) == Accepted
      <==> Copies(users[HolderIndex(users, token)], token) >= 2
  {
    var i := HolderIndex(users, token);
    var left := Disproved(users, token);
    DisprovedCopies(users, token, i, token);
    DisprovedOwned(hmac, users, token);
    if Copies(users[i], token) >= 2 {
      assert token in left[i].tokens;
      KeeperHolds(left[i], token);
      HolderFinds(left, token);
    } else if Answer(hmac, left, token, now) == Accepted {
      OwnedAcceptedIsKept(hmac, left, token, now);
      KeeperFinds(left, token);
      var k := KeeperIndex(left, token);
      KeeperHolds(users[k], token);
      OwnedTokenNamesUser(hmac, users, token, now);
      assert false;
    }
  }

  /** A user who keeps a token twice still holds it after one logout. */
  lemma LogoutKeepsDuplicate(users: seq<UserData>, i: nat, token: bytes)
    requires i < |users| && users[i].tokens == [token, token] && forall k :: 0 <= k < i ==> users[k].tokens == []
    ensures HolderIndex(Disproved(users, token), token) == i
  {
    KeeperIs(users, token, i);
    TokenIs([token, token], token, 0);
    var out := Disproved(users, token);
    assert out[i].tokens == [token];
    FindsItself(token);
    assert Finds(out[i].tokens[0], token);
    HolderIs(out, token, i);
  }

  lemma SecondUserLogsIn(hmac: Hmac, users: seq<UserData>, now: nat)
    requires |users| == 2 && users[0].username == Ascii("admin")
    requires users[1].username == Ascii("user") && users[1].password == Ascii("456")
    ensures LoggedIn(hmac, users, Ascii("user"), Ascii("456"), now, now)
         == WithToken(users, 1, CreatedToken(hmac, Ascii("user"), now, now))
  {
    assert |users[0].username| == 5 && |Ascii("user")| == 4;
    LoginIs(users, Ascii("user"), Ascii("456"), 1);
  }

  /** Two logins within the same seconds make equal tokens, and one logout does not end the session. */
  lemma LogoutAfterTwoLogins(hmac: Hmac, now: nat, later: int)
    requires Instant(now, now) && now <= later <= now + MINUTE - NANOS
    ensures var login := Login(Ascii("user"), Ascii("456"), now, now);
      var token := CreatedToken(hmac, Ascii("user"), now, now);
      Answer(hmac, After(hmac, [login, login, Logout(token)]), token, later) == Accepted
  {
    var token := CreatedToken(hmac, Ascii("user"), now, now);
    var two := WithToken(WithToken(InitialUsers(), 1, token), 1, token);
    AfterTwoLogins(hmac, now, token);
    assert two[1].tokens == [token, token];
    LogoutKeepsDuplicate(two, 1, token);
    TokenWindow(hmac, Ascii("user"), IssuedSecond(now), ExpirySecond(now), later);
  }

  lemma AfterTwoLogins(hmac: Hmac, now: nat, token: bytes)
    requires Instant(now, now) && token == CreatedToken(hmac, Ascii("user"), now, now)
    ensures var login := Login(Ascii("user"), Ascii("456"), now, now);
      After(hmac, [login, login, Logout(token)])
        == Disproved(WithToken(WithToken(InitialUsers(), 1, token), 1, token), token)
  {
    var login := Login(Ascii("user"), Ascii("456"), now, now);
    SecondUserLogsIn(hmac, InitialUsers(), now);
    SecondUserLogsIn(hmac, WithToken(InitialUsers(), 1, token), now);
    ThreeEvents(hmac, login, login, Logout(token));
  }

  lemma ThreeEvents(hmac: Hmac, a: Event, b: Event, c: Event)
    ensures After(hmac, [a, b, c]) == Next(hmac, Next(hmac, Next(hmac, InitialUsers(), a), b), c)
  {
    assert [a, b, c][..2] == [a, b] && [a, b][..1] == [a] && [a][..0] == [];
    assert After(hmac, [a]) == Next(hmac, After(hmac, []), a);
    assert After(hmac, [a, b]) == Next(hmac, After(hmac, [a]), b);
  }
}
