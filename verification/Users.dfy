/** The session store: who is logged in with which tokens. */
module Users {
  import opened Bytes
  import opened Json
  import opened TokenParts
  import opened Tokens
  import opened Verifier
  import opened Wrappers

  datatype UserData = UserData(
    isAdmin: bool, isUser: bool, firstLogin: bool, name: bytes, position: bytes,
    username: bytes, password: bytes, routes: seq<bytes>, tokens: seq<bytes>)

  /** UserData {}, what GetUserData returns for nobody. */
  const NOBODY: UserData := UserData(false, true, false, [], [], [], [], [], [])

  function InitialUsers(): seq<UserData> {
    var common := [Ascii("/api/settings"), Ascii("/api/logout"), Ascii("/api/info")];
    [UserData(true, true, false, Ascii("Ivan Ivanovich"), Ascii("Developer"), Ascii("admin"), Ascii("123"),
              common + [Ascii("/api/secret")], []),
     UserData(false, true, false, Ascii("Gosha"), Ascii("Developer"), Ascii("user"), Ascii("456"), common, [])]
  }

  // ----- searching -----

  /** The first true flag, or the number of flags. */
  function FirstTrue(flags: seq<bool>): (n: nat)
    ensures n <= |flags| && (n < |flags| ==> flags[n])
    ensures forall i :: 0 <= i < n ==> !flags[i]
  {
    if flags == [] || flags[0] then 0 else 1 + FirstTrue(flags[1..])
  }

  predicate Credited(user: UserData, username: bytes, password: bytes) {
    user.username == username && user.password == password
  }

  /** Whether some token of the user contains the given text. */
  predicate Holds(user: UserData, token: bytes) {
    exists j :: 0 <= j < |user.tokens| && Finds(user.tokens[j], token)
  }

  /** The user a login goes to: a wrong password does not end the search. */
  function LoginIndex(users: seq<UserData>, username: bytes, password: bytes): (n: nat)
    ensures n <= |users|
  {
    FirstTrue(seq(|users|, i requires 0 <= i < |users| => Credited(users[i], username, password)))
  }

  /** The user a token is attributed to. */
  function HolderIndex(users: seq<UserData>, token: bytes): (n: nat)
    ensures n <= |users|
  {
    FirstTrue(seq(|users|, i requires 0 <= i < |users| => Holds(users[i], token)))
  }

  /** The user who keeps exactly this token. */
  function KeeperIndex(users: seq<UserData>, token: bytes): (n: nat)
    ensures n <= |users|
  {
    FirstTrue(seq(|users|, i requires 0 <= i < |users| => token in users[i].tokens))
  }

  function TokenIndex(tokens: seq<bytes>, token: bytes): (n: nat)
    ensures n <= |tokens|
  {
    FirstTrue(seq(|tokens|, j requires 0 <= j < |tokens| => tokens[j] == token))
  }

  lemma {:induction false} FirstTrueIs(flags: seq<bool>, n: nat)
    requires n <= |flags| && (n < |flags| ==> flags[n]) && forall i :: 0 <= i < n ==> !flags[i]
    ensures FirstTrue(flags) == n
  {
    if n > 0 {
      FirstTrueIs(flags[1..], n - 1);
    }
  }

  lemma LoginIs(users: seq<UserData>, username: bytes, password: bytes, i: nat)
    requires i <= |users| && (i < |users| ==> Credited(users[i], username, password))
    requires forall k :: 0 <= k < i ==> !Credited(users[k], username, password)
    ensures LoginIndex(users, username, password) == i
  {
    FirstTrueIs(seq(|users|, k requires 0 <= k < |users| => Credited(users[k], username, password)), i);
  }

  lemma LoginFinds(users: seq<UserData>, username: bytes, password: bytes)
    ensures var i := LoginIndex(users, username, password); i < |users| ==> Credited(users[i], username, password)
    ensures LoginIndex(users, username, password) < |users|
      <==> exists i :: 0 <= i < |users| && Credited(users[i], username, password)
  {
    var flags := seq(|users|, k requires 0 <= k < |users| => Credited(users[k], username, password));
    assert FirstTrue(flags) < |users| ==> flags[FirstTrue(flags)];
    assert forall i :: 0 <= i < |users| ==> flags[i] == Credited(users[i], username, password);
  }

  lemma HolderIs(users: seq<UserData>, token: bytes, i: nat)
    requires i <= |users| && (i < |users| ==> Holds(users[i], token))
    requires forall k :: 0 <= k < i ==> !Holds(users[k], token)
    ensures HolderIndex(users, token) == i
  {
    FirstTrueIs(seq(|users|, k requires 0 <= k < |users| => Holds(users[k], token)), i);
  }

  lemma HolderFinds(users: seq<UserData>, token: bytes)
    ensures var i := HolderIndex(users, token); i < |users| ==> Holds(users[i], token)
    ensures HolderIndex(users, token) < |users| <==> exists i :: 0 <= i < |users| && Holds(users[i], token)
  {
    var flags := seq(|users|, k requires 0 <= k < |users| => Holds(users[k], token));
    assert FirstTrue(flags) < |users| ==> flags[FirstTrue(flags)];
    assert forall i :: 0 <= i < |users| ==> flags[i] == Holds(users[i], token);
  }

  lemma KeeperIs(users: seq<UserData>, token: bytes, i: nat)
    requires i <= |users| && (i < |users| ==> token in users[i].tokens)
    requires forall k :: 0 <= k < i ==> token !in users[k].tokens
    ensures KeeperIndex(users, token) == i
  {
    FirstTrueIs(seq(|users|, k requires 0 <= k < |users| => token in users[k].tokens), i);
  }

  lemma KeeperFinds(users: seq<UserData>, token: bytes)
    ensures var i := KeeperIndex(users, token); i < |users| ==> token in users[i].tokens
    ensures KeeperIndex(users, token) < |users| <==> exists i :: 0 <= i < |users| && token in users[i].tokens
  {
    var flags := seq(|users|, k requires 0 <= k < |users| => token in users[k].tokens);
    assert FirstTrue(flags) < |users| ==> flags[FirstTrue(flags)];
    assert forall i :: 0 <= i < |users| ==> flags[i] == (token in users[i].tokens);
  }

  lemma TokenIs(tokens: seq<bytes>, token: bytes, j: nat)
    requires j <= |tokens| && (j < |tokens| ==> tokens[j] == token)
    requires forall k :: 0 <= k < j ==> tokens[k] != token
    ensures TokenIndex(tokens, token) == j
  {
    FirstTrueIs(seq(|tokens|, k requires 0 <= k < |tokens| => tokens[k] == token), j);
  }

  lemma TokenFinds(tokens: seq<bytes>, token: bytes)
    ensures var j := TokenIndex(tokens, token);
      if token in tokens then j < |tokens| && tokens[j] == token else j == |tokens|
  {
    var flags := seq(|tokens|, k requires 0 <= k < |tokens| => tokens[k] == token);
    assert FirstTrue(flags) < |tokens| ==> flags[FirstTrue(flags)];
    assert forall j :: 0 <= j < |tokens| ==> flags[j] == (tokens[j] == token);
  }

  // ----- the steps of the store -----

  function WithToken(users: seq<UserData>, i: nat, token: bytes): seq<UserData>
    requires i < |users|
  {
    users[i := users[i].(tokens := users[i].tokens + [token])]
  }

  function Without(tokens: seq<bytes>, token: bytes): seq<bytes> {
    var j := TokenIndex(tokens, token);
    if j == |tokens| then tokens else tokens[..j] + tokens[j + 1..]
  }

  /** One occurrence of the token is taken from the first user who keeps it. */
  function Disproved(users: seq<UserData>, token: bytes): seq<UserData> {
    var i := KeeperIndex(users, token);
    if i == |users| then users else users[i := users[i].(tokens := Without(users[i].tokens, token))]
  }

  /** A login: the users after it, and the new token if the credentials are right. */
  function Authenticated(hmac: Hmac, users: seq<UserData>, username: bytes, password: bytes, issued: nat, now: nat):
    (seq<UserData>, Option<bytes>)
  {
    var i := LoginIndex(users, username, password);
    if i == |users| then (users, None)
    else
      var token := CreatedToken(hmac, username, issued, now);
      (WithToken(users, i, token), Some(token))
  }

  function LoggedIn(hmac: Hmac, users: seq<UserData>, username: bytes, password: bytes, issued: nat, now: nat):
    seq<UserData>
  {
    Authenticated(hmac, users, username, password, issued, now).0
  }

  /** VerifyToken's answer: an unknown token is refused before it is decoded. */
  function Answer(hmac: Hmac, users: seq<UserData>, token: bytes, now: int): Verdict {
    if HolderIndex(users, token) == |users| then Rejected(InvalidSignature) else Checked(hmac, token, now)
  }

  /** A refused token is disproved; an exception leaves the store alone. */
  function Verified(hmac: Hmac, users: seq<UserData>, token: bytes, now: int): seq<UserData> {
    if HolderIndex(users, token) < |users| && Checked(hmac, token, now).Rejected? then Disproved(users, token)
    else users
  }

  /** Clock readings, in nanoseconds, that a 64-bit count can hold a minute later. */
  predicate Instant(issued: nat, now: nat) {
    issued <= MAX_INT64 && now + MINUTE <= MAX_INT64
  }

  class UserStore {
    const hmac: Hmac
    var users: seq<UserData>

    constructor (h: Hmac)
      ensures hmac == h && users == InitialUsers()
    {
      hmac := h;
      users := InitialUsers();
    }

    /** AuthenticateUser, given the clock readings that CreateToken makes. */
    method AuthenticateUser(username: bytes, password: bytes, issued: nat, now: nat) returns (token: Option<bytes>)
      requires Instant(issued, now)
      modifies this
      ensures (users, token) == Authenticated(hmac, old(users), username, password, issued, now)
    {
      for i := 0 to |users|
        invariant users == old(users)
        invariant forall k :: 0 <= k < i ==> !Credited(users[k], username, password)
      {
        if users[i].username == username {
          if users[i].password == password {
            LoginIs(users, username, password, i);
            var text := CreateToken(hmac, username, issued, now);
            users := users[i := users[i].(tokens := users[i].tokens + [text])];
            return Some(text);
          }
        }
      }
      LoginIs(users, username, password, |users|);
      token := None;
    }

    /** DisproveUser. */
    method DisproveUser(token: bytes)
      modifies this
      ensures users == Disproved(old(users), token)
    {
      for i := 0 to |users|
        invariant users == old(users)
        invariant forall k :: 0 <= k < i ==> token !in users[k].tokens
      {
        var tokens := users[i].tokens;
        for j := 0 to |tokens|
          invariant users == old(users)
          invariant forall k :: 0 <= k < j ==> tokens[k] != token
        {
          if tokens[j] == token {
            TokenIs(tokens, token, j);
            KeeperIs(users, token, i);
            users := users[i := users[i].(tokens := tokens[..j] + tokens[j + 1..])];
            return;
          }
        }
      }
      KeeperIs(users, token, |users|);
    }

    /** find_if over the tokens of one user. */
    method FindToken(user: UserData, token: bytes) returns (found: bool)
      ensures found <==> Holds(user, token)
    {
      for j := 0 to |user.tokens|
        invariant forall k :: 0 <= k < j ==> !Finds(user.tokens[k], token)
      {
        if Finds(user.tokens[j], token) {
          return true;
        }
      }
      found := false;
    }

    /** TokenExist. */
    method TokenExist(token: bytes) returns (found: bool)
      ensures found <==> HolderIndex(users, token) < |users|
    {
      for i := 0 to |users|
        invariant forall k :: 0 <= k < i ==> !Holds(users[k], token)
      {
        found := FindToken(users[i], token);
        if found {
          HolderIs(users, token, i);
          return;
        }
      }
      HolderIs(users, token, |users|);
      found := false;
    }

    /** GetUserData. */
    method GetUserData(token: bytes) returns (user: UserData)
      ensures user == if HolderIndex(users, token) == |users| then NOBODY else users[HolderIndex(users, token)]
    {
      for i := 0 to |users|
        invariant forall k :: 0 <= k < i ==> !Holds(users[k], token)
      {
        var found := FindToken(users[i], token);
        if found {
          HolderIs(users, token, i);
          return users[i];
        }
      }
      HolderIs(users, token, |users|);
      user := NOBODY;
    }

    /** CheckAccess. */
    method CheckAccess(token: bytes, route: bytes) returns (allowed: bool)
      ensures allowed <==> HolderIndex(users, token) < |users| && route in users[HolderIndex(users, token)].routes
    {
      var user := GetUserData(token);
      for k := 0 to |user.routes|
        invariant forall i :: 0 <= i < k ==> user.routes[i] != route
      {
        if user.routes[k] == route {
          return true;
        }
      }
      allowed := false;
    }

    /** VerifyToken; Thrown is the exception that a token which does not decode raises. */
    method VerifyToken(token: bytes, now: int) returns (v: Verdict)
      modifies this
      ensures users == Verified(hmac, old(users), token, now)
      ensures v == Answer(hmac, old(users), token, now)
    {
      var found := TokenExist(token);
      if !found {
        return Rejected(InvalidSignature);
      }
      v := Verify(hmac, token, now);
      if v.Rejected? {
        DisproveUser(token);
      }
    }
  }
}
