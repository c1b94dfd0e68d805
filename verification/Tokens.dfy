/** The service's own tokens: what CreateToken puts into them and when Verify accepts them. */
module Tokens {
  import opened Bytes
  import opened Json
  import opened JsonAccepted
  import JsonGrammar
  import opened Jwt
  import opened Verifier
  import opened Wrappers

  /** "secret_string" and "BLABBER". */
  const SECRET: bytes := [0x73, 0x65, 0x63, 0x72, 0x65, 0x74, 0x5F, 0x73, 0x74, 0x72, 0x69, 0x6E, 0x67]
  const ISSUER: bytes := [0x42, 0x4C, 0x41, 0x42, 0x42, 0x45, 0x52]
  /** "HS256", "JWT" and "username". */
  const HS256: bytes := [0x48, 0x53, 0x32, 0x35, 0x36]
  const JWT: bytes := [0x4A, 0x57, 0x54]
  const USERNAME: bytes := [0x75, 0x73, 0x65, 0x72, 0x6E, 0x61, 0x6D, 0x65]

  const MINUTE: nat := 60 * NANOS

  /** HMAC-SHA256 from key and data. */
  type Hmac = (bytes, bytes) -> bytes

  function Hs256(hmac: Hmac): Algorithm {
    Algorithm(HS256, data => hmac(SECRET, data))
  }

  /** The claims of a token, in the order of their names. */
  function HeaderClaims(): seq<Member> {
    [Member(ALG, Str(HS256)), Member(TYP, Str(JWT))]
  }

  function PayloadClaims(username: bytes, iat: int, exp: int): seq<Member> {
    [Member(EXP, Int(exp)), Member(IAT, Int(iat)), Member(ISS, Str(ISSUER)), Member(USERNAME, Str(username))]
  }

  /** The token of a user, issued and expiring at the given seconds. */
  function TokenText(hmac: Hmac, username: bytes, iat: int, exp: int): bytes {
    SignedToken([Member(TYP, Str(JWT))], PayloadClaims(username, iat, exp), Hs256(hmac))
  }

  /** The token made at two clock readings, in nanoseconds. */
  function CreatedToken(hmac: Hmac, username: bytes, issued: nat, now: nat): bytes {
    TokenText(hmac, username, IssuedSecond(issued), ExpirySecond(now))
  }

  function IssuedSecond(issued: nat): int { issued / NANOS }

  function ExpirySecond(now: nat): int { (now + MINUTE) / NANOS }

  /** A second that a 64-bit count can hold. */
  predicate Second(n: int) {
    0 <= n <= MAX_INT64
  }

  /** A time in nanoseconds between two seconds. */
  predicate Within(from: int, to: int, now: int) {
    from * NANOS <= now <= to * NANOS
  }

  // ----- creation -----

  lemma KeyOrder()
    ensures Less(ALG, TYP)
    ensures Less(EXP, IAT) && Less(IAT, ISS) && Less(EXP, ISS)
    ensures Less(EXP, USERNAME) && Less(IAT, USERNAME) && Less(ISS, USERNAME)
    ensures !Less(ISS, EXP) && !Less(ISS, IAT) && !Less(IAT, EXP) && !Less(USERNAME, EXP)
    ensures !Less(USERNAME, IAT) && !Less(USERNAME, ISS) && !Less(TYP, ALG)
  {
    assert IAT[1..][0] == 0x61 && ISS[1..][0] == 0x73;
  }

  lemma PayloadSorted(username: bytes, iat: int, exp: int)
    requires Second(iat) && Second(exp)
    ensures WellFormed(Obj(PayloadClaims(username, iat, exp))) && WellFormed(Obj(HeaderClaims()))
  {
    KeyOrder();
  }

  /** Setting the claims in CreateToken's order gives them in the order of their names. */
  lemma PayloadBuilt(username: bytes, iat: int, exp: int)
    ensures var iss := JsonGrammar.Store([], ISS, Str(ISSUER));
      var issued := JsonGrammar.Store(iss, IAT, Int(iat));
      var expiring := JsonGrammar.Store(issued, EXP, Int(exp));
      JsonGrammar.Store(expiring, USERNAME, Str(username)) == PayloadClaims(username, iat, exp)
  {
    KeyOrder();
    var m1, m2, m3 := Member(ISS, Str(ISSUER)), Member(IAT, Int(iat)), Member(EXP, Int(exp));
    assert JsonGrammar.Store([m1], IAT, Int(iat)) == [m2, m1];
    assert JsonGrammar.Store([m2, m1], EXP, Int(exp)) == [m3, m2, m1];
    StoreThird(m3, m2, m1, USERNAME, Str(username));
  }

  lemma StoreThird(a: Member, b: Member, c: Member, key: bytes, v: Value)
    requires a.key != key && b.key != key && c.key != key
    requires !Less(key, a.key) && !Less(key, b.key) && !Less(key, c.key)
    ensures JsonGrammar.Store([a, b, c], key, v) == [a, b, c, Member(key, v)]
  {
    assert JsonGrammar.Store([c], key, v) == [c, Member(key, v)];
    assert [b, c][1..] == [c] && [a, b, c][1..] == [b, c];
    assert JsonGrammar.Store([b, c], key, v) == [b, c, Member(key, v)];
  }

  lemma HeaderBuilt(hmac: Hmac)
    ensures WithAlgorithm([Member(TYP, Str(JWT))], Hs256(hmac)) == HeaderClaims()
  {
    KeyOrder();
    FindNowhere([Member(TYP, Str(JWT))], ALG);
    assert JsonGrammar.Store([Member(TYP, Str(JWT))], ALG, Str(HS256)) == HeaderClaims();
  }

  /** CreateToken, given the two readings of the clock in nanoseconds. */
  method CreateToken(hmac: Hmac, username: bytes, issued: nat, now: nat) returns (token: bytes)
    requires issued <= MAX_INT64 && now + MINUTE <= MAX_INT64
    ensures token == CreatedToken(hmac, username, issued, now)
  {
    var builder := new Builder();
    builder.SetPayloadClaim(ISS, Str(ISSUER));
    builder.SetHeaderClaim(TYP, Str(JWT));
    builder.SetPayloadClaim(IAT, Int(issued / NANOS));
    builder.SetPayloadClaim(EXP, Int((now + MINUTE) / NANOS));
    builder.SetPayloadClaim(USERNAME, Str(username));
    PayloadBuilt(username, issued / NANOS, (now + MINUTE) / NANOS);
    token := builder.Sign(Hs256(hmac));
  }

  // ----- verification -----

  /** What Verify finds at a time in nanoseconds; a token that does not decode is Thrown. */
  function Checked(hmac: Hmac, token: bytes, now: int): Verdict {
    match DecodeToken(token)
    case Err(_) => Thrown
    case Ok(d) => CheckedDecoded(hmac, d, now)
  }

  function CheckedDecoded(hmac: Hmac, d: Decoded, now: int): Verdict {
    Then(SignatureVerdict(map[HS256 := Hs256(hmac).mac], d),
         Then(TimesVerdict(d.payloadClaims, now), ClaimVerdict(Str(ISSUER), d.payloadClaims, ISS)))
  }

  function TimesVerdict(payload: seq<Member>, now: int): Verdict {
    Then(TimeOf(payload, EXP, now), Then(TimeOf(payload, IAT, now), TimeOf(payload, NBF, now)))
  }

  /** A time claim without leeway. */
  function TimeOf(payload: seq<Member>, name: bytes, now: int): Verdict {
    match Find(payload, name)
    case None => Accepted
    case Some(v) => if !v.Int? then Thrown
      else if (if name == EXP then now > v.n * NANOS else now < v.n * NANOS) then Rejected(TokenExpired)
      else Accepted
  }

  ghost predicate IsServiceVerifier(hmac: Hmac, verifier: TokenVerifier)
    reads verifier
  {
    && verifier.Valid() && verifier.defaultLeeway == 0
    && verifier.algs == map[HS256 := Hs256(hmac).mac] && verifier.claims == map[ISS := Str(ISSUER)]
  }

  /** The verifier that Verify sets up. */
  method ServiceVerifier(hmac: Hmac) returns (verifier: TokenVerifier)
    ensures fresh(verifier) && IsServiceVerifier(hmac, verifier)
  {
    verifier := new TokenVerifier();
    verifier.AllowAlgorithm(Hs256(hmac));
    verifier.WithClaim(ISS, Str(ISSUER));
  }

  method VerifyDecoded(hmac: Hmac, verifier: TokenVerifier, d: Decoded, now: int) returns (v: Verdict)
    requires IsServiceVerifier(hmac, verifier) && WellFormed(Obj(d.payloadClaims))
    ensures v == CheckedDecoded(hmac, d, now)
  {
    v := verifier.Verify(d, now);
    OnlyIssuer(d, now);
    assert ISS in verifier.claims;
  }

  /** Verify. */
  method Verify(hmac: Hmac, token: bytes, now: int) returns (v: Verdict)
    ensures v == Checked(hmac, token, now)
  {
    var verifier := ServiceVerifier(hmac);
    var decoded := ReadToken(token);
    if decoded.Err? {
      return Thrown;
    }
    DecodedWellFormed(token);
    v := VerifyDecoded(hmac, verifier, decoded.value, now);
  }

  /** With the issuer as the only required claim and no leeway, the general check comes down to Checked. */
  lemma OnlyIssuer(d: Decoded, now: int)
    ensures var claims: map<bytes, Value> := map[ISS := Str(ISSUER)];
      && (forall name :: name in [EXP, IAT, NBF] ==>
            TimeVerdict(claims, 0, d.payloadClaims, name, now) == TimeOf(d.payloadClaims, name, now))
      && CheckOf(ISS, Str(ISSUER), d.payloadClaims) == ClaimVerdict(Str(ISSUER), d.payloadClaims, ISS)
  {
  }

  // ----- end to end -----

  lemma FindInPayload(username: bytes, iat: int, exp: int)
    ensures var p := PayloadClaims(username, iat, exp);
      && Find(p, EXP) == Some(Int(exp)) && Find(p, IAT) == Some(Int(iat)) && Find(p, NBF) == None
      && Find(p, ISS) == Some(Str(ISSUER)) && Find(p, USERNAME) == Some(Str(username))
  {
    var p := PayloadClaims(username, iat, exp);
    FindAt(p, EXP, 0);
    FindAt(p, IAT, 1);
    FindAt(p, ISS, 2);
    FindAt(p, USERNAME, 3);
    assert NBF[0] == 0x6E;
    FindNowhere(p, NBF);
  }

  lemma ClaimsFit(username: bytes, iat: int, exp: int)
    ensures Fits(Obj(PayloadClaims(username, iat, exp)), JsonGrammar.MAX_DEPTH)
    ensures Fits(Obj(HeaderClaims()), JsonGrammar.MAX_DEPTH)
  {
  }

  /** Decoding a token recovers its header, its claims and the MAC over its first two parts. */
  lemma TokenDecodes(hmac: Hmac, username: bytes, iat: int, exp: int)
    requires Second(iat) && Second(exp)
    ensures DecodeToken(TokenText(hmac, username, iat, exp)).Ok?
    ensures var d := DecodeToken(TokenText(hmac, username, iat, exp)).value;
      && d.headerClaims == HeaderClaims() && d.payloadClaims == PayloadClaims(username, iat, exp)
      && d.signature == hmac(SECRET, d.headerText + [PERIOD] + d.payloadText)
  {
    HeaderBuilt(hmac);
    PayloadSorted(username, iat, exp);
    ClaimsFit(username, iat, exp);
    assert WellFormed(Obj([Member(TYP, Str(JWT))]));
    DecodeFitting([Member(TYP, Str(JWT))], PayloadClaims(username, iat, exp), Hs256(hmac), HeaderClaims());
  }

  /** A token is accepted exactly from its issuing second to its expiry second, for every user name. */
  lemma TokenWindow(hmac: Hmac, username: bytes, iat: int, exp: int, now: int)
    requires Second(iat) && Second(exp)
    ensures Checked(hmac, TokenText(hmac, username, iat, exp), now)
         == if Within(iat, exp, now) then Accepted else Rejected(TokenExpired)
  {
    TokenDecodes(hmac, username, iat, exp);
    DecodedWindow(hmac, DecodeToken(TokenText(hmac, username, iat, exp)).value, username, iat, exp, now);
  }

  lemma DecodedWindow(hmac: Hmac, d: Decoded, username: bytes, iat: int, exp: int, now: int)
    requires d.headerClaims == HeaderClaims() && d.payloadClaims == PayloadClaims(username, iat, exp)
    requires d.signature == hmac(SECRET, d.headerText + [PERIOD] + d.payloadText)
    ensures CheckedDecoded(hmac, d, now) == if Within(iat, exp, now) then Accepted else Rejected(TokenExpired)
  {
    FindInPayload(username, iat, exp);
    FindAt(HeaderClaims(), ALG, 0);
  }

  /** Only a token that carries the right MAC is accepted. */
  lemma AcceptedIsSigned(hmac: Hmac, token: bytes, now: int)
    requires Checked(hmac, token, now) == Accepted
    ensures DecodeToken(token).Ok?
    ensures var d := DecodeToken(token).value; d.signature == hmac(SECRET, d.headerText + [PERIOD] + d.payloadText)
  {
  }

  /** Equal tokens were made for the same user in the same two seconds. */
  lemma TokenIdentifies(hmac: Hmac, u: bytes, iat: int, exp: int, v: bytes, jat: int, fxp: int)
    requires Second(iat) && Second(exp) && Second(jat) && Second(fxp)
    ensures TokenText(hmac, u, iat, exp) == TokenText(hmac, v, jat, fxp) <==> u == v && iat == jat && exp == fxp
  {
    TokenDecodes(hmac, u, iat, exp);
    TokenDecodes(hmac, v, jat, fxp);
    if TokenText(hmac, u, iat, exp) == TokenText(hmac, v, jat, fxp) {
      SamePayload(u, iat, exp, v, jat, fxp);
    }
  }

  lemma SamePayload(u: bytes, iat: int, exp: int, v: bytes, jat: int, fxp: int)
    requires PayloadClaims(u, iat, exp) == PayloadClaims(v, jat, fxp)
    ensures u == v && iat == jat && exp == fxp
  {
    var p, q := PayloadClaims(u, iat, exp), PayloadClaims(v, jat, fxp);
    assert p[0] == q[0] && p[1] == q[1] && p[3] == q[3];
  }

  /** From creation to verification: the window is that of the two clock readings, cut to whole seconds. */
  method CreateAndVerify(hmac: Hmac, username: bytes, issued: nat, now: nat, later: nat)
    returns (token: bytes, v: Verdict)
    requires issued <= MAX_INT64 && now + MINUTE <= MAX_INT64
    ensures v == Accepted <==>
      issued / 1_000_000_000 * 1_000_000_000 <= later <= (now + 60_000_000_000) / 1_000_000_000 * 1_000_000_000
    ensures issued <= later <= now + 59_000_000_000 ==> v == Accepted
    ensures later > now + 60_000_000_000 ==> v == Rejected(TokenExpired)
  {
    token := CreateToken(hmac, username, issued, now);
    v := Verify(hmac, token, later);
    TokenWindow(hmac, username, issued / NANOS, (now + MINUTE) / NANOS, later);
  }
}
