/** The tokens the store keeps, and what a substring of one of them can be. */
module StoredTokens {
  import opened Base64
  import opened Base64Laws
  import opened Bytes
  import opened Json
  import opened JsonAccepted
  import opened Jwt
  import opened TokenHeader
  import opened TokenParts
  import opened Tokens
  import opened Verifier
  import opened Wrappers

  /** The other parts of a user's token. */
  function PayloadPart(username: bytes, iat: int, exp: int): bytes {
    Armor(Serialize(Obj(PayloadClaims(username, iat, exp)), false))
  }

  function DataOf(username: bytes, iat: int, exp: int): bytes {
    HeaderPart() + [PERIOD] + PayloadPart(username, iat, exp)
  }

  lemma TokenIsJoined(hmac: Hmac, username: bytes, iat: int, exp: int)
    ensures TokenText(hmac, username, iat, exp)
         == Joined(HeaderPart(), PayloadPart(username, iat, exp), Armor(hmac(SECRET, DataOf(username, iat, exp))))
  {
    HeaderBuilt(hmac);
  }

  /** A substring that decodes carries the stored token's payload. */
  lemma SubstringNamesOwner(hmac: Hmac, username: bytes, iat: int, exp: int, t: bytes)
    requires Second(iat) && Second(exp) && Finds(TokenText(hmac, username, iat, exp), t) && DecodeToken(t).Ok?
    ensures DecodeToken(t).value.payloadText == PayloadPart(username, iat, exp)
    ensures Find(DecodeToken(t).value.payloadClaims, USERNAME) == Some(Str(username))
  {
    SubstringCut(hmac, username, iat, exp, t);
    PayloadSorted(username, iat, exp);
    PayloadOfPart(username, iat, exp);
    FindInPayload(username, iat, exp);
  }

  lemma PayloadOfPart(username: bytes, iat: int, exp: int)
    requires Second(iat) && Second(exp)
    ensures Unarmor(PayloadPart(username, iat, exp)) == Some(Serialize(Obj(PayloadClaims(username, iat, exp)), false))
    ensures ClaimsOf(Serialize(Obj(PayloadClaims(username, iat, exp)), false)) == Ok(PayloadClaims(username, iat, exp))
  {
    PayloadSorted(username, iat, exp);
    ClaimsFit(username, iat, exp);
    ArmorRoundTrip(Serialize(Obj(PayloadClaims(username, iat, exp)), false));
    ClaimsRoundTrip(PayloadClaims(username, iat, exp));
  }

  lemma SubstringCut(hmac: Hmac, username: bytes, iat: int, exp: int, t: bytes)
    requires Finds(TokenText(hmac, username, iat, exp), t) && Cut(t).Some?
    ensures var c := Cut(t).value;
      && t == Joined(c.header, c.payload, c.signature)
      && |c.header| <= |HeaderPart()| && c.header == HeaderPart()[|HeaderPart()| - |c.header|..]
      && c.payload == PayloadPart(username, iat, exp)
      && c.signature <= Armor(hmac(SECRET, DataOf(username, iat, exp)))
  {
    var mac := hmac(SECRET, DataOf(username, iat, exp));
    TokenIsJoined(hmac, username, iat, exp);
    ArmorIsDotFree(Serialize(Obj(HeaderClaims()), false));
    ArmorIsDotFree(Serialize(Obj(PayloadClaims(username, iat, exp)), false));
    ArmorIsDotFree(mac);
    FindsIsContains(TokenText(hmac, username, iat, exp), t);
    var i: nat :| OccursAt(TokenText(hmac, username, iat, exp), t, i);
    SubstringParts(HeaderPart(), PayloadPart(username, iat, exp), Armor(mac), t, i);
    CutParts(t);
  }

  // ----- an accepted substring is the whole token -----

  /** The signature of an accepted token is the MAC of its first two parts, and its header is a JSON object. */
  lemma AcceptedParts(hmac: Hmac, t: bytes, now: int)
    requires Checked(hmac, t, now) == Accepted
    ensures Cut(t).Some?
    ensures var c := Cut(t).value;
      && Unarmor(c.signature) == Some(hmac(SECRET, c.header + [PERIOD] + c.payload))
      && IsHeader(c.header)
  {
    AcceptedIsSigned(hmac, t, now);
    DecodedParts(t);
  }

  lemma DecodedParts(t: bytes)
    requires DecodeToken(t).Ok?
    ensures Cut(t).Some?
    ensures var c, d := Cut(t).value, DecodeToken(t).value;
      && c.header == d.headerText && c.payload == d.payloadText && Unarmor(c.signature) == Some(d.signature)
      && IsHeader(c.header)
  {
  }

  lemma HeaderOfPart()
    ensures Unarmor(HeaderPart()) == Some(Serialize(Obj(HeaderClaims()), false))
    ensures ClaimsOf(Serialize(Obj(HeaderClaims()), false)) == Ok(HeaderClaims())
  {
    PayloadSorted([], 0, 0);
    ClaimsFit([], 0, 0);
    ArmorRoundTrip(Serialize(Obj(HeaderClaims()), false));
    ClaimsRoundTrip(HeaderClaims());
  }

  /** The claims of a token that decodes are those of its parts. */
  lemma DecodedClaims(t: bytes, header: bytes, payload: bytes)
    requires DecodeToken(t).Ok? && Cut(t).Some?
    requires Unarmor(Cut(t).value.header) == Some(header) && Unarmor(Cut(t).value.payload) == Some(payload)
    ensures ClaimsOf(header) == Ok(DecodeToken(t).value.headerClaims)
    ensures ClaimsOf(payload) == Ok(DecodeToken(t).value.payloadClaims)
  {
  }

  /** A substring that decodes has the claims of the whole token, so checking it raises no exception. */
  lemma SubstringIsChecked(hmac: Hmac, username: bytes, iat: int, exp: int, t: bytes, now: int)
    requires Second(iat) && Second(exp) && Finds(TokenText(hmac, username, iat, exp), t) && DecodeToken(t).Ok?
    ensures DecodeToken(t).value.headerClaims == HeaderClaims()
    ensures DecodeToken(t).value.payloadClaims == PayloadClaims(username, iat, exp)
    ensures Checked(hmac, t, now) != Thrown
  {
    DecodedParts(t);
    SubstringCut(hmac, username, iat, exp, t);
    OnlyHeader(Cut(t).value.header);
    HeaderOfPart();
    PayloadOfPart(username, iat, exp);
    DecodedClaims(t, Serialize(Obj(HeaderClaims()), false), Serialize(Obj(PayloadClaims(username, iat, exp)), false));
    OwnClaimsChecked(hmac, DecodeToken(t).value, username, iat, exp, now);
  }

  lemma OwnClaimsChecked(hmac: Hmac, d: Decoded, username: bytes, iat: int, exp: int, now: int)
    requires d.headerClaims == HeaderClaims() && d.payloadClaims == PayloadClaims(username, iat, exp)
    ensures CheckedDecoded(hmac, d, now) != Thrown
  {
    FindInPayload(username, iat, exp);
    FindAt(HeaderClaims(), ALG, 0);
  }

  lemma SameSignature(signature: bytes, mac: bytes)
    requires signature <= Armor(mac) && Unarmor(signature) == Some(mac)
    ensures signature == Armor(mac)
  {
    ArmorRoundTrip(mac);
    PadTrim(mac, UrlSafe);
    UndigitsDigits(mac, UrlSafe);
    PrefixDecodesShorter(signature, Armor(mac));
  }

  /** The store only looks for a substring, but an accepted substring of a stored token is that token itself. */
  lemma AcceptedIsStored(hmac: Hmac, username: bytes, iat: int, exp: int, t: bytes, now: int)
    requires Finds(TokenText(hmac, username, iat, exp), t) && Checked(hmac, t, now) == Accepted
    ensures t == TokenText(hmac, username, iat, exp)
  {
    AcceptedParts(hmac, t, now);
    SubstringCut(hmac, username, iat, exp, t);
    TokenIsJoined(hmac, username, iat, exp);
    var c := Cut(t).value;
    OnlyHeader(c.header);
    SameSignature(c.signature, hmac(SECRET, DataOf(username, iat, exp)));
  }
}
