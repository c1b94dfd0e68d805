/** The service's tokens against RFC 7519: their exact text, and the reason each wrong token is refused with. */
module TokenStandard {
  import opened Base64
  import opened Base64Laws
  import opened Base64Tables
  import opened Bytes
  import opened Json
  import opened JsonAccepted
  import JsonGrammar
  import opened Jwt
  import opened TokenHeader
  import opened TokenParts
  import opened Tokens
  import opened Verifier
  import opened Wrappers

  // ----- the text of a token -----

  /** base64url without fill: one digit of table 2 of RFC 4648 for every six bits, and nothing behind them. */
  lemma ArmorIsTable(x: bytes)
    ensures |Armor(x)| == (8 * |x| + 5) / 6
    ensures forall j: nat :: j < |Armor(x)| ==> Armor(x)[j] == Table(UrlSafe)[SixBits(x, 6 * j)] as int
  {
    PadTrim(x, UrlSafe);
    EncodeParts(x, UrlSafe);
    forall j: nat | j < |Armor(x)| ensures Armor(x)[j] == Table(UrlSafe)[SixBits(x, 6 * j)] as int {
      DigitAt(x, UrlSafe, j);
      DigitIsTable(UrlSafe, SixBits(x, 6 * j));
    }
  }

  /** The claims of a token as JSON. */
  function PayloadJson(username: bytes, iat: int, exp: int): bytes {
    Ascii("{\"exp\":") + (IntText(exp) + (Ascii(",\"iat\":") + (IntText(iat)
    + (Ascii(",\"iss\":\"BLABBER\",\"username\":") + (StringText(username) + Ascii("}"))))))
  }

  lemma KeyedPiece(key: bytes, v: Value, t: bytes)
    requires Alphanumeric(key) && Text(v, -1) == t
    ensures Piece(Member(key, v)) == ([QUOTE] + key + [QUOTE, COLON]) + t
  {
    PlainChars(key);
  }

  lemma FirstKeys()
    ensures [OPEN_BRACE] + ([QUOTE] + EXP + [QUOTE, COLON]) == Ascii("{\"exp\":")
    ensures [COMMA] + ([QUOTE] + IAT + [QUOTE, COLON]) == Ascii(",\"iat\":")
    ensures [CLOSE_BRACE] == Ascii("}")
  {
  }

  lemma LastKeys()
    ensures ([COMMA] + ([QUOTE] + ISS + [QUOTE, COLON, QUOTE] + ISSUER + [QUOTE])) + [COMMA]
            + ([QUOTE] + USERNAME + [QUOTE, COLON])
         == Ascii(",\"iss\":\"BLABBER\",\"username\":")
  {
    assert [COMMA] + ([QUOTE] + ISS + [QUOTE, COLON, QUOTE] + ISSUER + [QUOTE]) == Ascii(",\"iss\":\"BLABBER\"");
    assert [COMMA] + ([QUOTE] + USERNAME + [QUOTE, COLON]) == Ascii(",\"username\":");
    assert Ascii(",\"iss\":\"BLABBER\"") + Ascii(",\"username\":") == Ascii(",\"iss\":\"BLABBER\",\"username\":");
    Assoc([COMMA] + ([QUOTE] + ISS + [QUOTE, COLON, QUOTE] + ISSUER + [QUOTE]), [COMMA],
          [QUOTE] + USERNAME + [QUOTE, COLON]);
  }

  lemma PiecesJoin(username: bytes, iat: int, exp: int)
    ensures var iss := [QUOTE] + ISS + [QUOTE, COLON, QUOTE] + ISSUER + [QUOTE];
      var name := ([QUOTE] + USERNAME + [QUOTE, COLON]) + StringText(username);
      var e, i := ([QUOTE] + EXP + [QUOTE, COLON]) + IntText(exp), ([QUOTE] + IAT + [QUOTE, COLON]) + IntText(iat);
      [OPEN_BRACE] + (e + ([COMMA] + (i + ([COMMA] + (iss + ([COMMA] + name)))))) + [CLOSE_BRACE]
      == PayloadJson(username, iat, exp)
  {
    FirstKeys();
    LastKeys();
    Regroup([OPEN_BRACE], [QUOTE] + EXP + [QUOTE, COLON], IntText(exp), [COMMA], [QUOTE] + IAT + [QUOTE, COLON],
            IntText(iat), [QUOTE] + ISS + [QUOTE, COLON, QUOTE] + ISSUER + [QUOTE],
            [QUOTE] + USERNAME + [QUOTE, COLON], StringText(username), [CLOSE_BRACE]);
  }

  lemma Regroup(o: bytes, ek: bytes, e: bytes, c: bytes, ik: bytes, i: bytes, iss: bytes, nk: bytes, n: bytes,
                close: bytes)
    ensures o + ((ek + e) + (c + ((ik + i) + (c + (iss + (c + (nk + n))))))) + close
         == (o + ek) + (e + ((c + ik) + (i + (((c + iss) + c + nk) + (n + close)))))
  {
  }

  lemma FourMembers(a: Member, b: Member, c: Member, d: Member)
    ensures Serialize(Obj([a, b, c, d]), false)
         == [OPEN_BRACE] + (Piece(a) + ([COMMA] + (Piece(b) + ([COMMA] + (Piece(c) + ([COMMA] + Piece(d)))))))
            + [CLOSE_BRACE]
  {
    OneMember(d);
    ConsMember(c, [d]);
    ConsMember(b, [c] + [d]);
    ConsMember(a, [b] + ([c] + [d]));
    assert [a] + ([b] + ([c] + [d])) == [a, b, c, d];
  }

  lemma KeysArePlain()
    ensures Alphanumeric(EXP) && Alphanumeric(IAT) && Alphanumeric(ISS) && Alphanumeric(ISSUER)
    ensures Alphanumeric(USERNAME)
  {
  }

  lemma PiecesAre(username: bytes, iat: int, exp: int)
    ensures Piece(Member(EXP, Int(exp))) == ([QUOTE] + EXP + [QUOTE, COLON]) + IntText(exp)
    ensures Piece(Member(IAT, Int(iat))) == ([QUOTE] + IAT + [QUOTE, COLON]) + IntText(iat)
    ensures Piece(Member(ISS, Str(ISSUER))) == [QUOTE] + ISS + [QUOTE, COLON, QUOTE] + ISSUER + [QUOTE]
    ensures Piece(Member(USERNAME, Str(username))) == ([QUOTE] + USERNAME + [QUOTE, COLON]) + StringText(username)
  {
    KeysArePlain();
    KeyedPiece(EXP, Int(exp), IntText(exp));
    KeyedPiece(IAT, Int(iat), IntText(iat));
    MemberText(ISS, ISSUER);
    KeyedPiece(USERNAME, Str(username), StringText(username));
  }

  lemma PayloadIs(username: bytes, iat: int, exp: int)
    ensures Serialize(Obj(PayloadClaims(username, iat, exp)), false) == PayloadJson(username, iat, exp)
  {
    FourMembers(Member(EXP, Int(exp)), Member(IAT, Int(iat)), Member(ISS, Str(ISSUER)),
                Member(USERNAME, Str(username)));
    PiecesAre(username, iat, exp);
    PiecesJoin(username, iat, exp);
  }

  lemma HeaderJsonIs()
    ensures HEADER_JSON == Ascii("{\"alg\":\"HS256\",\"typ\":\"JWT\"}")
  {
    assert JSON0 == Ascii("{\"alg\":\"H") && JSON1 == Ascii("S256\",\"ty") && JSON2 == Ascii("p\":\"JWT\"}");
    ThreeJoin("{\"alg\":\"H", "S256\",\"ty", "p\":\"JWT\"}");
    assert "{\"alg\":\"H" + "S256\",\"ty" + "p\":\"JWT\"}" == "{\"alg\":\"HS256\",\"typ\":\"JWT\"}";
  }

  lemma ThreeJoin(a: string, b: string, c: string)
    ensures Ascii(a) + Ascii(b) + Ascii(c) == Ascii(a + b + c)
  {
  }

  lemma KeyIs()
    ensures SECRET == Ascii("secret_string") && [PERIOD] == ['.' as int]
  {
  }

  lemma NamesAre()
    ensures ALG == Ascii("alg") && HS256 == Ascii("HS256") && ISS == Ascii("iss") && ISSUER == Ascii("BLABBER")
  {
  }

  /** A token is header, claims and MAC in base64url with dots between; the MAC covers the text of the first two. */
  lemma TokenIs(hmac: Hmac, username: bytes, iat: int, exp: int)
    ensures var data := Armor(Ascii("{\"alg\":\"HS256\",\"typ\":\"JWT\"}")) + ['.' as int]
        + Armor(PayloadJson(username, iat, exp));
      TokenText(hmac, username, iat, exp) == data + ['.' as int] + Armor(hmac(Ascii("secret_string"), data))
  {
    HeaderBuilt(hmac);
    HeaderJson();
    HeaderJsonIs();
    PayloadIs(username, iat, exp);
    KeyIs();
  }

  /** The two seconds of a token made at two clock readings in nanoseconds: issued at once, expiring after a minute. */
  lemma CreatedIs(hmac: Hmac, username: bytes, issued: nat, now: nat)
    ensures CreatedToken(hmac, username, issued, now)
         == TokenText(hmac, username, issued / 1_000_000_000, (now + 60_000_000_000) / 1_000_000_000)
  {
  }

  // ----- what is decoded at all -----

  /** Two parts without a dot and whatever follows. */
  predicate Dotted(token: bytes, p: Parts) {
    && '.' as int !in p.header && '.' as int !in p.payload
    && token == p.header + ['.' as int] + p.payload + ['.' as int] + p.signature
  }

  /** A token is cut at its first two dots, and refused for having no dots exactly when it has fewer. */
  lemma CutExactly(token: bytes, p: Parts)
    ensures Cut(token) == Some(p) <==> Dotted(token, p)
    ensures DecodeToken(token) == Err(NoDots) <==> forall q: Parts :: !Dotted(token, q)
  {
    if Cut(token).Some? {
      CutParts(token);
      assert Dotted(token, Cut(token).value);
    }
    if Dotted(token, p) {
      CutJoined(p.header, p.payload, p.signature);
    }
    forall q: Parts | Dotted(token, q) ensures Cut(token) == Some(q) {
      CutJoined(q.header, q.payload, q.signature);
    }
    DotsBefore(token);
  }

  lemma DotsBefore(token: bytes)
    ensures DecodeToken(token) == Err(NoDots) <==> Cut(token) == None
  {
  }

  /** Parts are refused for their coding before their claims, and the header's claims before the payload's. */
  lemma PartsRefused(p: Parts)
    requires DecodeParts(p).Err?
    ensures DecodeParts(p).error
         == if Unarmor(p.header).None? || Unarmor(p.payload).None? || Unarmor(p.signature).None? then BadBase64
            else if ClaimsOf(Unarmor(p.header).value).Err? then ClaimsError(Unarmor(p.header).value)
            else ClaimsError(Unarmor(p.payload).value)
  {
  }

  /** JSON that is no object is told from what is no JSON. */
  function ClaimsError(json: bytes): DecodeError {
    match JsonGrammar.Parse(json) case Err(f) => BadJson(f) case Ok(_) => NotAnObject
  }

  // ----- why a token is refused -----

  /** A token with any header, any claims and any MAC. */
  function AnyToken(header: seq<Member>, payload: seq<Member>, mac: bytes): bytes {
    SignedData(header, payload) + [PERIOD] + Armor(mac)
  }

  /** Signing adds the algorithm's name to a header that has none, and nothing to any other; then it is AnyToken's. */
  lemma SignedIs(header: seq<Member>, payload: seq<Member>, alg: Algorithm, key: bytes)
    requires SortedKeys(header)
    ensures var full := WithAlgorithm(header, alg);
      && SignedToken(header, payload, alg) == AnyToken(full, payload, alg.mac(SignedData(full, payload)))
      && SortedKeys(full)
      && Find(full, key)
      == if Find(header, key) == None && key == Ascii("alg") then Some(Str(alg.name)) else Find(header, key)
  {
    NamesAre();
    StoreIsMapUpdate(header, ALG, Str(alg.name), key);
  }

  predicate Parses(ms: seq<Member>) {
    WellFormed(Obj(ms)) && Fits(Obj(ms), JsonGrammar.MAX_DEPTH)
  }

  lemma AnyDecodes(header: seq<Member>, payload: seq<Member>, mac: bytes)
    requires Parses(header) && Parses(payload)
    ensures DecodeToken(AnyToken(header, payload, mac)).Ok?
    ensures var d := DecodeToken(AnyToken(header, payload, mac)).value;
      && d.headerClaims == header && d.payloadClaims == payload && d.signature == mac
      && d.headerText + [PERIOD] + d.payloadText == SignedData(header, payload)
  {
    DecodeArmored(Serialize(Obj(header), false), Serialize(Obj(payload), false), mac);
    ClaimsRoundTrip(header);
    ClaimsRoundTrip(payload);
  }

  /** The header names the algorithm of the service, and the MAC is the right one. */
  predicate Signed(hmac: Hmac, header: seq<Member>, payload: seq<Member>, mac: bytes) {
    && Find(header, Ascii("alg")) == Some(Str(Ascii("HS256")))
    && mac == hmac(Ascii("secret_string"), SignedData(header, payload))
  }

  /** What is wrong with a token's signature, whatever its claims say. */
  lemma UnsignedIsRefused(hmac: Hmac, header: seq<Member>, payload: seq<Member>, mac: bytes, now: int)
    requires Parses(header) && Parses(payload) && !Signed(hmac, header, payload, mac)
    ensures Checked(hmac, AnyToken(header, payload, mac), now)
         == match Find(header, Ascii("alg"))
            case Some(Str(name)) =>
              if name != Ascii("HS256") then Rejected(WrongAlgorithm) else Rejected(InvalidSignature)
            case _ => Thrown
  {
    NamesAre();
    KeyIs();
    AnyDecodes(header, payload, mac);
  }

  /** The claim of that name, if there is one, is a number of seconds of which the condition holds. */
  predicate DateMeets(payload: seq<Member>, name: string, meets: int -> bool) {
    Find(payload, Ascii(name)).Some? ==>
      Find(payload, Ascii(name)).value.Int? && meets(Find(payload, Ascii(name)).value.n)
  }

  /** All the time claims there are hold at a time in nanoseconds. */
  predicate Timely(payload: seq<Member>, now: int) {
    && DateMeets(payload, "exp", n => now <= n * 1_000_000_000)
    && DateMeets(payload, "iat", n => now >= n * 1_000_000_000)
    && DateMeets(payload, "nbf", n => now >= n * 1_000_000_000)
  }

  /** All the time claims there are are numbers. */
  predicate Dated(payload: seq<Member>) {
    DateMeets(payload, "exp", n => true) && DateMeets(payload, "iat", n => true) && DateMeets(payload, "nbf", n => true)
  }

  lemma TimeNamesAre()
    ensures EXP == Ascii("exp") && IAT == Ascii("iat") && NBF == Ascii("nbf") && EXP != IAT && EXP != NBF
  {
    assert EXP[0] != IAT[0] && EXP[0] != NBF[0];
  }

  lemma TimesAre(payload: seq<Member>, now: int)
    ensures TimesVerdict(payload, now) == Accepted <==> Timely(payload, now)
    ensures Dated(payload) ==> TimesVerdict(payload, now) in [Accepted, Rejected(TokenExpired)]
  {
    TimeNamesAre();
  }

  lemma SignedIsChecked(hmac: Hmac, header: seq<Member>, payload: seq<Member>, mac: bytes, now: int)
    requires Parses(header) && Parses(payload) && Signed(hmac, header, payload, mac)
    ensures Checked(hmac, AnyToken(header, payload, mac), now)
         == Then(TimesVerdict(payload, now), ClaimVerdict(Str(ISSUER), payload, ISS))
  {
    NamesAre();
    KeyIs();
    AnyDecodes(header, payload, mac);
  }

  lemma IssuerIs(payload: seq<Member>)
    ensures var v, iss := ClaimVerdict(Str(ISSUER), payload, ISS), Find(payload, ISS);
      && (v == Accepted <==> iss == Some(Str(ISSUER)))
      && (iss == None ==> v == Rejected(MissingClaim))
      && (iss == Some(Null) ==> v == Thrown)
      && (iss.Some? && !iss.value.Null? && !iss.value.Str? ==> v == Rejected(ClaimTypeMismatch))
      && (iss.Some? && iss.value.Str? && iss.value.s != ISSUER ==> v == Rejected(ClaimValueMismatch))
  {
  }

  /**
   * A rightly signed token is accepted exactly when its times hold and it names the issuer; one whose times are numbers
   * that do not hold has expired, and one whose times hold is refused for what its issuer is.
   */
  lemma SignedVerdict(hmac: Hmac, header: seq<Member>, payload: seq<Member>, mac: bytes, now: int)
    requires Parses(header) && Parses(payload) && Signed(hmac, header, payload, mac)
    ensures var v, iss := Checked(hmac, AnyToken(header, payload, mac), now), Find(payload, Ascii("iss"));
      && (v == Accepted <==> Timely(payload, now) && iss == Some(Str(Ascii("BLABBER"))))
      && (Dated(payload) && !Timely(payload, now) ==> v == Rejected(TokenExpired))
      && (Timely(payload, now) && iss == None ==> v == Rejected(MissingClaim))
      && (Timely(payload, now) && iss == Some(Null) ==> v == Thrown)
      && (Timely(payload, now) && iss.Some? && !iss.value.Null? && !iss.value.Str? ==> v == Rejected(ClaimTypeMismatch))
      && (Timely(payload, now) && iss.Some? && iss.value.Str? && iss.value.s != Ascii("BLABBER") ==>
            v == Rejected(ClaimValueMismatch))
  {
    NamesAre();
    IssuerIs(payload);
    SignedIsChecked(hmac, header, payload, mac, now);
    TimesAre(payload, now);
  }
}
