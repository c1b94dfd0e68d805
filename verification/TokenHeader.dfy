/** The header every token of the service carries, and why no other end of it is a header. */
module TokenHeader {
  import opened Base64
  import opened Base64Laws
  import opened Bytes
  import opened Json
  import JsonGrammar
  import opened Jwt
  import opened TokenParts
  import opened Tokens
  import opened Wrappers

  /** {"alg":"HS256","typ":"JWT"}, in three pieces of nine bytes. */
  const JSON0: bytes := [0x7B, 0x22, 0x61, 0x6C, 0x67, 0x22, 0x3A, 0x22, 0x48]
  const JSON1: bytes := [0x53, 0x32, 0x35, 0x36, 0x22, 0x2C, 0x22, 0x74, 0x79]
  const JSON2: bytes := [0x70, 0x22, 0x3A, 0x22, 0x4A, 0x57, 0x54, 0x22, 0x7D]
  const HEADER_JSON: bytes := JSON0 + JSON1 + JSON2

  /** eyJhbGciOiJI UzI1NiIsInR5 cCI6IkpXVCJ9. */
  const DIGITS0: bytes := [0x65, 0x79, 0x4A, 0x68, 0x62, 0x47, 0x63, 0x69, 0x4F, 0x69, 0x4A, 0x49]
  const DIGITS1: bytes := [0x55, 0x7A, 0x49, 0x31, 0x4E, 0x69, 0x49, 0x73, 0x49, 0x6E, 0x52, 0x35]
  const DIGITS2: bytes := [0x63, 0x43, 0x49, 0x36, 0x49, 0x6B, 0x70, 0x58, 0x56, 0x43, 0x4A, 0x39]
  const HEADER: bytes := DIGITS0 + DIGITS1 + DIGITS2

  /** The first of the three parts of a token. */
  function HeaderPart(): bytes {
    Armor(Serialize(Obj(HeaderClaims()), false))
  }

  // ----- computing it -----

  predicate Alphanumeric(s: bytes) {
    forall i :: 0 <= i < |s| ==> IsAlnum(s[i])
  }

  lemma {:induction false} PlainChars(s: bytes)
    requires Alphanumeric(s)
    ensures CharsText(s) == s
  {
    if s != [] {
      PlainChars(s[1..]);
    }
  }

  lemma MemberText(key: bytes, s: bytes)
    requires Alphanumeric(key) && Alphanumeric(s)
    ensures Piece(Member(key, Str(s))) == [QUOTE] + key + [QUOTE, COLON, QUOTE] + s + [QUOTE]
  {
    PlainChars(key);
    PlainChars(s);
  }

  /** A member in compact form. */
  function Piece(m: Member): bytes {
    StringText(m.key) + [COLON] + Text(m.value, -1)
  }

  lemma OneMember(m: Member)
    ensures MembersText([m], -1) == Piece(m)
  {
  }

  lemma ConsMember(m: Member, rest: seq<Member>)
    requires rest != []
    ensures MembersText([m] + rest, -1) == Piece(m) + ([COMMA] + MembersText(rest, -1))
  {
    var ms := [m] + rest;
    assert ms[1..] == rest && |ms| != 1;
    assert MembersText(ms, -1)
        == [] + StringText(m.key) + [COLON] + [] + Text(m.value, -1) + ([COMMA] + MembersText(rest, -1));
    assert [] + StringText(m.key) + [COLON] + [] + Text(m.value, -1) == Piece(m);
  }

  lemma TwoMembers(a: Member, b: Member)
    ensures Serialize(Obj([a, b]), false) == [OPEN_BRACE] + (Piece(a) + ([COMMA] + Piece(b))) + [CLOSE_BRACE]
  {
    ConsMember(a, [b]);
    OneMember(b);
    assert [a] + [b] == [a, b];
  }

  lemma HeaderJson()
    ensures Serialize(Obj(HeaderClaims()), false) == HEADER_JSON
  {
    TwoMembers(Member(ALG, Str(HS256)), Member(TYP, Str(JWT)));
    NamesArePlain();
    MemberText(ALG, HS256);
    MemberText(TYP, JWT);
    HeaderPieces();
  }

  lemma NamesArePlain()
    ensures Alphanumeric(ALG) && Alphanumeric(HS256) && Alphanumeric(TYP) && Alphanumeric(JWT)
  {
  }

  lemma HeaderPieces()
    ensures [OPEN_BRACE] + (([QUOTE] + ALG + [QUOTE, COLON, QUOTE] + HS256 + [QUOTE])
        + ([COMMA] + ([QUOTE] + TYP + [QUOTE, COLON, QUOTE] + JWT + [QUOTE]))) + [CLOSE_BRACE] == HEADER_JSON
  {
  }

  lemma Triple(b0: byte, b1: byte, b2: byte, rest: bytes)
    ensures Digits([b0, b1, b2] + rest, UrlSafe) == Quad(b0, b1, b2, UrlSafe) + Digits(rest, UrlSafe)
  {
    assert ([b0, b1, b2] + rest)[3..] == rest;
  }

  /** Nine bytes are twelve digits. */
  lemma NineBytes(x: bytes, rest: bytes)
    requires |x| == 9
    ensures Digits(x + rest, UrlSafe)
         == (Quad(x[0], x[1], x[2], UrlSafe) + Quad(x[3], x[4], x[5], UrlSafe) + Quad(x[6], x[7], x[8], UrlSafe))
            + Digits(rest, UrlSafe)
  {
    var r2 := [x[6], x[7], x[8]] + rest;
    var r1 := [x[3], x[4], x[5]] + r2;
    assert x + rest == [x[0], x[1], x[2]] + r1;
    Triple(x[0], x[1], x[2], r1);
    Triple(x[3], x[4], x[5], r2);
    Triple(x[6], x[7], x[8], rest);
  }

  lemma Third0(rest: bytes)
    ensures Digits(JSON0 + rest, UrlSafe) == DIGITS0 + Digits(rest, UrlSafe)
  {
    NineBytes(JSON0, rest);
  }

  lemma Third1(rest: bytes)
    ensures Digits(JSON1 + rest, UrlSafe) == DIGITS1 + Digits(rest, UrlSafe)
  {
    NineBytes(JSON1, rest);
  }

  lemma Third2(rest: bytes)
    ensures Digits(JSON2 + rest, UrlSafe) == DIGITS2 + Digits(rest, UrlSafe)
  {
    NineBytes(JSON2, rest);
  }

  lemma HeaderDigits()
    ensures Digits(HEADER_JSON, UrlSafe) == HEADER
  {
    Third0(JSON1 + (JSON2 + []));
    Third1(JSON2 + []);
    Third2([]);
    assert HEADER_JSON == JSON0 + (JSON1 + (JSON2 + []));
    assert DIGITS0 + (DIGITS1 + (DIGITS2 + [])) == HEADER;
  }

  lemma HeaderIs()
    ensures HeaderPart() == HEADER
  {
    HeaderJson();
    PadTrim(HEADER_JSON, UrlSafe);
    HeaderDigits();
  }

  // ----- its ends -----

  /** The first byte that two digits stand for. */
  function FirstByte(c: byte, d: byte): int {
    Sextet(UrlSafe, c) * 4 + Sextet(UrlSafe, d) / 16
  }

  lemma UndigitsStart(t: bytes)
    requires |t| >= 2 && AllDigits(t, UrlSafe)
    ensures Undigits(t, UrlSafe) != [] && Undigits(t, UrlSafe)[0] == FirstByte(t[0], t[1])
  {
    assert t[0] in t && t[1] in t;
  }

  /** An object begins with an opening brace, or with white space before it. */
  lemma ObjectStart(json: bytes)
    requires ClaimsOf(json).Ok?
    ensures json != [] && (JsonGrammar.IsWs(json[0]) || json[0] == OPEN_BRACE)
  {
  }

  lemma IsDigitAt(k: nat)
    requires k < |HEADER|
    ensures Sextet(UrlSafe, HEADER[k]) >= 0
  {
  }

  lemma NoOpening(k: nat)
    requires 0 < k < 35
    ensures FirstByte(HEADER[k], HEADER[k + 1]) !in [0x20, 0x09, 0x0A, 0x0D, OPEN_BRACE as int]
  {
  }

  /** Whether the text decodes to a JSON object. */
  predicate IsHeader(t: bytes) {
    match Unarmor(t) case None => false case Some(json) => ClaimsOf(json).Ok?
  }

  lemma EndIsNoHeader(k: nat)
    requires 0 < k <= |HEADER|
    ensures !IsHeader(HEADER[k..])
  {
    var t := HEADER[k..];
    forall c | c in t ensures Sextet(UrlSafe, c) >= 0 {
      var i :| 0 <= i < |t| && t[i] == c;
      IsDigitAt(k + i);
    }
    if IsHeader(t) {
      DecodedDigits(t);
      ObjectStart(Unarmor(t).value);
      if k < 35 {
        UndigitsStart(t);
        NoOpening(k);
      }
    }
  }

  /** Of all the ends of the header, only the whole of it decodes to a JSON object. */
  lemma OnlyHeader(t: bytes)
    requires |t| <= |HeaderPart()| && t == HeaderPart()[|HeaderPart()| - |t|..] && IsHeader(t)
    ensures t == HeaderPart()
  {
    HeaderIs();
    if |t| < |HEADER| {
      EndIsNoHeader(|HEADER| - |t|);
    }
  }
}
