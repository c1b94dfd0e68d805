/** Writing URL parts as text, and the proof that the cuts find the same parts again. */
module UrlWriting {
  import opened Bytes
  import opened UrlChars
  import opened Ipv6Text
  import opened Ipv6Normal
  import opened Ipv6Normalizer
  import opened UrlSyntax
  import opened Wrappers

  /** A part behind its marker; nothing when the part is missing. */
  function Marked(marker: byte, part: Option<bytes>): bytes {
    match part case None => [] case Some(t) => [marker] + t
  }

  function TailText(t: TailParts): bytes {
    t.path + Marked(QUESTION, t.query) + Marked(HASH, t.fragment)
  }

  /** The version as std::hex prints it: two's complement when negative. */
  function VersionText(v: IpVersion): bytes {
    HexText(if v < 0 then v + 0x1_0000_0000 else v)
  }

  /** The text between the brackets of an IP literal. */
  function LiteralText(ipv: IpVersion, host: bytes): bytes {
    if ipv == 6 then host else [LETTER_V] + VersionText(ipv) + [PERIOD] + host
  }

  function HostText(ipv: IpVersion, host: bytes): bytes {
    if ipv == 0 || ipv == 4 then host else [OPEN] + LiteralText(ipv, host) + [CLOSE]
  }

  function UserText(user: Option<bytes>): bytes {
    match user case None => [] case Some(u) => u + [AT]
  }

  function AuthorityText(a: AuthorityParts): bytes {
    UserText(a.user) + (HostText(a.ipv, a.host) + Marked(COLON, a.port))
  }

  /** Everything behind the scheme; a URL without a host has no authority. */
  function HierText(auth: Option<AuthorityParts>, tail: TailParts): bytes {
    match auth
    case None => TailText(tail)
    case Some(a) => [SLASH, SLASH] + (AuthorityText(a) + TailText(tail))
  }

  function UrlText(scheme: Option<bytes>, auth: Option<AuthorityParts>, tail: TailParts): bytes {
    match scheme
    case None => HierText(auth, tail)
    case Some(x) => x + ([COLON] + HierText(auth, tail))
  }

  // ----- well-formed parts -----

  predicate TailOk(t: TailParts) {
    AllChars(t.path, RAW_PATH_CHARS)
    && (t.query.Some? ==> AllChars(t.query.value, RAW_QUERY_CHARS))
    && (t.fragment.Some? ==> AllChars(t.fragment.value, RAW_QUERY_CHARS))
  }

  predicate HostOk(ipv: IpVersion, host: bytes) {
    if ipv == 0 then IsRegName(host) && !Ipv4Chars(host)
    else if ipv == 4 then Ipv4Chars(host)
    else if ipv == 6 then Ipv6Chars(host)
    else 0 <= ipv < 16 && AllChars(host, USER_CHARS)
  }

  predicate AuthorityOk(a: AuthorityParts) {
    (a.user.Some? ==> AllChars(a.user.value, USER_CHARS)) && HostOk(a.ipv, a.host)
    && (a.port.Some? ==> IsPort(a.port.value))
  }

  // ----- the tail -----

  lemma CharsFree(s: bytes, mask: Mask, q: bytes)
    requires AllChars(s, mask) && forall c :: c in q ==> !IsChar(c, mask)
    ensures Free(s, q)
  {
  }

  lemma CutFragmentText(f: Option<bytes>)
    requires f.Some? ==> AllChars(f.value, RAW_QUERY_CHARS)
    ensures CutFragment(Marked(HASH, f)) == Ok(f)
  {
    if f.Some? {
      assert Marked(HASH, f)[1..] == f.value;
    }
  }

  lemma CutTailPath(path: bytes, frag: Option<bytes>)
    requires AllChars(path, RAW_PATH_CHARS) && (frag.Some? ==> AllChars(frag.value, RAW_QUERY_CHARS))
    ensures CutTail(path + Marked(HASH, frag)) == Ok(TailParts(path, None, frag))
  {
    CutFragmentText(frag);
    CharsFree(path, RAW_PATH_CHARS, [QUESTION, HASH]);
    SpanAppend(path, Marked(HASH, frag), [QUESTION, HASH]);
    CutParts(path, Marked(HASH, frag));
  }

  lemma CutTailQuery(path: bytes, q: bytes, frag: Option<bytes>)
    requires AllChars(path, RAW_PATH_CHARS) && AllChars(q, RAW_QUERY_CHARS)
    requires frag.Some? ==> AllChars(frag.value, RAW_QUERY_CHARS)
    ensures CutTail(path + ([QUESTION] + (q + Marked(HASH, frag)))) == Ok(TailParts(path, Some(q), frag))
  {
    var rest := q + Marked(HASH, frag);
    CutFragmentText(frag);
    CharsFree(path, RAW_PATH_CHARS, [QUESTION, HASH]);
    SpanAppend(path, [QUESTION] + rest, [QUESTION, HASH]);
    CutParts(path, [QUESTION] + rest);
    assert (path + ([QUESTION] + rest))[|path| + 1..] == rest;
    CharsFree(q, RAW_QUERY_CHARS, [HASH]);
    SpanAppend(q, Marked(HASH, frag), [HASH]);
    CutParts(q, Marked(HASH, frag));
  }

  lemma CutTailText(t: TailParts)
    requires TailOk(t)
    ensures CutTail(TailText(t)) == Ok(t)
  {
    var frag := Marked(HASH, t.fragment);
    match t.query {
      case None =>
        assert TailText(t) == t.path + frag;
        CutTailPath(t.path, t.fragment);
      case Some(q) =>
        assert TailText(t) == t.path + ([QUESTION] + (q + frag));
        CutTailQuery(t.path, q, t.fragment);
    }
  }

  lemma CutParts(x: bytes, y: bytes)
    ensures (x + y)[..|x|] == x && (x + y)[|x|..] == y
  {
  }

  // ----- the authority -----

  lemma {:induction false} DigitRunDigits(s: bytes)
    ensures forall i :: 0 <= i < DigitRun(s) ==> IsDigit(s[i])
  {
    if s != [] && IsDigit(s[0]) {
      DigitRunDigits(s[1..]);
    }
  }

  lemma PortDigits(p: bytes)
    requires IsPort(p)
    ensures forall c :: c in p ==> IsDigit(c)
  {
    DigitRunDigits(p);
  }

  lemma CutPortText(port: Option<bytes>)
    requires port.Some? ==> IsPort(port.value)
    ensures CutPort(Marked(COLON, port)) == Ok(port)
  {
    if port.Some? {
      assert Marked(COLON, port)[1..] == port.value;
    }
  }

  lemma CutNameText(a: AuthorityParts)
    requires AuthorityOk(a) && a.user == None && (a.ipv == 0 || a.ipv == 4)
    ensures CutHost(a.host + Marked(COLON, a.port)) == Ok(a)
  {
    var h, port := a.host, Marked(COLON, a.port);
    assert AllChars(h, REG_NAME_CHARS);
    CharsFree(h, REG_NAME_CHARS, [COLON, OPEN]);
    SpanAppend(h, port, [COLON]);
    CutParts(h, port);
    CutPortText(a.port);
    assert h != [] ==> (h + port)[0] == h[0] && h[0] in h;
  }

  lemma CutLiteralText(ipv: IpVersion, host: bytes)
    requires HostOk(ipv, host) && ipv != 0 && ipv != 4
    ensures CutLiteral(LiteralText(ipv, host)) == Ok((ipv, host))
    ensures Free(LiteralText(ipv, host), [CLOSE])
  {
    var l := LiteralText(ipv, host);
    if ipv == 6 {
      assert l[0] in l;
    } else {
      HexTextShape(ipv);
      CharsFree(host, USER_CHARS, [CLOSE]);
      assert l == [LETTER_V, VersionText(ipv)[0], PERIOD] + host;
      assert l[3..] == host;
    }
  }

  lemma CutBracket(l: bytes, r: bytes, ipv: IpVersion, host: bytes, port: Option<bytes>)
    requires Free(l, [CLOSE]) && CutLiteral(l) == Ok((ipv, host)) && CutPort(r) == Ok(port)
    ensures CutHost([OPEN] + (l + ([CLOSE] + r))) == Ok(AuthorityParts(None, host, ipv, port))
  {
    var h := [OPEN] + (l + ([CLOSE] + r));
    assert h[1..] == l + ([CLOSE] + r);
    SpanAppend(l, [CLOSE] + r, [CLOSE]);
    CutParts(l, [CLOSE] + r);
    assert h[1..][|l| + 1..] == r;
  }

  lemma CutBracketText(a: AuthorityParts)
    requires AuthorityOk(a) && a.user == None && a.ipv != 0 && a.ipv != 4
    ensures CutHost(HostText(a.ipv, a.host) + Marked(COLON, a.port)) == Ok(a)
  {
    var l, port := LiteralText(a.ipv, a.host), Marked(COLON, a.port);
    CutLiteralText(a.ipv, a.host);
    CutPortText(a.port);
    CutBracket(l, port, a.ipv, a.host, a.port);
    assert HostText(a.ipv, a.host) + port == [OPEN] + (l + ([CLOSE] + port));
  }

  lemma HostFree(ipv: IpVersion, host: bytes)
    requires HostOk(ipv, host)
    ensures Free(HostText(ipv, host), [AT, SLASH, QUESTION, HASH])
  {
    assert ipv != 6 ==> AllChars(host, USER_CHARS);
    if ipv != 6 {
      CharsFree(host, USER_CHARS, [AT, SLASH, QUESTION, HASH]);
    }
    if ipv != 0 && ipv != 4 && ipv != 6 {
      HexTextShape(ipv);
    }
  }

  /** No byte of a host or port text is one of the authority's own separators. */
  lemma HostTextFree(ipv: IpVersion, host: bytes, port: Option<bytes>)
    requires HostOk(ipv, host) && (port.Some? ==> IsPort(port.value))
    ensures Free(HostText(ipv, host) + Marked(COLON, port), [AT, SLASH, QUESTION, HASH])
  {
    if port.Some? {
      PortDigits(port.value);
    }
    HostFree(ipv, host);
    FreeConcat(HostText(ipv, host), Marked(COLON, port), [AT, SLASH, QUESTION, HASH]);
  }

  lemma FreeSubset(s: bytes, p: bytes, q: bytes)
    requires Free(s, q) && forall c :: c in p ==> c in q
    ensures Free(s, p)
  {
  }

  lemma CutHostNoUser(h: bytes)
    ensures CutHost(h).Ok? ==> CutHost(h).value.user == None
  {
  }

  /** User info in front of a host text that holds no '@'. */
  lemma CutUserText(u: Option<bytes>, h: bytes)
    requires (u.Some? ==> AllChars(u.value, USER_CHARS)) && Free(h, [AT])
    ensures CutAuthority(UserText(u) + h).Ok? <==> CutHost(h).Ok?
    ensures CutHost(h).Ok? ==> CutAuthority(UserText(u) + h) == Ok(CutHost(h).value.(user := u))
  {
    CutHostNoUser(h);
    match u {
      case None =>
        assert UserText(u) + h == h && h + [] == h;
        SpanAppend(h, [], [AT]);
      case Some(t) =>
        CharsFree(t, USER_CHARS, [AT]);
        assert UserText(u) + h == t + ([AT] + h);
        SpanAppend(t, [AT] + h, [AT]);
        CutParts(t, [AT] + h);
        assert (t + ([AT] + h))[|t| + 1..] == h;
    }
  }

  lemma AuthorityFree(a: AuthorityParts)
    requires AuthorityOk(a)
    ensures Free(AuthorityText(a), [SLASH, QUESTION, HASH])
    ensures Free(HostText(a.ipv, a.host) + Marked(COLON, a.port), [AT])
  {
    var h := HostText(a.ipv, a.host) + Marked(COLON, a.port);
    HostTextFree(a.ipv, a.host, a.port);
    FreeSubset(h, [AT], [AT, SLASH, QUESTION, HASH]);
    FreeSubset(h, [SLASH, QUESTION, HASH], [AT, SLASH, QUESTION, HASH]);
    if a.user.Some? {
      CharsFree(a.user.value, USER_CHARS, [SLASH, QUESTION, HASH]);
    }
    FreeConcat(UserText(a.user), h, [SLASH, QUESTION, HASH]);
  }

  lemma CutAuthorityText(a: AuthorityParts)
    requires AuthorityOk(a)
    ensures CutAuthority(AuthorityText(a)) == Ok(a)
    ensures Free(AuthorityText(a), [SLASH, QUESTION, HASH])
  {
    AuthorityFree(a);
    if a.ipv == 0 || a.ipv == 4 {
      CutNameText(a.(user := None));
    } else {
      CutBracketText(a.(user := None));
    }
    CutUserText(a.user, HostText(a.ipv, a.host) + Marked(COLON, a.port));
  }

  // ----- the whole text -----

  /** Behind the scheme: no authority means the path must not look like one. */
  predicate HierOk(auth: Option<AuthorityParts>, tail: TailParts) {
    TailOk(tail)
    && (auth.Some? ==> AuthorityOk(auth.value) && (tail.path == [] || tail.path[0] == SLASH))
    && (auth.None? ==> !HasAuthority(tail.path))
  }

  function PartsOf(scheme: Option<bytes>, auth: Option<AuthorityParts>, tail: TailParts): Parts {
    match auth
    case None => Parts(scheme, None, None, -1, None, tail.path, tail.query, tail.fragment)
    case Some(a) => Parts(scheme, a.user, Some(a.host), a.ipv, a.port, tail.path, tail.query, tail.fragment)
  }

  lemma TailStart(t: TailParts)
    ensures t.path == [] ==> TailText(t) == [] || TailText(t)[0] == QUESTION || TailText(t)[0] == HASH
    ensures t.path != [] ==> TailText(t) != [] && TailText(t)[0] == t.path[0]
    ensures |t.path| >= 2 ==> |TailText(t)| >= 2 && TailText(t)[1] == t.path[1]
    ensures |t.path| == 1 && |TailText(t)| >= 2 ==> TailText(t)[1] == QUESTION || TailText(t)[1] == HASH
  {
  }

  lemma CutHierWith(scheme: Option<bytes>, x: bytes, t: bytes, a: AuthorityParts, tail: TailParts)
    requires Free(x, [SLASH, QUESTION, HASH]) && (t == [] || t[0] in [SLASH, QUESTION, HASH])
    requires CutAuthority(x) == Ok(a) && CutTail(t) == Ok(tail)
    ensures CutHier(scheme, [SLASH, SLASH] + (x + t)) == Ok(PartsOf(scheme, Some(a), tail))
  {
    assert ([SLASH, SLASH] + (x + t))[2..] == x + t;
    SpanAppend(x, t, [SLASH, QUESTION, HASH]);
    CutParts(x, t);
  }

  lemma CutHierWithout(scheme: Option<bytes>, tail: TailParts)
    requires HierOk(None, tail)
    ensures CutHier(scheme, TailText(tail)) == Ok(PartsOf(scheme, None, tail))
  {
    CutTailText(tail);
    TailStart(tail);
  }

  lemma CutHierText(scheme: Option<bytes>, auth: Option<AuthorityParts>, tail: TailParts)
    requires HierOk(auth, tail)
    ensures CutHier(scheme, HierText(auth, tail)) == Ok(PartsOf(scheme, auth, tail))
  {
    var t := TailText(tail);
    match auth {
      case None =>
        CutHierWithout(scheme, tail);
      case Some(a) =>
        CutTailText(tail);
        TailStart(tail);
        CutAuthorityText(a);
        CutHierWith(scheme, AuthorityText(a), t, a, tail);
    }
  }

  /** No colon before the first slash. */
  predicate ColonSafe(path: bytes) {
    Free(path[..Span(path, [SLASH])], [COLON])
  }

  lemma SchemelessStart(tail: TailParts)
    requires TailOk(tail) && ColonSafe(tail.path)
    ensures var r := TailText(tail); var p := Span(r, [COLON, SLASH, QUESTION, HASH]); p < |r| ==> r[p] != COLON
  {
    var stops := [COLON, SLASH, QUESTION, HASH];
    var path, r := tail.path, TailText(tail);
    var k := Span(path, [SLASH]);
    SpanStops(path, [SLASH]);
    TailStart(tail);
    FirstSegmentFree(path, k);
    var rest := Marked(QUESTION, tail.query) + Marked(HASH, tail.fragment);
    assert r == path + rest;
    assert r[..k] == path[..k];
    SpanUnique(r, stops, k);
  }

  lemma FirstSegmentFree(path: bytes, k: nat)
    requires AllChars(path, RAW_PATH_CHARS) && ColonSafe(path) && k == Span(path, [SLASH])
    ensures Free(path[..k], [COLON, SLASH, QUESTION, HASH])
  {
    SpanStops(path, [SLASH]);
    CharsFree(path, RAW_PATH_CHARS, [QUESTION, HASH]);
    forall c | c in path[..k] ensures c !in [COLON, SLASH, QUESTION, HASH] {
      assert c in path;
    }
  }

  lemma CutWithScheme(x: bytes, h: bytes)
    requires IsScheme(x)
    ensures CutUrl(x + ([COLON] + h)) == CutHier(Some(x), h)
  {
    SpanAppend(x, [COLON] + h, [COLON, SLASH, QUESTION, HASH]);
    CutParts(x, [COLON] + h);
    assert (x + ([COLON] + h))[|x| + 1..] == h;
  }

  lemma SchemelessHier(auth: Option<AuthorityParts>, tail: TailParts)
    requires HierOk(auth, tail) && (auth.None? ==> ColonSafe(tail.path))
    ensures CutUrl(HierText(auth, tail)) == CutHier(None, HierText(auth, tail))
  {
    if auth.None? {
      SchemelessStart(tail);
    }
  }

  /** Cutting a written URL finds the parts it was written from. */
  lemma CutUrlText(scheme: Option<bytes>, auth: Option<AuthorityParts>, tail: TailParts)
    requires HierOk(auth, tail)
    requires scheme.Some? ==> IsScheme(scheme.value)
    requires scheme.None? && auth.None? ==> ColonSafe(tail.path)
    ensures CutUrl(UrlText(scheme, auth, tail)) == Ok(PartsOf(scheme, auth, tail))
  {
    CutHierText(scheme, auth, tail);
    match scheme {
      case Some(x) => CutWithScheme(x, HierText(auth, tail));
      case None => SchemelessHier(auth, tail);
    }
  }
}
