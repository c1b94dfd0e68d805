/** The syntax of a URL text: how parse_url cuts it into parts before anything is decoded. */
module UrlSyntax {
  import opened Bytes
  import opened UrlChars
  import opened UrlQuery
  import opened Ipv6Text
  import opened Ipv6Normalizer
  import opened Wrappers

  const QUESTION: byte := 0x3F
  const HASH: byte := 0x23
  const AT: byte := 0x40
  const OPEN: byte := 0x5B
  const CLOSE: byte := 0x5D
  const LETTER_V: byte := 0x76

  datatype UrlError =
    | TooLong | BadScheme | BadUser | UnclosedLiteral | BadHost | BadPort | BadPath | BadFragment
    | BadEscape | BadQuery(reason: QueryError) | UnmodelledIpv6

  /** IP version of a host, 8 bits wide: 0 a name, 4 and 6 addresses, -1 none; any other value an IPvFuture literal. */
  type IpVersion = v: int | -128 <= v < 128

  /** The undecoded parts of a URL text; None for a part that is not there. */
  datatype Parts = Parts(
    scheme: Option<bytes>, user: Option<bytes>, host: Option<bytes>, ipv: IpVersion, port: Option<bytes>,
    path: bytes, query: Option<bytes>, fragment: Option<bytes>)

  datatype AuthorityParts = AuthorityParts(user: Option<bytes>, host: bytes, ipv: IpVersion, port: Option<bytes>)

  datatype TailParts = TailParts(path: bytes, query: Option<bytes>, fragment: Option<bytes>)

  // ----- the single-part checks -----

  predicate SchemeChar(c: byte) {
    IsAlnum(c) || c == 0x2B || c == 0x2D || c == 0x2E
  }

  predicate IsScheme(s: bytes) {
    s != [] && IsAlpha(s[0]) && forall c :: c in s ==> SchemeChar(c)
  }

  predicate Ipv4Chars(s: bytes) {
    7 <= |s| <= 254 && forall c :: c in s ==> c == PERIOD || IsDigit(c)
  }

  predicate IsRegName(s: bytes) {
    AllChars(s, REG_NAME_CHARS)
  }

  predicate IsPort(s: bytes) {
    s != [] && TakeUint(s, 65535) == |s|
  }

  // ----- the cuts -----

  /** Path, query and fragment. */
  function CutTail(r: bytes): Result<TailParts, UrlError> {
    var p := Span(r, [QUESTION, HASH]);
    if !AllChars(r[..p], RAW_PATH_CHARS) then Err(BadPath)
    else if p < |r| && r[p] == QUESTION then
      var rest := r[p + 1..];
      var q := Span(rest, [HASH]);
      var fragment :- CutFragment(rest[q..]);
      Ok(TailParts(r[..p], Some(rest[..q]), fragment))
    else
      var fragment :- CutFragment(r[p..]);
      Ok(TailParts(r[..p], None, fragment))
  }

  function CutFragment(r: bytes): Result<Option<bytes>, UrlError> {
    if r == [] || r[0] != HASH then Ok(None)
    else if AllChars(r[1..], RAW_QUERY_CHARS) then Ok(Some(r[1..]))
    else Err(BadFragment)
  }

  /** What follows the host inside the authority: a port behind a colon, anything else is passed over. */
  function CutPort(r: bytes): Result<Option<bytes>, UrlError> {
    if r == [] || r[0] != COLON then Ok(None)
    else if IsPort(r[1..]) then Ok(Some(r[1..]))
    else Err(BadPort)
  }

  /** The content of a bracketed literal: its version and host text. */
  function CutLiteral(l: bytes): Result<(IpVersion, bytes), UrlError> {
    if l != [] && l[0] == LETTER_V then
      if |l| >= 3 && IsHexDigit(l[1]) && l[2] == PERIOD && AllChars(l[3..], USER_CHARS)
      then Ok((HexValue(l[1]), l[3..]))
      else Err(BadHost)
    else if Ipv6Chars(l) then Ok((6, l))
    else Err(BadHost)
  }

  function NameVersion(h: bytes): Result<IpVersion, UrlError> {
    if Ipv4Chars(h) then Ok(4) else if IsRegName(h) then Ok(0) else Err(BadHost)
  }

  /** Host and port. */
  function CutHost(h: bytes): Result<AuthorityParts, UrlError> {
    if h != [] && h[0] == OPEN then
      var l := h[1..];
      var k := Span(l, [CLOSE]);
      if k == |l| then Err(UnclosedLiteral)
      else
        var (ipv, host) :- CutLiteral(l[..k]);
        var port :- CutPort(l[k + 1..]);
        Ok(AuthorityParts(None, host, ipv, port))
    else
      var k := Span(h, [COLON]);
      var ipv :- NameVersion(h[..k]);
      var port :- CutPort(h[k..]);
      Ok(AuthorityParts(None, h[..k], ipv, port))
  }

  /** User info, host and port. */
  function CutAuthority(a: bytes): Result<AuthorityParts, UrlError> {
    var k := Span(a, [AT]);
    if k == |a| then CutHost(a)
    else if !AllChars(a[..k], USER_CHARS) then Err(BadUser)
    else
      var parts :- CutHost(a[k + 1..]);
      Ok(parts.(user := Some(a[..k])))
  }

  predicate HasAuthority(r: bytes) {
    |r| >= 2 && r[0] == SLASH && r[1] == SLASH
  }

  /** Everything behind the scheme. */
  function CutHier(scheme: Option<bytes>, r: bytes): Result<Parts, UrlError> {
    if HasAuthority(r) then
      var a := r[2..];
      var k := Span(a, [SLASH, QUESTION, HASH]);
      var auth :- CutAuthority(a[..k]);
      var tail :- CutTail(a[k..]);
      Ok(Parts(scheme, auth.user, Some(auth.host), auth.ipv, auth.port, tail.path, tail.query, tail.fragment))
    else
      var tail :- CutTail(r);
      Ok(Parts(scheme, None, None, -1, None, tail.path, tail.query, tail.fragment))
  }

  /** The parts of a whole URL text. */
  function CutUrl(s: bytes): Result<Parts, UrlError> {
    var p := Span(s, [COLON, SLASH, QUESTION, HASH]);
    if p < |s| && s[p] == COLON then
      if IsScheme(s[..p]) then CutHier(Some(s[..p]), s[p + 1..]) else Err(BadScheme)
    else CutHier(None, s)
  }
}
