/** What parsing and building a URL mean: from text to fields and back. */
module UrlModel {
  import opened Bytes
  import opened UrlChars
  import opened PercentCoding
  import opened UrlQuery
  import opened Ipv6Text
  import opened Ipv6Normalizer
  import opened UrlSyntax
  import opened UrlWriting
  import opened Wrappers
  import UrlPath

  const MAX_LENGTH: nat := 8000

  datatype Fields = Fields(
    scheme: bytes, user: bytes, host: bytes, ipv: IpVersion, port: bytes,
    path: bytes, query: seq<KeyVal>, fragment: bytes)

  const EMPTY: Fields := Fields([], [], [], -1, [], [], [], [])

  // ----- from parts to fields -----

  function Unescape(s: bytes): Result<bytes, UrlError> {
    match Decode(s, false) case None => Err(UrlError.BadEscape) case Some(t) => Ok(t)
  }

  /** An optional part, empty when missing. */
  function UnescapePart(p: Option<bytes>): Result<bytes, UrlError> {
    match p case None => Ok([]) case Some(t) => Unescape(t)
  }

  /** The host of a literal or name in its normal form. */
  ghost function NormalHost(ipv: IpVersion, host: bytes): Result<bytes, UrlError> {
    if ipv == 0 then Ok(Lower(host))
    else if ipv != 6 then Ok(host)
    else if !Ipv6Chars(host) then Err(BadHost)
    else if ValidIpv6(host) && PERIOD !in host then RecogniserIsGrammar(host); Ok(NormalText(host))
    else Err(UnmodelledIpv6)
  }

  ghost function HostPart(ipv: IpVersion, host: Option<bytes>): Result<bytes, UrlError> {
    match host
    case None => Ok([])
    case Some(h) => var t :- Unescape(h); NormalHost(ipv, t)
  }

  function QueryPart(q: Option<bytes>): Result<seq<KeyVal>, UrlError> {
    match q
    case None => Ok([])
    case Some(t) => match ParseQuery(t) case Ok(list) => Ok(list) case Err(e) => Err(BadQuery(e))
  }

  function OrEmpty(p: Option<bytes>): bytes {
    match p case None => [] case Some(t) => t
  }

  ghost function DecodeParts(p: Parts): Result<Fields, UrlError> {
    var user :- UnescapePart(p.user);
    var host :- HostPart(p.ipv, p.host);
    var path :- Unescape(p.path);
    var query :- QueryPart(p.query);
    var fragment :- UnescapePart(p.fragment);
    Ok(Fields(Lower(OrEmpty(p.scheme)), user, host, p.ipv, OrEmpty(p.port), UrlPath.Normalize(path), query, fragment))
  }

  /** The fields a URL text denotes. */
  ghost function ParseUrl(s: bytes): Result<Fields, UrlError> {
    if s == [] then Ok(EMPTY)
    else if |s| > MAX_LENGTH then Err(TooLong)
    else
      var parts :- CutUrl(s);
      DecodeParts(parts)
  }

  // ----- from fields to text -----

  datatype BuildError = UserWithoutHost | PortWithoutHost | ColonInFirstSegment | RelativePathWithHost | EmptyQueryKey

  const HTTP: bytes := [0x68, 0x74, 0x74, 0x70]
  const HTTPS: bytes := [0x68, 0x74, 0x74, 0x70, 0x73]
  const PORT_80: bytes := [0x38, 0x30]
  const PORT_443: bytes := [0x34, 0x34, 0x33]

  /** The port a scheme implies. */
  predicate DefaultPort(scheme: bytes, port: bytes) {
    (scheme == HTTP && port == PORT_80) || (scheme == HTTPS && port == PORT_443)
  }

  function Optional(t: bytes): Option<bytes> {
    if t == [] then None else Some(t)
  }

  function AuthorityOf(f: Fields): Option<AuthorityParts> {
    if f.host == [] then None
    else Some(AuthorityParts(
                Optional(Encode(f.user, USER_CHARS, Plain)), f.host, f.ipv,
                if DefaultPort(f.scheme, f.port) then None else Optional(f.port)))
  }

  function TailOf(f: Fields): Option<TailParts> {
    var query :- BuildQuery(f.query);
    Some(TailParts(Encode(f.path, PATH_CHARS, Plain), Optional(query),
                   Optional(Encode(f.fragment, QUERY_CHARS, Plain))))
  }

  function BuildUrl(f: Fields): Result<bytes, BuildError> {
    if f.host == [] && f.user != [] then Err(UserWithoutHost)
    else if f.host == [] && f.port != [] then Err(PortWithoutHost)
    else if f.host == [] && !ColonSafe(f.path) then Err(ColonInFirstSegment)
    else if f.host != [] && f.path != [] && f.path[0] != SLASH then Err(RelativePathWithHost)
    else match TailOf(f)
      case None => Err(EmptyQueryKey)
      case Some(tail) => Ok(UrlText(Optional(f.scheme), AuthorityOf(f), tail))
  }

  lemma EmptyBuilds()
    ensures BuildUrl(EMPTY) == Ok([])
  {
    var tail := TailParts([], None, None);
    assert TailOf(EMPTY) == Some(tail);
    assert AuthorityOf(EMPTY) == None && ColonSafe([]);
    assert TailText(tail) == [];
    assert UrlText(None, None, tail) == [];
  }

  // ----- facts about coding the parts need -----

  lemma {:induction false} EncodeIdentity(s: bytes, mask: Mask)
    requires AllChars(s, mask)
    ensures Encode(s, mask, Plain) == s
  {
    if s != [] {
      EncodeIdentity(s[1..], mask);
      assert s == [s[0]] + s[1..];
    }
  }

  lemma {:induction false} DecodeIdentity(s: bytes)
    requires PERCENT !in s
    ensures Decode(s, false) == Some(s)
  {
    if s != [] {
      DecodeIdentity(s[1..]);
      assert s == [s[0]] + s[1..];
    }
  }

  lemma {:induction false} EncodeConcat(x: bytes, y: bytes, mask: Mask)
    ensures Encode(x + y, mask, Plain) == Encode(x, mask, Plain) + Encode(y, mask, Plain)
  {
    if x == [] {
      assert x + y == y;
    } else {
      EncodeConcat(x[1..], y, mask);
      assert (x + y)[1..] == x[1..] + y;
      Assoc(EncodeByte(x[0], mask, Plain), Encode(x[1..], mask, Plain), Encode(y, mask, Plain));
    }
  }

  lemma {:induction false} EncodeKeepsOut(s: bytes, mask: Mask, c: byte)
    requires c !in s && c != PERCENT && !IsHexDigit(c)
    ensures c !in Encode(s, mask, Plain)
  {
    if s != [] {
      EncodeKeepsOut(s[1..], mask, c);
    }
  }

  /** A path cut at its first slash, in its own text and encoded. */
  lemma PathCut(p: bytes)
    ensures var k := Span(p, [SLASH]);
      var x, y := Encode(p[..k], PATH_CHARS, Plain), Encode(p[k..], PATH_CHARS, Plain);
      && Encode(p, PATH_CHARS, Plain) == x + y && SLASH !in x && (y != [] ==> y[0] == SLASH)
      && Span(x + y, [SLASH]) == |x|
  {
    var k := Span(p, [SLASH]);
    SpanStops(p, [SLASH]);
    var x, y := Encode(p[..k], PATH_CHARS, Plain), Encode(p[k..], PATH_CHARS, Plain);
    assert p == p[..k] + p[k..];
    EncodeConcat(p[..k], p[k..], PATH_CHARS);
    EncodeKeepsOut(p[..k], PATH_CHARS, SLASH);
    SpanAppend(x, y, [SLASH]);
  }

  lemma PathStart(p: bytes)
    requires p != [] && p[0] == SLASH
    ensures Encode(p, PATH_CHARS, Plain)[0] == SLASH
    ensures HasAuthority(Encode(p, PATH_CHARS, Plain)) ==> HasAuthority(p)
  {
    if |p| >= 2 {
      assert Encode(p, PATH_CHARS, Plain)
          == [SLASH] + (EncodeByte(p[1], PATH_CHARS, Plain) + Encode(p[2..], PATH_CHARS, Plain));
    }
  }

  /** The slashes and colons of a path stay where they are when it is encoded. */
  lemma PathText(p: bytes)
    ensures ColonSafe(p) ==> ColonSafe(Encode(p, PATH_CHARS, Plain))
    ensures p != [] && p[0] == SLASH ==> Encode(p, PATH_CHARS, Plain)[0] == SLASH
    ensures HasAuthority(Encode(p, PATH_CHARS, Plain)) ==> HasAuthority(p)
  {
    var k := Span(p, [SLASH]);
    var x, y := Encode(p[..k], PATH_CHARS, Plain), Encode(p[k..], PATH_CHARS, Plain);
    PathCut(p);
    assert (x + y)[..|x|] == x;
    if ColonSafe(p) {
      EncodeKeepsOut(p[..k], PATH_CHARS, COLON);
    }
    if p != [] && p[0] == SLASH {
      PathStart(p);
    }
  }
}
