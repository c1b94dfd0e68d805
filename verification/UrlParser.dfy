/** parse_url and build_url: the position-walking parser and the writer, against their meaning. */
module UrlParser {
  import opened Bytes
  import opened UrlChars
  import opened PercentCoding
  import opened UrlQuery
  import opened Ipv6Text
  import opened Ipv6Normalizer
  import opened UrlSyntax
  import opened UrlWriting
  import opened UrlModel
  import opened Wrappers
  import UrlPath

  /** The byte a pointer at i sees: the terminating NUL at the end of the text. */
  function At(s: bytes, i: nat): byte {
    if i < |s| then s[i] else 0
  }

  /** is_scheme. */
  method CheckScheme(s: bytes, b: nat, e: nat) returns (ok: bool)
    requires b <= e <= |s|
    ensures ok <==> IsScheme(s[b..e])
  {
    if b == e || !IsAlpha(s[b]) {
      return false;
    }
    var i := b + 1;
    assert s[b..i] == [s[b]];
    while i != e
      invariant b < i <= e
      invariant forall c :: c in s[b..i] ==> SchemeChar(c)
    {
      if !IsAlnum(s[i]) && s[i] != 0x2B && s[i] != 0x2D && s[i] != 0x2E {
        assert !SchemeChar(s[i]) && s[b..e][i - b] == s[i];
        return false;
      }
      assert s[b..i + 1] == s[b..i] + [s[i]];
      i := i + 1;
    }
    ok := true;
  }

  /** is_ipv4. */
  method CheckIpv4Chars(s: bytes, b: nat, e: nat) returns (ok: bool)
    requires b <= e <= |s|
    ensures ok <==> Ipv4Chars(s[b..e])
  {
    if e - b < 7 || e - b > 254 {
      return false;
    }
    var i := b;
    while i != e
      invariant b <= i <= e
      invariant forall c :: c in s[b..i] ==> c == PERIOD || IsDigit(c)
    {
      if s[i] != PERIOD && !IsDigit(s[i]) {
        assert s[b..e][i - b] == s[i];
        return false;
      }
      assert s[b..i + 1] == s[b..i] + [s[i]];
      i := i + 1;
    }
    ok := true;
  }

  /** is_ipv6. */
  method CheckIpv6Chars(s: bytes, b: nat, e: nat) returns (ok: bool)
    requires b <= e <= |s|
    ensures ok <==> Ipv6Chars(s[b..e])
  {
    if e - b < 2 || e - b > 254 {
      return false;
    }
    var i := b;
    while i != e
      invariant b <= i <= e
      invariant forall c :: c in s[b..i] ==> c == COLON || c == PERIOD || IsHexDigit(c)
    {
      if s[i] != COLON && s[i] != PERIOD && !IsHexDigit(s[i]) {
        assert s[b..e][i - b] == s[i];
        return false;
      }
      assert s[b..i + 1] == s[b..i] + [s[i]];
      i := i + 1;
    }
    ok := true;
  }

  /** is_port. */
  method CheckPort(s: bytes, b: nat, e: nat) returns (ok: bool)
    requires b <= e <= |s|
    ensures ok <==> IsPort(s[b..e])
  {
    var t := IsUint(s, b, e, 65535);
    ok := t != b && t == e;
  }

  // ----- cutting -----

  method CutPortAt(s: bytes, b: nat, ea: nat) returns (r: Result<Option<bytes>, UrlError>)
    requires b <= ea <= |s|
    ensures r == CutPort(s[b..ea])
  {
    if b == ea || s[b] != COLON {
      return Ok(None);
    }
    var ok := CheckPort(s, b + 1, ea);
    assert s[b..ea][1..] == s[b + 1..ea];
    return if ok then Ok(Some(s[b + 1..ea])) else Err(BadPort);
  }

  /** The literal in [b, p), where s[p] is its closing bracket. */
  method CutLiteralAt(s: bytes, b: nat, p: nat) returns (r: Result<(IpVersion, bytes), UrlError>)
    requires b <= p < |s| && s[p] == CLOSE
    ensures r == CutLiteral(s[b..p])
  {
    if s[b] == LETTER_V {
      var v: IpVersion := -1;
      var i := b + 1;
      if IsHexDigit(At(s, i)) {
        v := HexValue(s[i]);
        i := i + 1;
        if IsHexDigit(At(s, i)) {
          v := HexValue(s[i]);
        }
      }
      if v == -1 || At(s, i) != PERIOD {
        return Err(BadHost);
      }
      var ok := IsChars(s, i + 1, p, USER_CHARS);
      assert s[b..p][3..] == s[i + 1..p];
      return if ok then Ok((v, s[i + 1..p])) else Err(BadHost);
    }
    var six := CheckIpv6Chars(s, b, p);
    return if six then Ok((6, s[b..p])) else Err(BadHost);
  }

  method NameVersionAt(s: bytes, b: nat, p: nat) returns (r: Result<IpVersion, UrlError>)
    requires b <= p <= |s|
    ensures r == NameVersion(s[b..p])
  {
    var four := CheckIpv4Chars(s, b, p);
    if four {
      return Ok(4);
    }
    var name := IsChars(s, b, p, REG_NAME_CHARS);
    return if name then Ok(0) else Err(BadHost);
  }

  /** Host and port put together, or the first of their errors. */
  function HostParts(host: Result<(IpVersion, bytes), UrlError>, port: Result<Option<bytes>, UrlError>):
    Result<AuthorityParts, UrlError>
  {
    match host
    case Err(e) => Err(e)
    case Ok(h) => match port case Err(e) => Err(e) case Ok(p) => Ok(AuthorityParts(None, h.1, h.0, p))
  }

  lemma HostInBrackets(h: bytes, l: bytes, k: nat,
                       host: Result<(IpVersion, bytes), UrlError>, port: Result<Option<bytes>, UrlError>)
    requires h != [] && h[0] == OPEN && l == h[1..] && k == Span(l, [CLOSE])
    requires k < |l| ==> host == CutLiteral(l[..k]) && port == CutPort(l[k + 1..])
    ensures CutHost(h) == if k == |l| then Err(UnclosedLiteral) else HostParts(host, port)
  {
  }

  lemma HostByName(h: bytes, k: nat, ipv: Result<IpVersion, UrlError>, port: Result<Option<bytes>, UrlError>)
    requires (h == [] || h[0] != OPEN) && k == Span(h, [COLON]) && ipv == NameVersion(h[..k]) && port == CutPort(h[k..])
    ensures CutHost(h) == HostParts(match ipv case Err(e) => Err(e) case Ok(v) => Ok((v, h[..k])), port)
  {
  }

  method CutBracketAt(s: bytes, b: nat, ea: nat) returns (r: Result<AuthorityParts, UrlError>)
    requires b < ea <= |s| && s[b] == OPEN && (ea == |s| || s[ea] != CLOSE)
    ensures r == CutHost(s[b..ea])
  {
    ghost var l := s[b + 1..ea];
    RangeSlices(s, b, b + 1, ea);
    var p := FindChar(s, b + 1, ea, CLOSE);
    SpanStops(l, [CLOSE]);
    if At(s, p) != CLOSE {
      HostInBrackets(s[b..ea], l, p - b - 1, Err(BadHost), Err(BadPort));
      return Err(UnclosedLiteral);
    }
    r := CutClosedAt(s, b + 1, p, ea);
    HostInBrackets(s[b..ea], l, p - b - 1, CutLiteral(l[..p - b - 1]), CutPort(l[p - b..]));
  }

  /** A literal from b to its closing bracket at p, and the port behind it. */
  method CutClosedAt(s: bytes, b: nat, p: nat, ea: nat) returns (r: Result<AuthorityParts, UrlError>)
    requires b <= p < ea <= |s| && s[p] == CLOSE
    ensures r == HostParts(CutLiteral(s[b..ea][..p - b]), CutPort(s[b..ea][p + 1 - b..]))
  {
    RangeSlices(s, b, p, ea);
    RangeSlices(s, b, p + 1, ea);
    var host := CutLiteralAt(s, b, p);
    var port := CutPortAt(s, p + 1, ea);
    r := HostParts(host, port);
  }

  method CutHostAt(s: bytes, b: nat, ea: nat) returns (r: Result<AuthorityParts, UrlError>)
    requires b <= ea <= |s| && (ea == |s| || s[ea] in [SLASH, QUESTION, HASH])
    ensures r == CutHost(s[b..ea])
  {
    if At(s, b) == OPEN {
      r := CutBracketAt(s, b, ea);
      return;
    }
    var p := FindChar(s, b, ea, COLON);
    RangeSlices(s, b, p, ea);
    var ipv := NameVersionAt(s, b, p);
    var port := CutPortAt(s, p, ea);
    HostByName(s[b..ea], p - b, ipv, port);
    r := HostParts(match ipv case Err(e) => Err(e) case Ok(v) => Ok((v, s[b..p])), port);
  }

  /** User info in front of host and port. */
  function UserAndHost(user: bytes, host: Result<AuthorityParts, UrlError>): Result<AuthorityParts, UrlError> {
    if !AllChars(user, USER_CHARS) then Err(BadUser)
    else match host case Err(e) => Err(e) case Ok(parts) => Ok(parts.(user := Some(user)))
  }

  lemma AuthorityWithUser(a: bytes, k: nat)
    requires k == Span(a, [AT]) < |a|
    ensures CutAuthority(a) == UserAndHost(a[..k], CutHost(a[k + 1..]))
  {
  }

  lemma UserAt(s: bytes, b: nat, p: nat, ea: nat)
    requires b <= p < ea <= |s| && p - b == Span(s[b..ea], [AT])
    ensures CutAuthority(s[b..ea]) == UserAndHost(s[b..p], CutHost(s[p + 1..ea]))
  {
    RangeSlicesAround(s, b, p, ea);
    AuthorityWithUser(s[b..ea], p - b);
  }

  method CutUserAt(s: bytes, b: nat, p: nat, ea: nat) returns (r: Result<AuthorityParts, UrlError>)
    requires b <= p < ea <= |s| && (ea == |s| || s[ea] in [SLASH, QUESTION, HASH])
    ensures r == UserAndHost(s[b..p], CutHost(s[p + 1..ea]))
  {
    var ok := IsChars(s, b, p, USER_CHARS);
    if !ok {
      return Err(BadUser);
    }
    var parts := CutHostAt(s, p + 1, ea);
    r := match parts case Err(e) => Err(e) case Ok(h) => Ok(h.(user := Some(s[b..p])));
  }

  method CutAuthorityAt(s: bytes, b: nat, ea: nat) returns (r: Result<AuthorityParts, UrlError>)
    requires b <= ea <= |s| && (ea == |s| || s[ea] in [SLASH, QUESTION, HASH])
    ensures r == CutAuthority(s[b..ea])
  {
    var p := FindChar(s, b, ea, AT);
    if p == ea {
      r := CutHostAt(s, b, ea);
      return;
    }
    UserAt(s, b, p, ea);
    r := CutUserAt(s, b, p, ea);
  }

  method CutFragmentAt(s: bytes, p: nat) returns (r: Result<Option<bytes>, UrlError>)
    requires p <= |s|
    ensures r == CutFragment(s[p..])
  {
    if p == |s| || s[p] != HASH {
      return Ok(None);
    }
    var ok := IsChars(s, p + 1, |s|, RAW_QUERY_CHARS);
    assert s[p..][1..] == s[p + 1..] == s[p + 1..|s|];
    return if ok then Ok(Some(s[p + 1..])) else Err(BadFragment);
  }

  /** Query and fragment behind a path. */
  function QueryTail(path: bytes, rest: bytes): Result<TailParts, UrlError> {
    var q := Span(rest, [HASH]);
    match CutFragment(rest[q..]) case Err(e) => Err(e) case Ok(f) => Ok(TailParts(path, Some(rest[..q]), f))
  }

  lemma TailWithQuery(r: bytes, p: nat)
    requires p == Span(r, [QUESTION, HASH]) < |r| && r[p] == QUESTION && AllChars(r[..p], RAW_PATH_CHARS)
    ensures CutTail(r) == QueryTail(r[..p], r[p + 1..])
  {
  }

  /** A fragment, or nothing, behind a path. */
  function PlainTail(path: bytes, rest: bytes): Result<TailParts, UrlError> {
    match CutFragment(rest) case Err(e) => Err(e) case Ok(f) => Ok(TailParts(path, None, f))
  }

  lemma TailWithoutQuery(r: bytes, p: nat)
    requires p == Span(r, [QUESTION, HASH]) && (p < |r| ==> r[p] != QUESTION) && AllChars(r[..p], RAW_PATH_CHARS)
    ensures CutTail(r) == PlainTail(r[..p], r[p..])
  {
  }

  lemma PlainTailAt(s: bytes, b: nat, p: nat)
    requires b <= p <= |s| && p - b == Span(s[b..], [QUESTION, HASH]) && (p < |s| ==> s[p] != QUESTION)
    requires AllChars(s[b..p], RAW_PATH_CHARS)
    ensures CutTail(s[b..]) == PlainTail(s[b..p], s[p..])
  {
    SuffixSlices(s, b, p);
    TailWithoutQuery(s[b..], p - b);
  }

  lemma QueryTailAt(s: bytes, b: nat, p: nat)
    requires b <= p < |s| && p - b == Span(s[b..], [QUESTION, HASH])
    requires s[p] == QUESTION && AllChars(s[b..p], RAW_PATH_CHARS)
    ensures CutTail(s[b..]) == QueryTail(s[b..p], s[p + 1..])
  {
    SuffixSlicesAround(s, b, p);
    TailWithQuery(s[b..], p - b);
  }

  lemma BadTailAt(s: bytes, b: nat, p: nat)
    requires b <= p <= |s| && p - b == Span(s[b..], [QUESTION, HASH]) && !AllChars(s[b..p], RAW_PATH_CHARS)
    ensures CutTail(s[b..]) == Err(BadPath)
  {
    SuffixSlices(s, b, p);
  }

  /** The text from b to the end cut at p, where its path ends. */
  function TailAt(s: bytes, b: nat, p: nat): Result<TailParts, UrlError>
    requires b <= p <= |s|
  {
    if !AllChars(s[b..p], RAW_PATH_CHARS) then Err(BadPath)
    else if p < |s| && s[p] == QUESTION then QueryTail(s[b..p], s[p + 1..])
    else PlainTail(s[b..p], s[p..])
  }

  lemma TailIsCut(s: bytes, b: nat, p: nat)
    requires b <= p <= |s| && p - b == Span(s[b..], [QUESTION, HASH])
    ensures CutTail(s[b..]) == TailAt(s, b, p)
  {
    if !AllChars(s[b..p], RAW_PATH_CHARS) {
      BadTailAt(s, b, p);
    } else if p < |s| && s[p] == QUESTION {
      QueryTailAt(s, b, p);
    } else {
      PlainTailAt(s, b, p);
    }
  }

  method FindPathEnd(s: bytes, b: nat) returns (p: nat)
    requires b <= |s|
    ensures b <= p <= |s| && CutTail(s[b..]) == TailAt(s, b, p)
  {
    p := FindFirstOf(s, b, |s|, [QUESTION, HASH]);
    SuffixSlices(s, b, p);
    TailIsCut(s, b, p);
  }

  method CutTailAt(s: bytes, b: nat) returns (r: Result<TailParts, UrlError>)
    requires b <= |s|
    ensures r == CutTail(s[b..])
  {
    ghost var goal := CutTail(s[b..]);
    var p := FindPathEnd(s, b);
    r := CutPathAt(s, b, p);
    assert r == goal;
  }

  method CutPathAt(s: bytes, b: nat, p: nat) returns (r: Result<TailParts, UrlError>)
    requires b <= p <= |s|
    ensures r == TailAt(s, b, p)
  {
    var ok := IsChars(s, b, p, RAW_PATH_CHARS);
    if !ok {
      return Err(BadPath);
    }
    if p == |s| || s[p] != QUESTION {
      r := CutPlainAt(s, s[b..p], p);
    } else {
      r := CutQueryAt(s, s[b..p], p + 1);
    }
  }

  /** The branch without a query, whose path ends at p. */
  method CutPlainAt(s: bytes, path: bytes, p: nat) returns (r: Result<TailParts, UrlError>)
    requires p <= |s|
    ensures r == PlainTail(path, s[p..])
  {
    var fragment := CutFragmentAt(s, p);
    r := match fragment case Err(e) => Err(e) case Ok(f) => Ok(TailParts(path, None, f));
  }

  /** The branch for a query, which starts at p. */
  method CutQueryAt(s: bytes, path: bytes, p: nat) returns (r: Result<TailParts, UrlError>)
    requires p <= |s|
    ensures r == QueryTail(path, s[p..])
  {
    var q := FindChar(s, p, |s|, HASH);
    SuffixSlices(s, p, q);
    var fragment := CutFragmentAt(s, q);
    r := match fragment case Err(e) => Err(e) case Ok(f) => Ok(TailParts(path, Some(s[p..q]), f));
  }

  /** The authority behind "//" and everything after it; b is the position behind the slashes. */
  method CutBehindSlashes(s: bytes, scheme: Option<bytes>, b: nat) returns (r: Result<Parts, UrlError>)
    requires b <= |s|
    ensures r == CutHier(scheme, [SLASH, SLASH] + s[b..])
  {
    ghost var a := s[b..];
    assert ([SLASH, SLASH] + a)[2..] == a && a == s[b..|s|];
    var ea := FindFirstOf(s, b, |s|, [SLASH, QUESTION, HASH]);
    SpanStops(a, [SLASH, QUESTION, HASH]);
    assert a[..ea - b] == s[b..ea] && a[ea - b..] == s[ea..];
    var auth :- CutAuthorityAt(s, b, ea);
    var tail :- CutTailAt(s, ea);
    return Ok(Parts(scheme, auth.user, Some(auth.host), auth.ipv, auth.port, tail.path, tail.query, tail.fragment));
  }

  method CutHierAt(s: bytes, scheme: Option<bytes>, b: nat) returns (r: Result<Parts, UrlError>)
    requires b <= |s|
    ensures r == CutHier(scheme, s[b..])
  {
    if |s| - b > 1 && s[b] == SLASH && s[b + 1] == SLASH {
      r := CutBehindSlashes(s, scheme, b + 2);
      assert s[b..] == [SLASH, SLASH] + s[b + 2..];
      return;
    }
    var tail :- CutTailAt(s, b);
    return Ok(Parts(scheme, None, None, -1, None, tail.path, tail.query, tail.fragment));
  }

  /** The first half of parse_url: scheme, authority, path, query and fragment located and checked. */
  method CutUrlAt(s: bytes) returns (r: Result<Parts, UrlError>)
    ensures r == CutUrl(s)
  {
    var p := FindFirstOf(s, 0, |s|, [COLON, SLASH, QUESTION, HASH]);
    assert s[0..|s|] == s && s[0..p] == s[..p] && s[0..] == s;
    if p != |s| && s[p] == COLON {
      var ok := CheckScheme(s, 0, p);
      if !ok {
        return Err(BadScheme);
      }
      r := CutHierAt(s, Some(s[..p]), p + 1);
      return;
    }
    r := CutHierAt(s, None, 0);
  }

  // ----- decoding -----

  /** to_lower, in a fresh string. */
  method ToLower(s: bytes) returns (o: bytes)
    ensures o == Lower(s)
  {
    o := s;
    for i := 0 to |s|
      invariant |o| == |s|
      invariant forall j :: 0 <= j < |s| ==> o[j] == if j < i then LowerByte(s[j]) else s[j]
    {
      if IsUpperAlpha(o[i]) {
        o := o[i := o[i] + 0x20];
      }
    }
  }

  method UnescapeText(p: Option<bytes>) returns (r: Result<bytes, UrlError>)
    ensures r == UnescapePart(p)
  {
    match p {
      case None => return Ok([]);
      case Some(t) =>
        var d := DecodePercent(t);
        return match d case None => Err(UrlError.BadEscape) case Some(o) => Ok(o);
    }
  }

  /** normalize_IPv6 with its own check; texts outside the model are set apart. */
  method NormalizeAddress(h: bytes) returns (r: Result<bytes, UrlError>)
    ensures r == NormalHost(6, h)
  {
    var ok := CheckIpv6Chars(h, 0, |h|);
    assert h[0..|h|] == h;
    if !ok {
      return Err(BadHost);
    }
    var valid := IsValidIpv6(h);
    if !valid || PERIOD in h {
      return Err(UnmodelledIpv6);
    }
    RecogniserIsGrammar(h);
    var n := NormalizeIpv6(h);
    return Ok(n);
  }

  method DecodeHost(p: Parts) returns (r: Result<bytes, UrlError>)
    ensures r == HostPart(p.ipv, p.host)
  {
    var h :- UnescapeText(p.host);
    if p.host.None? {
      return Ok([]);
    }
    if p.ipv == 0 {
      var o := ToLower(h);
      return Ok(o);
    }
    if p.ipv == 6 {
      r := NormalizeAddress(h);
      return;
    }
    return Ok(h);
  }

  method DecodeQuery(q: Option<bytes>) returns (r: Result<seq<KeyVal>, UrlError>)
    ensures r == QueryPart(q)
  {
    match q {
      case None => return Ok([]);
      case Some(t) =>
        var list := ReadQuery(t, 0, |t|);
        assert t[0..|t|] == t;
        return match list case Ok(es) => Ok(es) case Err(e) => Err(BadQuery(e));
    }
  }

  /** The second half of parse_url: the located parts decoded and normalised. */
  method DecodePartsOf(p: Parts) returns (r: Result<Fields, UrlError>)
    ensures r == DecodeParts(p)
  {
    var scheme := ToLower(OrEmpty(p.scheme));
    var user :- UnescapeText(p.user);
    var host :- DecodeHost(p);
    var rawPath :- UnescapeText(Some(p.path));
    var path := UrlPath.NormalizePath(rawPath);
    var query :- DecodeQuery(p.query);
    var fragment :- UnescapeText(p.fragment);
    return Ok(Fields(scheme, user, host, p.ipv, OrEmpty(p.port), path, query, fragment));
  }

  /** parse_url as a reader of text. */
  method ParseText(s: bytes) returns (r: Result<Fields, UrlError>)
    ensures r == ParseUrl(s)
  {
    if s == [] {
      return Ok(EMPTY);
    }
    if |s| > MAX_LENGTH {
      return Err(TooLong);
    }
    var parts :- CutUrlAt(s);
    r := DecodePartsOf(parts);
  }

  // ----- building -----

  method WriteVersion(v: IpVersion) returns (t: bytes)
    ensures t == VersionText(v)
  {
    t := WriteHex(if v < 0 then v + 0x1_0000_0000 else v);
  }

  /** The authority of build_url. */
  method WriteHost(ipv: IpVersion, host: bytes) returns (t: bytes)
    ensures t == HostText(ipv, host)
  {
    if ipv == 0 || ipv == 4 {
      return host;
    }
    if ipv == 6 {
      return [OPEN] + host + [CLOSE];
    }
    var v := WriteVersion(ipv);
    t := [OPEN, LETTER_V] + v + [PERIOD] + host + [CLOSE];
    assert t == [OPEN] + LiteralText(ipv, host) + [CLOSE];
  }

  method WriteUser(user: bytes) returns (t: bytes)
    ensures t == UserText(Optional(Encode(user, USER_CHARS, Plain)))
  {
    t := [];
    if user != [] {
      t := WriteEncoded(user, USER_CHARS, Plain);
      t := t + [AT];
    }
  }

  method WritePort(f: Fields) returns (t: bytes)
    requires f.host != []
    ensures t == Marked(COLON, AuthorityOf(f).value.port)
  {
    t := [];
    if f.port != [] && !DefaultPort(f.scheme, f.port) {
      t := [COLON] + f.port;
    }
  }

  lemma JoinAuthority(user: bytes, host: bytes, port: bytes)
    ensures [SLASH, SLASH] + user + host + port == [SLASH, SLASH] + (user + (host + port))
  {
  }

  method WriteAuthority(f: Fields) returns (t: bytes)
    requires f.host != []
    ensures t == [SLASH, SLASH] + AuthorityText(AuthorityOf(f).value)
  {
    var user := WriteUser(f.user);
    var host := WriteHost(f.ipv, f.host);
    var port := WritePort(f);
    t := [SLASH, SLASH] + user + host + port;
    JoinAuthority(user, host, port);
  }

  /** Path, query and fragment of build_url. */
  method WriteTail(f: Fields) returns (r: Option<bytes>)
    ensures r == match TailOf(f) case None => None case Some(tail) => Some(TailText(tail))
  {
    var path: bytes := [];
    if f.path != [] {
      path := WriteEncoded(f.path, PATH_CHARS, Plain);
    }
    var query: bytes := [];
    if f.query != [] {
      var q := WriteQuery(f.query);
      if q.None? {
        return None;
      }
      BuildQueryDefined(f.query);
      EntriesRoundTrip(f.query);
      query := [QUESTION] + q.value;
    }
    var fragment: bytes := [];
    if f.fragment != [] {
      var t := WriteEncoded(f.fragment, QUERY_CHARS, Plain);
      fragment := [HASH] + t;
    }
    return Some(path + query + fragment);
  }

  /** The start of a relative path: find_first_of(":/") must not stop at a colon. */
  method CheckFirstSegment(p: bytes) returns (ok: bool)
    ensures ok <==> ColonSafe(p)
  {
    var k := FindFirstOf(p, 0, |p|, [COLON, SLASH]);
    assert p[0..|p|] == p && p[0..k] == p[..k];
    SpanStops(p, [COLON, SLASH]);
    SpanStops(p, [SLASH]);
    ok := k == |p| || p[k] != COLON;
    var n := Span(p, [SLASH]);
    if ok {
      SpanUnique(p, [SLASH], k);
    } else {
      FirstColonFirst(p, k, n);
    }
  }

  lemma FirstColonFirst(p: bytes, k: nat, n: nat)
    requires k < |p| && p[k] == COLON && Free(p[..k], [COLON, SLASH])
    requires n <= |p| && (n < |p| ==> p[n] == SLASH)
    ensures k < n && !Free(p[..n], [COLON])
  {
    assert forall i :: 0 <= i < k ==> p[i] == p[..k][i] && p[..k][i] in p[..k];
    if k < n {
      assert p[..n][k] == COLON && p[..n][k] in p[..n];
    }
  }

  /** What build_url has written before the path. */
  function UrlHead(f: Fields): bytes {
    (if f.scheme == [] then [] else f.scheme + [COLON])
    + (if f.host == [] then [] else [SLASH, SLASH] + AuthorityText(AuthorityOf(f).value))
  }

  /** Scheme and authority of build_url, with its checks. */
  method WriteHead(f: Fields) returns (r: Result<bytes, BuildError>)
    ensures r == if f.host == [] && f.user != [] then Err(UserWithoutHost)
                 else if f.host == [] && f.port != [] then Err(PortWithoutHost)
                 else if f.host == [] && !ColonSafe(f.path) then Err(ColonInFirstSegment)
                 else Ok(UrlHead(f))
  {
    var url: bytes := [];
    if f.scheme != [] {
      url := f.scheme + [COLON];
    }
    if f.host != [] {
      var auth := WriteAuthority(f);
      return Ok(url + auth);
    }
    if f.user != [] {
      return Err(UserWithoutHost);
    }
    if f.port != [] {
      return Err(PortWithoutHost);
    }
    var ok := CheckFirstSegment(f.path);
    if !ok {
      return Err(ColonInFirstSegment);
    }
    assert url + [] == url;
    return Ok(url);
  }

  /** build_url as a writer of text. */
  method BuildText(f: Fields) returns (r: Result<bytes, BuildError>)
    ensures r == BuildUrl(f)
  {
    var url :- WriteHead(f);
    if f.path != [] && f.path[0] != SLASH && f.host != [] {
      return Err(RelativePathWithHost);
    }
    var tail := WriteTail(f);
    if tail.None? {
      return Err(EmptyQueryKey);
    }
    UrlTextIs(f, TailOf(f).value);
    return Ok(url + tail.value);
  }

  lemma UrlTextIs(f: Fields, tail: TailParts)
    ensures UrlText(Optional(f.scheme), AuthorityOf(f), tail) == UrlHead(f) + TailText(tail)
  {
    var t := TailText(tail);
    if f.host == [] {
      HeadWithoutHost(f.scheme, t);
    } else {
      HeadWithHost(f.scheme, AuthorityText(AuthorityOf(f).value), t);
    }
  }

  lemma HeadWithoutHost(x: bytes, t: bytes)
    ensures x + [COLON] + [] + t == x + ([COLON] + t)
    ensures [] + [] + t == t
  {
  }

  lemma HeadWithHost(x: bytes, a: bytes, t: bytes)
    ensures x + [COLON] + ([SLASH, SLASH] + a) + t == x + ([COLON] + ([SLASH, SLASH] + (a + t)))
    ensures [] + ([SLASH, SLASH] + a) + t == [SLASH, SLASH] + (a + t)
  {
  }
}
