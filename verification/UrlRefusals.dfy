/** Why a URL text is refused: the first of its parts that is wrong, in the order of the text. */
module UrlRefusals {
  import opened Bytes
  import opened PercentCoding
  import opened UrlEdges
  import opened UrlGrammar
  import opened UrlModel
  import opened UrlQuery
  import opened UrlReads
  import opened UrlSyntax
  import opened UrlWriting
  import opened Wrappers

  // ----- scheme -----

  /** A colon before any of "/?#" ends a scheme. */
  lemma SchemeRefused(x: bytes, rest: bytes)
    requires Free(x, Ascii(":/?#")) && !SchemeFormOk(x)
    ensures CutUrl(x + ([':' as int] + rest)) == Err(BadScheme)
  {
    var stops := [COLON, SLASH, QUESTION, HASH];
    assert Ascii(":/?#") == stops;
    SpanAppend(x, [COLON] + rest, stops);
    CutParts(x, [COLON] + rest);
    SchemeIs(x);
  }

  // ----- authority -----

  /** An authority and what stands behind it: the authority is checked first. */
  lemma AuthorityFirst(scheme: Option<bytes>, a: bytes, t: bytes)
    requires scheme.Some? ==> SchemeFormOk(scheme.value)
    requires Free(a, Ascii("/?#")) && (t == [] || t[0] in Ascii("/?#"))
    ensures CutUrl(Before(scheme, ':') + (['/' as int, '/' as int] + (a + t)))
         == match CutAuthority(a)
            case Err(e) => Err(e)
            case Ok(auth) => match CutTail(t)
              case Err(e) => Err(e)
              case Ok(tail) =>
                Ok(Parts(scheme, auth.user, Some(auth.host), auth.ipv, auth.port, tail.path, tail.query, tail.fragment))
  {
    var r := [SLASH, SLASH] + (a + t);
    assert Ascii("/?#") == [SLASH, QUESTION, HASH];
    assert r[2..] == a + t;
    SpanAppend(a, t, [SLASH, QUESTION, HASH]);
    CutParts(a, t);
    BehindScheme(scheme, r);
  }

  lemma BehindScheme(scheme: Option<bytes>, r: bytes)
    requires (scheme.Some? ==> SchemeFormOk(scheme.value)) && HasAuthority(r)
    ensures CutUrl(Before(scheme, ':') + r) == CutHier(scheme, r)
  {
    match scheme {
      case None => assert [] + r == r;
      case Some(x) =>
        SchemeIs(x);
        CutWithScheme(x, r);
        Assoc(x, [COLON], r);
    }
  }

  /** User info goes up to the first '@' and is checked before the host. */
  lemma UserFirst(u: bytes, h: bytes)
    requires '@' as int !in u
    ensures CutAuthority(u + (['@' as int] + h))
         == if !All(u, ":") then Err(BadUser)
            else match CutHost(h) case Err(e) => Err(e) case Ok(a) => Ok(a.(user := Some(u)))
  {
    AllIs(u);
    SpanAppend(u, [AT] + h, [AT]);
    CutParts(u, [AT] + h);
    assert (u + ([AT] + h))[|u| + 1..] == h;
  }

  // ----- host and port -----

  /** A literal must be closed. */
  lemma UnclosedRefused(l: bytes)
    requires ']' as int !in l
    ensures CutHost(['[' as int] + l) == Err(UnclosedLiteral)
  {
    assert ([OPEN] + l)[1..] == l && l + [] == l;
    SpanAppend(l, [], [CLOSE]);
  }

  /** What may stand between brackets. */
  predicate LiteralFormOk(l: bytes) {
    || (2 <= |l| <= 254 && forall c :: c in l ==> IsHexDigit(c) || c as char in ":.")
    || (|l| >= 3 && l[0] == 'v' as int && IsHexDigit(l[1]) && l[2] == '.' as int && All(l[3..], ":"))
  }

  lemma LiteralIs(l: bytes)
    ensures CutLiteral(l).Ok? <==> LiteralFormOk(l)
    ensures CutLiteral(l).Err? ==> CutLiteral(l) == Err(BadHost)
  {
    if |l| >= 3 {
      AllIs(l[3..]);
    }
    if l != [] {
      assert l[0] in l;
    }
  }

  /** A literal is checked before what follows it. */
  lemma LiteralFirst(l: bytes, r: bytes)
    requires ']' as int !in l
    ensures CutHost(['[' as int] + (l + ([']' as int] + r)))
         == if !LiteralFormOk(l) then Err(BadHost)
            else match CutLiteral(l)
              case Err(e) => Err(e)
              case Ok(v) => match CutPort(r)
                case Err(e) => Err(e)
                case Ok(port) => Ok(AuthorityParts(None, v.1, v.0, port))
  {
    LiteralIs(l);
    var h := [OPEN] + (l + ([CLOSE] + r));
    assert h[1..] == l + ([CLOSE] + r);
    SpanAppend(l, [CLOSE] + r, [CLOSE]);
    CutParts(l, [CLOSE] + r);
    assert h[1..][|l| + 1..] == r;
  }

  /** A name is checked before the port behind it. */
  lemma NameFirst(n: bytes, r: bytes)
    requires ':' as int !in n && (n != [] ==> n[0] != '[' as int) && (r == [] || r[0] == ':' as int)
    ensures CutHost(n + r)
         == if !All(n, "") then Err(BadHost)
            else match CutPort(r)
              case Err(e) => Err(e)
              case Ok(port) => Ok(AuthorityParts(None, n, HostFormVersion(Name(n)), port))
  {
    SpanAppend(n, r, [COLON]);
    CutParts(n, r);
    if All(n, "") {
      VersionIs(n);
    } else if NameVersion(n).Ok? {
      NameChars(n);
    }
  }

  /** A colon behind the host announces a port; anything else is passed over. */
  lemma PortRefused(r: bytes)
    ensures CutPort(r)
         == if r == [] || r[0] != ':' as int then Ok(None)
            else if WrappedNumber(r[1..], 65535) then Ok(Some(r[1..]))
            else Err(BadPort)
  {
    if r != [] {
      PortIs(r[1..]);
    }
  }

  // ----- path and fragment -----

  /** The path ends at the first '?' or '#', the query at the first '#'; the path is checked before the fragment. */
  lemma PathFirst(path: bytes, query: Option<bytes>, fragment: Option<bytes>)
    requires Free(path, Ascii("?#")) && (query.Some? ==> '#' as int !in query.value)
    ensures CutTail(path + (Behind('?', query) + Behind('#', fragment)))
         == if !All(path, ":@/%") then Err(BadPath)
            else if fragment.Some? && !All(fragment.value, ":@/?%") then Err(BadFragment)
            else Ok(TailParts(path, query, fragment))
  {
    assert Ascii("?#") == [QUESTION, HASH];
    var rest := Behind('?', query) + Behind('#', fragment);
    AllIs(path);
    MarksAre(query);
    FragmentCut(fragment);
    SpanAppend(path, rest, [QUESTION, HASH]);
    CutParts(path, rest);
    if query.Some? {
      QueryCut(path, query.value, Behind('#', fragment));
    } else {
      assert rest == Behind('#', fragment);
    }
  }

  lemma FragmentCut(fragment: Option<bytes>)
    ensures Behind('#', fragment) == Marked(HASH, fragment)
    ensures CutFragment(Behind('#', fragment))
         == if fragment.Some? && !All(fragment.value, ":@/?%") then Err(BadFragment) else Ok(fragment)
  {
    if fragment.Some? {
      AllIs(fragment.value);
      assert Behind('#', fragment)[1..] == fragment.value;
    }
  }

  lemma QueryCut(path: bytes, q: bytes, f: bytes)
    requires HASH !in q && (f != [] ==> f[0] == HASH)
    ensures var r := path + (([QUESTION] + q) + f);
      && r[|path| + 1..] == q + f && Span(q + f, [HASH]) == |q| && (q + f)[..|q|] == q && (q + f)[|q|..] == f
  {
    SpanAppend(q, f, [HASH]);
  }

  // ----- escapes, entries and addresses -----

  /** The first thing wrong with what a text of the grammar denotes. */
  ghost function MeaningError(u: UrlForm): Option<UrlError>
    requires UrlFormOk(u)
  {
    var host: Result<bytes, UrlError> := match u.authority
      case None => Ok([])
      case Some(a) => NormalHost(HostFormVersion(a.host), a.host.text);
    if host.Err? then Some(host.error)
    else if Decode(u.path, false).None? then Some(UrlError.BadEscape)
    else if ParseQuery(Given(u.query)).Err? then Some(BadQuery(ParseQuery(Given(u.query)).error))
    else if Decode(Given(u.fragment), false).None? then Some(UrlError.BadEscape)
    else None
  }

  function FirstError(host: Result<bytes, UrlError>, path: Result<bytes, UrlError>,
                      query: Result<seq<KeyVal>, UrlError>, fragment: Result<bytes, UrlError>): Option<UrlError>
  {
    if host.Err? then Some(host.error)
    else if path.Err? then Some(path.error)
    else if query.Err? then Some(query.error)
    else if fragment.Err? then Some(fragment.error)
    else None
  }

  lemma PartsRefused(p: Parts)
    requires UnescapePart(p.user).Ok?
    ensures match FirstError(HostPart(p.ipv, p.host), Unescape(p.path), QueryPart(p.query), UnescapePart(p.fragment))
      case None => DecodeParts(p).Ok?
      case Some(e) => DecodeParts(p) == Err(e)
  {
  }

  lemma FormError(u: UrlForm, p: Parts)
    requires UrlFormOk(u) && p == FormParts(u)
    ensures UnescapePart(p.user).Ok?
    ensures MeaningError(u)
         == FirstError(HostPart(p.ipv, p.host), Unescape(p.path), QueryPart(p.query), UnescapePart(p.fragment))
  {
    EmptyDecodes();
    if u.authority.Some? {
      HostTextPlain(u.authority.value.host);
      if u.authority.value.user.Some? {
        NoEscapes(u.authority.value.user.value);
      }
    }
  }

  /** It is refused for its host, else for an escape in its path, else for its query or an escape in its fragment. */
  lemma MeaningRefused(u: UrlForm)
    requires UrlFormOk(u)
    ensures match MeaningError(u)
      case None => DecodeParts(FormParts(u)).Ok?
      case Some(e) => DecodeParts(FormParts(u)) == Err(e)
  {
    FormError(u, FormParts(u));
    PartsRefused(FormParts(u));
  }

  lemma HostNeverTooLong(h: bytes)
    ensures CutHost(h) != Err(TooLong)
  {
  }

  lemma AuthorityNeverTooLong(a: bytes)
    ensures CutAuthority(a) != Err(TooLong)
  {
    HostNeverTooLong(a);
    HostNeverTooLong(a[if Span(a, [AT]) == |a| then |a| else Span(a, [AT]) + 1..]);
  }

  lemma TailNeverTooLong(r: bytes)
    ensures CutTail(r) != Err(TooLong)
  {
  }

  lemma HierNeverTooLong(scheme: Option<bytes>, r: bytes)
    ensures CutHier(scheme, r) != Err(TooLong)
  {
    if HasAuthority(r) {
      var k := Span(r[2..], [SLASH, QUESTION, HASH]);
      AuthorityNeverTooLong(r[2..][..k]);
      TailNeverTooLong(r[2..][k..]);
    } else {
      TailNeverTooLong(r);
    }
  }

  lemma CutNeverTooLong(s: bytes)
    ensures CutUrl(s) != Err(TooLong)
  {
    var p := Span(s, [COLON, SLASH, QUESTION, HASH]);
    HierNeverTooLong(None, s);
    if p < |s| {
      HierNeverTooLong(Some(s[..p]), s[p + 1..]);
    }
  }

  lemma MeaningNeverTooLong(u: UrlForm)
    requires UrlFormOk(u)
    ensures MeaningError(u) != Some(TooLong)
  {
  }

  /** Texts of more than 8000 bytes, and only those, are refused for their length. */
  lemma LongRefused(s: bytes)
    ensures ParseUrl(s) == Err(TooLong) <==> |s| > 8000
  {
    if s != [] && |s| <= 8000 {
      CutNeverTooLong(s);
      if CutUrl(s).Ok? {
        var u := CutIsForm(s);
        MeaningRefused(u);
        MeaningNeverTooLong(u);
      }
    }
  }

  /** Why build_url throws, when it does. */
  lemma BuildRefused(f: Fields)
    requires BuildUrl(f).Err?
    ensures BuildUrl(f).error
         == if f.host == [] && f.user != [] then UserWithoutHost
            else if f.host == [] && f.port != [] then PortWithoutHost
            else if f.host == [] && ':' as int in f.path[..Span(f.path, ['/' as int])] then ColonInFirstSegment
            else if f.host != [] && f.path != [] && f.path[0] != '/' as int then RelativePathWithHost
            else EmptyQueryKey
  {
  }
}
