/** Building a parsed URL gives its canonical text: parsing that text and building again changes nothing. */
module UrlFixpoint {
  import opened Bytes
  import opened UrlChars
  import opened PercentCoding
  import opened UrlQuery
  import opened Ipv6Text
  import opened Ipv6Normal
  import opened UrlSyntax
  import opened UrlWriting
  import opened UrlModel
  import opened UrlParsed
  import opened Segments
  import opened Wrappers
  import UrlPath

  /** The guard under which the built text has the same host: a valid kind of text for its version. */
  predicate HostStable(f: Fields) {
    f.host == []
    || (f.ipv == 0 && IsRegName(f.host) && !Ipv4Chars(f.host))
    || (f.ipv == 4 && Ipv4Chars(f.host))
    || (f.ipv == 6 && f.host != [COLON])
    || (f.ipv != 0 && f.ipv != 4 && f.ipv != 6)
  }

  /** The fields the built text denotes: a default port is gone, and so is the version of a missing host. */
  function CanonicalFields(f: Fields): Fields {
    f.(port := if DefaultPort(f.scheme, f.port) then [] else f.port, ipv := if f.host == [] then -1 else f.ipv)
  }

  lemma StableHostOk(f: Fields)
    requires Parsed(f) && HostStable(f) && f.host != []
    ensures HostOk(f.ipv, f.host) && CutHostOk(f.ipv, f.host)
    ensures NormalHost(f.ipv, f.host) == Ok(f.host)
  {
    if f.ipv == 0 {
      LowerIsLower(f.host);
    } else if f.ipv == 6 {
      RfcLength(f.host);
      RfcChars(f.host);
      RecogniserIsGrammar(f.host);
    }
  }

  /** A valid period-free address text is made of hexadecimal digits and colons. */
  lemma RfcChars(s: bytes)
    requires Rfc4291(s)
    ensures forall c :: c in s ==> c == COLON || IsHexDigit(c)
  {
    if GroupText(s) {
      GroupChars(s);
    } else {
      var k: nat :| ElidedAt(s, k);
      ElidedChars(s, k);
    }
  }

  lemma ElidedChars(s: bytes, k: nat)
    requires ElidedAt(s, k)
    ensures forall c :: c in s ==> c == COLON || IsHexDigit(c)
  {
    var a, b := s[..k], s[k + 2..];
    GroupChars(a);
    GroupChars(b);
    assert s == a + DOUBLE_COLON + b;
    forall c | c in s ensures c == COLON || IsHexDigit(c) {
      assert c in a || c in DOUBLE_COLON || c in b;
    }
  }

  lemma GroupChars(x: bytes)
    requires GroupText(x)
    ensures forall c :: c in x ==> c == COLON || IsHexDigit(c)
  {
    if x != [] {
      JoinChars(Pieces(x));
      JoinSplit(x, COLON);
    }
  }

  lemma {:induction false} JoinChars(es: Elements)
    requires AllGroups(es)
    ensures forall c :: c in Join(es, COLON) ==> c == COLON || IsHexDigit(c)
  {
    if es != [] {
      assert es[0] in es;
      assert forall g :: g in es[1..] ==> g in es;
      JoinChars(es[1..]);
    }
  }

  lemma AuthorityOfOk(f: Fields)
    requires Parsed(f) && HostStable(f) && f.host != []
    ensures AuthorityOk(AuthorityOf(f).value)
    ensures AuthorityOf(f).value.user == Optional(f.user)
  {
    StableHostOk(f);
    EncodeIdentity(f.user, USER_CHARS);
  }

  lemma TailOfOk(f: Fields)
    requires TailOf(f).Some?
    ensures TailOk(TailOf(f).value)
    ensures Unescape(TailOf(f).value.path) == Ok(f.path)
    ensures QueryPart(TailOf(f).value.query) == Ok(f.query)
    ensures UnescapePart(TailOf(f).value.fragment) == Ok(f.fragment)
  {
    EncodedChars(f.path, PATH_CHARS, Plain);
    DecodeEncode(f.path, PATH_CHARS, Plain);
    EncodedChars(f.fragment, QUERY_CHARS, Plain);
    DecodeEncode(f.fragment, QUERY_CHARS, Plain);
    BuildQueryDefined(f.query);
    QueryRoundTrip(f.query);
    BuiltQueryChars(f.query);
  }

  lemma BuiltHierOk(f: Fields)
    requires Parsed(f) && HostStable(f) && BuildUrl(f).Ok?
    ensures HierOk(AuthorityOf(f), TailOf(f).value)
    ensures AuthorityOf(f).None? ==> ColonSafe(TailOf(f).value.path)
  {
    TailOfOk(f);
    PathText(f.path);
    if f.host == [] {
      if |f.path| >= 2 && f.path[0] == SLASH {
        UrlPath.CleanStart(f.path);
      }
    } else {
      AuthorityOfOk(f);
    }
  }

  /** The parts of the built text. */
  function BuiltParts(f: Fields): Parts
    requires TailOf(f).Some?
  {
    PartsOf(Optional(f.scheme), AuthorityOf(f), TailOf(f).value)
  }

  lemma CutBuilt(f: Fields)
    requires Parsed(f) && HostStable(f) && BuildUrl(f).Ok?
    ensures CutUrl(BuildUrl(f).value) == Ok(BuiltParts(f))
  {
    BuiltHierOk(f);
    CutUrlText(Optional(f.scheme), AuthorityOf(f), TailOf(f).value);
  }

  lemma BuiltHostPart(f: Fields)
    requires Parsed(f) && HostStable(f) && TailOf(f).Some?
    ensures var p := BuiltParts(f); HostPart(p.ipv, p.host) == Ok(f.host)
  {
    if f.host != [] {
      StableHostOk(f);
      HostPartIs(f.ipv, f.host);
    }
  }

  lemma BuiltUserPart(f: Fields)
    requires Parsed(f) && HostStable(f) && TailOf(f).Some? && f.host != []
    ensures UnescapePart(BuiltParts(f).user) == Ok(f.user)
  {
    AuthorityOfOk(f);
    UnescapePlain(f.user, USER_CHARS);
  }

  lemma DecodeBuilt(f: Fields)
    requires Parsed(f) && HostStable(f) && BuildUrl(f).Ok?
    ensures DecodeParts(BuiltParts(f)) == Ok(CanonicalFields(f))
  {
    TailOfOk(f);
    BuiltHostPart(f);
    if f.host != [] {
      BuiltUserPart(f);
    }
    UrlPath.NormalizeIsClean(f.path);
    LowerIsLower(f.scheme);
  }

  lemma EmptyText(f: Fields)
    requires BuildUrl(f) == Ok([])
    ensures CanonicalFields(f) == EMPTY
  {
    BuildQueryDefined(f.query);
    if f.query != [] {
      EntriesRoundTrip(f.query);
    }
  }

  lemma RebuildSame(f: Fields)
    requires BuildUrl(f).Ok?
    ensures BuildUrl(CanonicalFields(f)) == BuildUrl(f)
  {
  }

  /** A stable URL's built text, if not too long, parses to the canonical fields and builds to itself. */
  lemma BuiltParses(f: Fields)
    requires Parsed(f) && HostStable(f) && BuildUrl(f).Ok? && |BuildUrl(f).value| <= MAX_LENGTH
    ensures ParseUrl(BuildUrl(f).value) == Ok(CanonicalFields(f))
    ensures BuildUrl(CanonicalFields(f)) == BuildUrl(f)
  {
    RebuildSame(f);
    if BuildUrl(f).value == [] {
      EmptyText(f);
    } else {
      CutBuilt(f);
      DecodeBuilt(f);
    }
  }

  // ----- the guard is exact -----

  lemma CutHierFails(scheme: Option<bytes>, x: bytes, t: bytes)
    requires Free(x, [SLASH, QUESTION, HASH]) && (t == [] || t[0] in [SLASH, QUESTION, HASH])
    ensures CutHier(scheme, [SLASH, SLASH] + (x + t)).Ok? ==>
      var p := CutHier(scheme, [SLASH, SLASH] + (x + t)).value;
      CutAuthority(x).Ok? && p.host == Some(CutAuthority(x).value.host) && p.ipv == CutAuthority(x).value.ipv
  {
    assert ([SLASH, SLASH] + (x + t))[2..] == x + t;
    SpanAppend(x, t, [SLASH, QUESTION, HASH]);
    CutParts(x, t);
  }

  /** Whatever the built text of a URL with a host parses to, its host is the one its authority text has. */
  lemma CutBuiltHost(f: Fields)
    requires Parsed(f) && f.host != [] && BuildUrl(f).Ok? && CutUrl(BuildUrl(f).value).Ok?
    requires Free(AuthorityText(AuthorityOf(f).value), [SLASH, QUESTION, HASH])
    ensures var x, p := AuthorityText(AuthorityOf(f).value), CutUrl(BuildUrl(f).value).value;
      CutAuthority(x).Ok? && p.host == Some(CutAuthority(x).value.host) && p.ipv == CutAuthority(x).value.ipv
  {
    var x, t := AuthorityText(AuthorityOf(f).value), TailText(TailOf(f).value);
    PathText(f.path);
    TailStart(TailOf(f).value);
    CutHierFails(Optional(f.scheme), x, t);
    if f.scheme != [] {
      CutWithScheme(f.scheme, HierText(AuthorityOf(f), TailOf(f).value));
    }
  }

  /** The host and port text of an unstable host, free of the authority's separators. */
  lemma UnstableFree(f: Fields)
    requires Parsed(f) && !HostStable(f)
    ensures Free(HostText(f.ipv, f.host), [AT, SLASH, QUESTION, HASH])
  {
    if f.ipv != 6 {
      CharsFree(f.host, USER_CHARS, [AT, SLASH, QUESTION, HASH]);
    }
  }

  /** The authority text of an unstable URL, without its user info. */
  function HostAndPort(f: Fields): bytes
    requires f.host != []
  {
    HostText(f.ipv, f.host) + Marked(COLON, AuthorityOf(f).value.port)
  }

  lemma HostAndPortFree(f: Fields)
    requires Parsed(f) && !HostStable(f)
    ensures Free(HostAndPort(f), [AT, SLASH, QUESTION, HASH])
  {
    UnstableFree(f);
    if f.port != [] {
      PortDigits(f.port);
    }
    FreeConcat(HostText(f.ipv, f.host), Marked(COLON, AuthorityOf(f).value.port), [AT, SLASH, QUESTION, HASH]);
  }

  lemma UserTextFree(u: bytes)
    requires AllChars(u, USER_CHARS)
    ensures Free(UserText(Optional(Encode(u, USER_CHARS, Plain))), [SLASH, QUESTION, HASH])
  {
    EncodeIdentity(u, USER_CHARS);
    CharsFree(u, USER_CHARS, [SLASH, QUESTION, HASH]);
  }

  lemma UnstableAuthority(f: Fields)
    requires Parsed(f) && !HostStable(f)
    ensures Free(AuthorityText(AuthorityOf(f).value), [SLASH, QUESTION, HASH]) && Free(HostAndPort(f), [AT])
  {
    var h := HostAndPort(f);
    HostAndPortFree(f);
    FreeSubset(h, [AT], [AT, SLASH, QUESTION, HASH]);
    FreeSubset(h, [SLASH, QUESTION, HASH], [AT, SLASH, QUESTION, HASH]);
    UserTextFree(f.user);
    FreeConcat(UserText(AuthorityOf(f).value.user), h, [SLASH, QUESTION, HASH]);
  }

  /** The lone ':' in brackets is refused; any other host text is read as a name or IPv4 address. */
  lemma UnstableCut(f: Fields)
    requires Parsed(f) && !HostStable(f)
    ensures CutHost(HostAndPort(f)).Ok? ==>
      NameVersion(CutHost(HostAndPort(f)).value.host) == Ok(CutHost(HostAndPort(f)).value.ipv)
  {
    if f.ipv == 6 {
      LoneColonRefused(Marked(COLON, AuthorityOf(f).value.port));
    } else {
      UnstableStart(f);
      CutHostProps(HostAndPort(f));
    }
  }

  lemma UnstableStart(f: Fields)
    requires Parsed(f) && !HostStable(f) && f.ipv != 6
    ensures HostAndPort(f) != [] && HostAndPort(f)[0] != OPEN
  {
    assert f.host[0] in f.host;
  }

  lemma LoneColonRefused(port: bytes)
    ensures CutHost([OPEN] + [COLON] + [CLOSE] + port).Err?
  {
    var h, r := [OPEN] + [COLON] + [CLOSE] + port, [CLOSE] + port;
    assert h[1..] == [COLON] + r;
    SpanAppend([COLON], r, [CLOSE]);
    CutParts([COLON], r);
  }

  lemma NamedHostStable(p: Parts)
    requires p.host.Some? && NameVersion(p.host.value) == Ok(p.ipv) && DecodeParts(p).Ok?
    ensures HostStable(DecodeParts(p).value)
  {
    UnescapePlain(p.host.value, USER_CHARS);
    LowerKeepsChars(p.host.value);
  }

  /**
   * An unstable URL never comes back: its text fails to parse, or gives a stable host, so that the host text or its
   * version has changed.
   */
  lemma UnstableDiffers(f: Fields)
    requires Parsed(f) && !HostStable(f) && BuildUrl(f).Ok?
    ensures ParseUrl(BuildUrl(f).value).Ok? ==> HostStable(ParseUrl(BuildUrl(f).value).value)
    ensures ParseUrl(BuildUrl(f).value) != Ok(CanonicalFields(f))
  {
    var t := BuildUrl(f).value;
    UnstableAuthority(f);
    UnstableCut(f);
    EncodeIdentity(f.user, USER_CHARS);
    CutUserText(AuthorityOf(f).value.user, HostAndPort(f));
    if t != [] && CutUrl(t).Ok? && DecodeParts(CutUrl(t).value).Ok? {
      CutBuiltHost(f);
      NamedHostStable(CutUrl(t).value);
    }
  }

  /**
   * The canonical form is a fixpoint. Build the fields parsed from any text: the result parses to the same
   * fields, without a default port and the version of a missing host, exactly when it is not too long and
   * its host is stable; and then building again gives the same text.
   */
  lemma CanonicalFormIsFixpoint(s: bytes)
    requires ParseUrl(s).Ok? && BuildUrl(ParseUrl(s).value).Ok?
    ensures var f := ParseUrl(s).value;
      var t := BuildUrl(f).value;
      (ParseUrl(t) == Ok(CanonicalFields(f)) <==> |t| <= MAX_LENGTH && HostStable(f))
      && BuildUrl(CanonicalFields(f)) == Ok(t)
  {
    var f := ParseUrl(s).value;
    ParseUrlProps(s);
    RebuildSame(f);
    if HostStable(f) {
      if |BuildUrl(f).value| <= MAX_LENGTH {
        BuiltParses(f);
      }
    } else {
      UnstableDiffers(f);
    }
  }
}
