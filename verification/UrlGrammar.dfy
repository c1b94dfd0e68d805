/** The texts the URL parser accepts, as a grammar of their own: every form it reads, and nothing else. */
module UrlGrammar {
  import opened Bytes
  import opened PercentCoding
  import opened UrlChars
  import opened UrlEdges
  import opened UrlStandard
  import opened UrlSyntax
  import opened UrlWriting
  import opened Wrappers

  // ----- coded text -----

  /** A byte as it stands, or '%' and two hexadecimal digits. */
  datatype Unit = Raw(c: byte) | Escaped(high: byte, low: byte)

  predicate UnitOk(u: Unit) {
    match u case Raw(c) => c != '%' as int case Escaped(h, l) => IsHexDigit(h) && IsHexDigit(l)
  }

  function UnitText(u: Unit): bytes {
    match u case Raw(c) => [c] case Escaped(h, l) => ['%' as int, h, l]
  }

  /** In a query, a plus stands for a space. */
  function UnitByte(u: Unit, plus: bool): byte
    requires UnitOk(u)
  {
    match u
    case Raw(c) => if plus && c == '+' as int then ' ' as int else c
    case Escaped(h, l) => HexValue(h) * 16 + HexValue(l)
  }

  predicate UnitsOk(us: seq<Unit>) {
    forall i :: 0 <= i < |us| ==> UnitOk(us[i])
  }

  function UnitsText(us: seq<Unit>): bytes {
    if us == [] then [] else UnitText(us[0]) + UnitsText(us[1..])
  }

  function UnitsBytes(us: seq<Unit>, plus: bool): bytes
    requires UnitsOk(us)
  {
    if us == [] then [] else [UnitByte(us[0], plus)] + UnitsBytes(us[1..], plus)
  }

  predicate CodedAs(s: bytes, plus: bool, us: seq<Unit>, r: bytes) {
    UnitsOk(us) && s == UnitsText(us) && r == UnitsBytes(us, plus)
  }

  lemma UnitRead(u: Unit, t: bytes, plus: bool)
    requires UnitOk(u)
    ensures DecodeUnit(UnitText(u) + t, plus) == Some((UnitByte(u, plus), |UnitText(u)|))
    ensures (UnitText(u) + t)[|UnitText(u)|..] == t
  {
  }

  lemma {:induction false} CodedIsRead(us: seq<Unit>, plus: bool)
    requires UnitsOk(us)
    ensures Decode(UnitsText(us), plus) == Some(UnitsBytes(us, plus))
  {
    if us != [] {
      CodedIsRead(us[1..], plus);
      UnitRead(us[0], UnitsText(us[1..]), plus);
    }
  }

  lemma UnitOf(s: bytes, plus: bool) returns (u: Unit)
    requires s != [] && DecodeUnit(s, plus).Some?
    ensures UnitOk(u) && DecodeUnit(s, plus).value == (UnitByte(u, plus), |UnitText(u)|)
    ensures s == UnitText(u) + s[|UnitText(u)|..]
  {
    u := if s[0] == PERCENT then Escaped(s[1], s[2]) else Raw(s[0]);
  }

  lemma {:induction false} ReadIsCoded(s: bytes, plus: bool) returns (us: seq<Unit>)
    requires Decode(s, plus).Some?
    ensures CodedAs(s, plus, us, Decode(s, plus).value)
    decreases |s|
  {
    if s == [] {
      us := [];
    } else {
      var u := UnitOf(s, plus);
      var more := ReadIsCoded(s[|UnitText(u)|..], plus);
      us := [u] + more;
      assert us[1..] == more;
    }
  }

  /** Decoding succeeds exactly on plain bytes and whole escapes, and gives the bytes they stand for. */
  lemma DecodeExactly(s: bytes, plus: bool, r: bytes)
    ensures Decode(s, plus) == Some(r) <==> exists us :: CodedAs(s, plus, us, r)
  {
    if Decode(s, plus) == Some(r) {
      var us := ReadIsCoded(s, plus);
    }
    if us :| CodedAs(s, plus, us, r) {
      CodedIsRead(us, plus);
    }
  }

  // ----- hosts -----

  /** A name or IPv4 address, or a literal in brackets with whatever is passed over behind it. */
  datatype HostForm =
    | Name(text: bytes) | Address(text: bytes, junk: bytes) | Future(digit: byte, text: bytes, junk: bytes)

  datatype AuthorityForm = AuthorityForm(user: Option<bytes>, host: HostForm, port: Option<bytes>)

  datatype UrlForm = UrlForm(
    scheme: Option<bytes>, authority: Option<AuthorityForm>,
    path: bytes, query: Option<bytes>, fragment: Option<bytes>)

  predicate All(s: bytes, extra: string) {
    forall c :: c in s ==> Plainly(c) || c as char in extra
  }

  function Junk(h: HostForm): bytes {
    match h case Name(_) => [] case Address(_, j) => j case Future(_, _, j) => j
  }

  predicate HostFormOk(h: HostForm) {
    match h
    case Name(t) => All(t, "")
    case Address(t, _) => 2 <= |t| <= 254 && forall c :: c in t ==> IsHexDigit(c) || c as char in ":."
    case Future(d, t, _) => IsHexDigit(d) && All(t, ":")
  }

  /** What is passed over starts with no colon and ends before the path; without user info it holds no '@'. */
  predicate JunkOk(a: AuthorityForm) {
    var j := Junk(a.host);
    && Free(j, ['/' as int, '?' as int, '#' as int])
    && (a.user.None? ==> '@' as int !in j)
    && (j != [] ==> j[0] != ':' as int && a.port.None?)
  }

  predicate AuthorityFormOk(a: AuthorityForm) {
    && HostFormOk(a.host) && JunkOk(a)
    && (a.user.Some? ==> All(a.user.value, ":"))
    && (a.port.Some? ==> WrappedNumber(a.port.value, 65535))
  }

  predicate SchemeFormOk(s: bytes) {
    && s != [] && ('a' as int <= s[0] <= 'z' as int || 'A' as int <= s[0] <= 'Z' as int)
    && forall c :: c in s ==>
      'a' as int <= c <= 'z' as int || 'A' as int <= c <= 'Z' as int || '0' as int <= c <= '9' as int
      || c as char in "+-."
  }

  /** The characters of a query are looked at when its entries are read. */
  predicate UrlFormOk(u: UrlForm) {
    && (u.scheme.Some? ==> SchemeFormOk(u.scheme.value))
    && (u.authority.Some? ==> AuthorityFormOk(u.authority.value) && (u.path != [] ==> u.path[0] == '/' as int))
    && (u.authority.None? ==> !(['/' as int, '/' as int] <= u.path))
    && (u.authority.None? && u.scheme.None? ==> ':' as int !in u.path[..Span(u.path, ['/' as int])])
    && All(u.path, ":@/%")
    && (u.query.Some? ==> '#' as int !in u.query.value)
    && (u.fragment.Some? ==> All(u.fragment.value, ":@/?%"))
  }

  // ----- their texts -----

  function HostFormText(h: HostForm): bytes {
    match h
    case Name(t) => t
    case Address(t, j) => ['[' as int] + (t + ([']' as int] + j))
    case Future(d, t, j) => ['[' as int] + (['v' as int, d, '.' as int] + t + ([']' as int] + j))
  }

  function Before(part: Option<bytes>, mark: char): bytes {
    match part case None => [] case Some(t) => if mark as int < 256 then t + [mark as int] else t
  }

  function Behind(mark: char, part: Option<bytes>): bytes {
    match part case None => [] case Some(t) => if mark as int < 256 then [mark as int] + t else t
  }

  function AuthorityFormText(a: AuthorityForm): bytes {
    Before(a.user, '@') + (HostFormText(a.host) + Behind(':', a.port))
  }

  /** Everything behind the scheme. */
  function FormHierText(u: UrlForm): bytes {
    (match u.authority case None => [] case Some(a) => ['/' as int, '/' as int] + AuthorityFormText(a))
    + (u.path + Behind('?', u.query) + Behind('#', u.fragment))
  }

  function UrlFormText(u: UrlForm): bytes {
    Before(u.scheme, ':') + FormHierText(u)
  }

  // ----- what they mean -----

  /** Seven to 254 digits and periods make an IPv4 address of a name. */
  function HostFormVersion(h: HostForm): IpVersion
    requires HostFormOk(h)
  {
    match h
    case Name(t) => if 7 <= |t| <= 254 && (forall c :: c in t ==> c as char in "0123456789.") then 4 else 0
    case Address(_, _) => 6
    case Future(d, _, _) => HexValue(d)
  }

  function FormParts(u: UrlForm): Parts
    requires UrlFormOk(u)
  {
    match u.authority
    case None => Parts(u.scheme, None, None, -1, None, u.path, u.query, u.fragment)
    case Some(a) =>
      Parts(u.scheme, a.user, Some(a.host.text), HostFormVersion(a.host), a.port, u.path, u.query, u.fragment)
  }

  // ----- the grammar in the parser's terms -----

  lemma AllIs(s: bytes)
    ensures All(s, "") <==> AllChars(s, REG_NAME_CHARS)
    ensures All(s, ":") <==> AllChars(s, USER_CHARS)
    ensures All(s, ":@/%") <==> AllChars(s, RAW_PATH_CHARS)
    ensures All(s, ":@/?%") <==> AllChars(s, RAW_QUERY_CHARS)
  {
    forall c: byte
      ensures IsChar(c, REG_NAME_CHARS) <==> Plainly(c) || c as char in ""
      ensures IsChar(c, USER_CHARS) <==> Plainly(c) || c as char in ":"
      ensures IsChar(c, RAW_PATH_CHARS) <==> Plainly(c) || c as char in ":@/%"
      ensures IsChar(c, RAW_QUERY_CHARS) <==> Plainly(c) || c as char in ":@/?%"
    {
      MasksAreRfc3986(c);
    }
  }

  lemma SchemeIs(s: bytes)
    ensures SchemeFormOk(s) <==> IsScheme(s)
  {
  }

  lemma PortIs(s: bytes)
    ensures WrappedNumber(s, 65535) <==> IsPort(s)
  {
    PortIsModulo(s);
  }

  lemma MarksAre(part: Option<bytes>)
    ensures Behind(':', part) == Marked(COLON, part) && Before(part, '@') == UserText(part)
    ensures Behind('?', part) == Marked(QUESTION, part) && Behind('#', part) == Marked(HASH, part)
    ensures Before(part, ':') == match part case None => [] case Some(x) => x + [COLON]
  {
  }

  lemma VersionIs(t: bytes)
    requires All(t, "")
    ensures NameVersion(t) == Ok(HostFormVersion(Name(t)))
    ensures HostOk(HostFormVersion(Name(t)), t)
  {
    AllIs(t);
    forall c: byte ensures (c == PERIOD || IsDigit(c)) <==> c as char in "0123456789." {
    }
  }

  // ----- every form is read -----

  /** What is behind the closing bracket. */
  lemma JunkIsPassed(j: bytes, port: Option<bytes>)
    requires j != [] ==> j[0] != ':' as int && port.None?
    requires port.Some? ==> IsPort(port.value)
    ensures CutPort(j + Behind(':', port)) == Ok(port)
  {
    MarksAre(port);
    CutPortText(port);
    assert j == [] ==> j + Behind(':', port) == Behind(':', port);
  }

  lemma LiteralIsRead(h: HostForm)
    requires HostFormOk(h) && !h.Name?
    ensures var l := if h.Address? then h.text else ['v' as int, h.digit, '.' as int] + h.text;
      CutLiteral(l) == Ok((HostFormVersion(h), h.text)) && Free(l, [CLOSE])
  {
    if h.Address? {
      assert h.text[0] in h.text;
    } else {
      AllIs(h.text);
      CharsFree(h.text, USER_CHARS, [CLOSE]);
      assert (['v' as int, h.digit, '.' as int] + h.text)[3..] == h.text;
    }
  }

  lemma BracketText(l: bytes, j: bytes, port: bytes)
    ensures ['[' as int] + (l + ([']' as int] + j)) + port == [OPEN] + (l + ([CLOSE] + (j + port)))
  {
  }

  lemma HostIsRead(h: HostForm, port: Option<bytes>)
    requires HostFormOk(h) && (Junk(h) != [] ==> Junk(h)[0] != ':' as int && port.None?)
    requires port.Some? ==> IsPort(port.value)
    ensures CutHost(HostFormText(h) + Behind(':', port))
         == Ok(AuthorityParts(None, h.text, HostFormVersion(h), port))
  {
    match h {
      case Name(t) =>
        VersionIs(t);
        MarksAre(port);
        CutNameText(AuthorityParts(None, t, HostFormVersion(h), port));
      case Address(t, j) =>
        LiteralIsRead(h);
        JunkIsPassed(j, port);
        BracketText(t, j, Behind(':', port));
        CutBracket(t, j + Behind(':', port), 6, t, port);
      case Future(d, t, j) =>
        LiteralIsRead(h);
        JunkIsPassed(j, port);
        BracketText(['v' as int, d, '.' as int] + t, j, Behind(':', port));
        CutBracket(['v' as int, d, '.' as int] + t, j + Behind(':', port), HostFormVersion(h), t, port);
    }
  }

  lemma UserIsRead(u: bytes, h: bytes)
    requires All(u, ":") && CutHost(h).Ok?
    ensures CutAuthority(u + ['@' as int] + h) == Ok(CutHost(h).value.(user := Some(u)))
  {
    AllIs(u);
    CharsFree(u, USER_CHARS, [AT]);
    Assoc(u, [AT], h);
    SpanAppend(u, [AT] + h, [AT]);
    CutParts(u, [AT] + h);
    assert (u + ([AT] + h))[|u| + 1..] == h;
  }

  lemma TextIsFree(h: HostForm)
    requires HostFormOk(h)
    ensures forall c :: c in h.text ==> c !in [SLASH, QUESTION, HASH, AT]
    ensures h.Future? ==> h.digit !in [SLASH, QUESTION, HASH, AT]
  {
  }

  lemma FreeOfMore(s: bytes, q: bytes, t: bytes)
    requires Free(s, q) && forall c :: c in t ==> c in q
    ensures Free(s, t)
  {
  }

  lemma HostFormFree(h: HostForm, q: bytes)
    requires HostFormOk(h) && Free(Junk(h), q) && forall c :: c in q ==> c in [SLASH, QUESTION, HASH, AT]
    ensures Free(HostFormText(h), q)
  {
    TextIsFree(h);
    match h {
      case Name(t) =>
      case Address(t, j) =>
        FreeConcat([']' as int], j, q);
        FreeConcat(t, [']' as int] + j, q);
        FreeConcat(['[' as int], t + ([']' as int] + j), q);
      case Future(d, t, j) =>
        var l := ['v' as int, d, '.' as int];
        FreeConcat([']' as int], j, q);
        FreeConcat(l, t, q);
        FreeConcat(l + t, [']' as int] + j, q);
        FreeConcat(['[' as int], l + t + ([']' as int] + j), q);
    }
  }

  lemma PortFree(port: Option<bytes>)
    requires port.Some? ==> IsPort(port.value)
    ensures Free(Behind(':', port), [SLASH, QUESTION, HASH, AT])
  {
    if port.Some? {
      PortDigits(port.value);
    }
  }

  lemma HostAndPortFree(a: AuthorityForm, q: bytes)
    requires AuthorityFormOk(a) && Free(Junk(a.host), q) && forall c :: c in q ==> c in [SLASH, QUESTION, HASH, AT]
    ensures Free(HostFormText(a.host) + Behind(':', a.port), q)
  {
    if a.port.Some? {
      PortIs(a.port.value);
    }
    PortFree(a.port);
    FreeOfMore(Behind(':', a.port), [SLASH, QUESTION, HASH, AT], q);
    HostFormFree(a.host, q);
    FreeConcat(HostFormText(a.host), Behind(':', a.port), q);
  }

  function FormAuthority(a: AuthorityForm): AuthorityParts
    requires HostFormOk(a.host)
  {
    AuthorityParts(a.user, a.host.text, HostFormVersion(a.host), a.port)
  }

  lemma AuthorityIsRead(a: AuthorityForm)
    requires AuthorityFormOk(a)
    ensures CutAuthority(AuthorityFormText(a)) == Ok(FormAuthority(a))
  {
    var h := HostFormText(a.host) + Behind(':', a.port);
    if a.port.Some? {
      PortIs(a.port.value);
    }
    HostIsRead(a.host, a.port);
    match a.user {
      case None =>
        HostAndPortFree(a, [AT]);
        CutUserText(None, h);
      case Some(u) =>
        UserIsRead(u, h);
    }
  }

  lemma AuthorityFormFree(a: AuthorityForm)
    requires AuthorityFormOk(a)
    ensures Free(AuthorityFormText(a), [SLASH, QUESTION, HASH])
  {
    HostAndPortFree(a, [SLASH, QUESTION, HASH]);
    if a.user.Some? {
      AllIs(a.user.value);
      CharsFree(a.user.value, USER_CHARS, [SLASH, QUESTION, HASH]);
    }
    FreeConcat(Before(a.user, '@'), HostFormText(a.host) + Behind(':', a.port), [SLASH, QUESTION, HASH]);
  }

  function FormTail(u: UrlForm): TailParts {
    TailParts(u.path, u.query, u.fragment)
  }

  predicate TailFine(t: TailParts) {
    AllChars(t.path, RAW_PATH_CHARS)
    && (t.query.Some? ==> HASH !in t.query.value)
    && (t.fragment.Some? ==> AllChars(t.fragment.value, RAW_QUERY_CHARS))
  }

  lemma TailIs(u: UrlForm)
    requires UrlFormOk(u)
    ensures TailFine(FormTail(u)) && TailText(FormTail(u)) == u.path + Behind('?', u.query) + Behind('#', u.fragment)
    ensures u.authority.None? ==> !HasAuthority(u.path)
    ensures u.authority.None? && u.scheme.None? ==> ColonSafe(u.path)
  {
    AllIs(u.path);
    MarksAre(u.query);
    MarksAre(u.fragment);
    if u.fragment.Some? {
      AllIs(u.fragment.value);
    }
  }

  lemma QueryIsRead(path: bytes, q: bytes, frag: Option<bytes>)
    requires AllChars(path, RAW_PATH_CHARS) && HASH !in q
    requires frag.Some? ==> AllChars(frag.value, RAW_QUERY_CHARS)
    ensures CutTail(path + ([QUESTION] + (q + Marked(HASH, frag)))) == Ok(TailParts(path, Some(q), frag))
  {
    var rest := q + Marked(HASH, frag);
    CutFragmentText(frag);
    CharsFree(path, RAW_PATH_CHARS, [QUESTION, HASH]);
    SpanAppend(path, [QUESTION] + rest, [QUESTION, HASH]);
    CutParts(path, [QUESTION] + rest);
    assert (path + ([QUESTION] + rest))[|path| + 1..] == rest;
    SpanAppend(q, Marked(HASH, frag), [HASH]);
    CutParts(q, Marked(HASH, frag));
  }

  lemma TailIsRead(t: TailParts)
    requires TailFine(t)
    ensures CutTail(TailText(t)) == Ok(t)
  {
    match t.query {
      case None => CutTailText(t);
      case Some(q) =>
        QueryIsRead(t.path, q, t.fragment);
        assert TailText(t) == t.path + ([QUESTION] + (q + Marked(HASH, t.fragment)));
    }
  }

  lemma AuthorityHierIsRead(u: UrlForm, a: AuthorityForm)
    requires UrlFormOk(u) && u.authority == Some(a)
    ensures CutHier(u.scheme, FormHierText(u)) == Ok(FormParts(u))
  {
    var t := TailText(FormTail(u));
    TailIs(u);
    TailIsRead(FormTail(u));
    TailStart(FormTail(u));
    AuthorityIsRead(a);
    AuthorityFormFree(a);
    CutHierWith(u.scheme, AuthorityFormText(a), t, FormAuthority(a), FormTail(u));
    Assoc(['/' as int, '/' as int], AuthorityFormText(a), t);
  }

  lemma TailAloneIsRead(scheme: Option<bytes>, t: TailParts)
    requires TailFine(t) && !HasAuthority(t.path)
    ensures CutHier(scheme, TailText(t))
         == Ok(Parts(scheme, None, None, -1, None, t.path, t.query, t.fragment))
  {
    TailIsRead(t);
    TailStart(t);
  }

  lemma PathHierIsRead(u: UrlForm)
    requires UrlFormOk(u) && u.authority.None?
    ensures CutHier(u.scheme, FormHierText(u)) == Ok(FormParts(u))
  {
    TailIs(u);
    TailAloneIsRead(u.scheme, FormTail(u));
    assert [] + TailText(FormTail(u)) == TailText(FormTail(u));
  }

  lemma HierIsRead(u: UrlForm)
    requires UrlFormOk(u)
    ensures CutHier(u.scheme, FormHierText(u)) == Ok(FormParts(u))
  {
    match u.authority {
      case None => PathHierIsRead(u);
      case Some(a) => AuthorityHierIsRead(u, a);
    }
  }

  /** The first stop behind a segment without stops. */
  lemma StopBehind(path: bytes, rest: bytes, k: nat)
    requires k == Span(path, [SLASH]) && Free(path[..k], [COLON, SLASH, QUESTION, HASH])
    requires rest != [] ==> rest[0] in [QUESTION, HASH]
    ensures Span(path + rest, [COLON, SLASH, QUESTION, HASH]) == k
    ensures k < |path + rest| ==> (path + rest)[k] != COLON
  {
    SpanStops(path, [SLASH]);
    assert (path + rest)[..k] == path[..k];
    SpanUnique(path + rest, [COLON, SLASH, QUESTION, HASH], k);
  }

  lemma TailWithoutColon(tail: TailParts)
    requires TailFine(tail) && ColonSafe(tail.path)
    ensures var r := TailText(tail); var p := Span(r, [COLON, SLASH, QUESTION, HASH]); p < |r| ==> r[p] != COLON
  {
    var rest := Marked(QUESTION, tail.query) + Marked(HASH, tail.fragment);
    FirstSegmentFree(tail.path, Span(tail.path, [SLASH]));
    StopBehind(tail.path, rest, Span(tail.path, [SLASH]));
    assert TailText(tail) == tail.path + rest;
  }

  lemma SchemelessIsRead(u: UrlForm)
    requires UrlFormOk(u) && u.scheme.None?
    ensures CutUrl(FormHierText(u)) == CutHier(None, FormHierText(u))
  {
    TailIs(u);
    if u.authority.None? {
      assert [] + TailText(FormTail(u)) == TailText(FormTail(u));
      TailWithoutColon(FormTail(u));
    }
  }

  /** Every form is cut into the parts it is made of. */
  lemma FormIsRead(u: UrlForm)
    requires UrlFormOk(u)
    ensures CutUrl(UrlFormText(u)) == Ok(FormParts(u))
  {
    HierIsRead(u);
    match u.scheme {
      case None =>
        assert [] + FormHierText(u) == FormHierText(u);
        SchemelessIsRead(u);
      case Some(x) =>
        SchemeIs(x);
        CutWithScheme(x, FormHierText(u));
        Assoc(x, [COLON], FormHierText(u));
    }
  }

  // ----- nothing else is read -----

  lemma FragmentIs(r: bytes)
    requires CutFragment(r).Ok? && (r != [] ==> r[0] == HASH)
    ensures r == Marked(HASH, CutFragment(r).value)
    ensures CutFragment(r).value.Some? ==> AllChars(CutFragment(r).value.value, RAW_QUERY_CHARS)
  {
  }

  lemma QueryJoins(r: bytes, p: nat, q: nat, frag: Option<bytes>)
    requires p < |r| && r[p] == QUESTION && q <= |r| - (p + 1) && r[p + 1..][q..] == Marked(HASH, frag)
    ensures r == TailText(TailParts(r[..p], Some(r[p + 1..][..q]), frag))
  {
    assert r == r[..p] + ([r[p]] + r[p + 1..]);
    assert r[p + 1..] == r[p + 1..][..q] + r[p + 1..][q..];
  }

  lemma TailIsWritten(r: bytes)
    requires CutTail(r).Ok?
    ensures TailFine(CutTail(r).value) && r == TailText(CutTail(r).value)
  {
    var p := Span(r, [QUESTION, HASH]);
    SpanStops(r, [QUESTION, HASH]);
    if p < |r| && r[p] == QUESTION {
      var rest := r[p + 1..];
      var q := Span(rest, [HASH]);
      SpanStops(rest, [HASH]);
      FragmentIs(rest[q..]);
      QueryJoins(r, p, q, CutFragment(rest[q..]).value);
    } else {
      FragmentIs(r[p..]);
      assert r == r[..p] + [] + r[p..];
    }
  }

  lemma PortOrJunk(r: bytes) returns (junk: bytes)
    requires CutPort(r).Ok?
    ensures var port := CutPort(r).value;
      r == junk + Behind(':', port) && (port.Some? ==> IsPort(port.value))
      && (junk != [] ==> junk[0] != ':' as int && port.None?)
  {
    junk := if CutPort(r).value.Some? then [] else r;
    assert r == junk + Behind(':', CutPort(r).value);
  }

  lemma LiteralIsForm(l: bytes, junk: bytes) returns (h: HostForm)
    requires CutLiteral(l).Ok?
    ensures HostFormOk(h) && !h.Name? && Junk(h) == junk && (HostFormVersion(h), h.text) == CutLiteral(l).value
    ensures HostFormText(h) == [OPEN] + (l + ([CLOSE] + junk))
  {
    if l != [] && l[0] == LETTER_V {
      h := Future(l[1], l[3..], junk);
      AllIs(l[3..]);
      assert l == ['v' as int, l[1], '.' as int] + l[3..];
    } else {
      h := Address(l, junk);
    }
  }

  lemma NameChars(t: bytes)
    requires NameVersion(t).Ok?
    ensures All(t, "")
  {
    AllIs(t);
    if Ipv4Chars(t) {
      forall c | c in t ensures Plainly(c) {
      }
    }
  }

  /** A host and port text, and what it is cut into. */
  predicate HostAs(h: bytes, f: HostForm, a: AuthorityParts) {
    && HostFormOk(f) && a == AuthorityParts(None, f.text, HostFormVersion(f), a.port)
    && h == HostFormText(f) + Behind(':', a.port) && (a.port.Some? ==> IsPort(a.port.value))
    && (Junk(f) != [] ==> Junk(f)[0] != ':' as int && a.port.None?)
  }

  lemma BracketCut(h: bytes) returns (l: bytes, rest: bytes)
    requires h != [] && h[0] == OPEN && CutHost(h).Ok?
    ensures h == [OPEN] + (l + ([CLOSE] + rest)) && CutLiteral(l).Ok? && CutPort(rest).Ok?
    ensures CutHost(h).value
         == AuthorityParts(None, CutLiteral(l).value.1, CutLiteral(l).value.0, CutPort(rest).value)
  {
    var k := Span(h[1..], [CLOSE]);
    SpanStops(h[1..], [CLOSE]);
    l, rest := h[1..][..k], h[1..][k + 1..];
    assert h[1..] == l + ([CLOSE] + rest);
    assert h == [OPEN] + h[1..];
  }

  lemma BracketIsForm(h: bytes) returns (f: HostForm)
    requires h != [] && h[0] == OPEN && CutHost(h).Ok?
    ensures HostAs(h, f, CutHost(h).value)
  {
    var l, rest := BracketCut(h);
    var junk := PortOrJunk(rest);
    f := LiteralIsForm(l, junk);
    BracketText(l, junk, Behind(':', CutPort(rest).value));
  }

  lemma NameCut(h: bytes) returns (t: bytes, rest: bytes)
    requires (h == [] || h[0] != OPEN) && CutHost(h).Ok?
    ensures h == t + rest && (rest != [] ==> rest[0] == COLON) && NameVersion(t).Ok? && CutPort(rest).Ok?
    ensures CutHost(h).value == AuthorityParts(None, t, NameVersion(t).value, CutPort(rest).value)
  {
    var k := Span(h, [COLON]);
    SpanStops(h, [COLON]);
    t, rest := h[..k], h[k..];
  }

  lemma NameIsForm(h: bytes) returns (f: HostForm)
    requires (h == [] || h[0] != OPEN) && CutHost(h).Ok?
    ensures HostAs(h, f, CutHost(h).value)
  {
    var t, rest := NameCut(h);
    var junk := PortOrJunk(rest);
    f := Name(t);
    NameChars(t);
    VersionIs(t);
    assert junk == [] && [] + Behind(':', CutPort(rest).value) == Behind(':', CutPort(rest).value);
  }

  lemma JunkFree(h: HostForm, s: bytes, q: bytes)
    requires Free(HostFormText(h) + s, q)
    ensures Free(Junk(h), q)
  {
    FreeConcat(HostFormText(h), s, q);
    match h {
      case Name(_) =>
      case Address(t, j) =>
        forall c | c in j ensures c in HostFormText(h) {
        }
      case Future(d, t, j) =>
        forall c | c in j ensures c in HostFormText(h) {
        }
    }
  }

  lemma HostIsForm(h: bytes) returns (f: HostForm)
    requires CutHost(h).Ok?
    ensures HostAs(h, f, CutHost(h).value)
  {
    if h != [] && h[0] == OPEN {
      f := BracketIsForm(h);
    } else {
      f := NameIsForm(h);
    }
  }

  lemma FormWithUser(h: bytes, f: HostForm, parts: AuthorityParts, user: Option<bytes>) returns (a: AuthorityForm)
    requires HostAs(h, f, parts) && Free(h, [SLASH, QUESTION, HASH])
    requires if user.Some? then All(user.value, ":") else Free(h, [AT])
    ensures AuthorityFormOk(a) && a.user == user && FormAuthority(a) == parts.(user := user)
    ensures h == HostFormText(a.host) + Behind(':', a.port)
  {
    a := AuthorityForm(user, f, parts.port);
    if a.port.Some? {
      PortIs(a.port.value);
    }
    JunkFree(f, Behind(':', a.port), [SLASH, QUESTION, HASH]);
    if user.None? {
      JunkFree(f, Behind(':', a.port), [AT]);
    }
  }

  lemma UserCut(s: bytes) returns (u: bytes, h: bytes)
    requires CutAuthority(s).Ok? && Span(s, [AT]) < |s|
    ensures s == u + ([AT] + h) && AllChars(u, USER_CHARS) && CutHost(h).Ok?
    ensures CutAuthority(s).value == CutHost(h).value.(user := Some(u))
  {
    var k := Span(s, [AT]);
    SpanStops(s, [AT]);
    u, h := s[..k], s[k + 1..];
  }

  lemma AuthorityIsForm(s: bytes) returns (a: AuthorityForm)
    requires CutAuthority(s).Ok? && Free(s, [SLASH, QUESTION, HASH])
    ensures AuthorityFormOk(a) && FormAuthority(a) == CutAuthority(s).value && s == AuthorityFormText(a)
  {
    if Span(s, [AT]) == |s| {
      SpanStops(s, [AT]);
      assert s[..|s|] == s && [] + s == s;
      var f := HostIsForm(s);
      a := FormWithUser(s, f, CutHost(s).value, None);
    } else {
      var u, h := UserCut(s);
      AllIs(u);
      FreeConcat(u, [AT] + h, [SLASH, QUESTION, HASH]);
      FreeConcat([AT], h, [SLASH, QUESTION, HASH]);
      var f := HostIsForm(h);
      a := FormWithUser(h, f, CutHost(h).value, Some(u));
      Assoc(u, [AT], h);
    }
  }

  /** The parts of a tail, as part of a form. */
  lemma TailForm(t: TailParts, u: UrlForm)
    requires TailFine(t) && FormTail(u) == t
    ensures All(u.path, ":@/%") && (u.query.Some? ==> '#' as int !in u.query.value)
    ensures u.fragment.Some? ==> All(u.fragment.value, ":@/?%")
    ensures TailText(t) == u.path + Behind('?', u.query) + Behind('#', u.fragment)
  {
    AllIs(u.path);
    MarksAre(u.query);
    MarksAre(u.fragment);
    if u.fragment.Some? {
      AllIs(u.fragment.value);
    }
  }

  /** What stands behind the scheme, and the form it has. */
  predicate HierAs(scheme: Option<bytes>, r: bytes, u: UrlForm) {
    && UrlFormOk(u) && u.scheme == scheme && r == FormHierText(u)
    && CutHier(scheme, r) == Ok(FormParts(u))
  }

  lemma AuthorityCut(scheme: Option<bytes>, r: bytes) returns (s: bytes, rest: bytes)
    requires CutHier(scheme, r).Ok? && HasAuthority(r)
    ensures r == [SLASH, SLASH] + s + rest && Free(s, [SLASH, QUESTION, HASH])
    ensures rest != [] ==> rest[0] in [SLASH, QUESTION, HASH]
    ensures CutAuthority(s).Ok? && CutTail(rest).Ok?
    ensures var auth, tail := CutAuthority(s).value, CutTail(rest).value;
      CutHier(scheme, r).value
      == Parts(scheme, auth.user, Some(auth.host), auth.ipv, auth.port, tail.path, tail.query, tail.fragment)
  {
    var k := Span(r[2..], [SLASH, QUESTION, HASH]);
    SpanStops(r[2..], [SLASH, QUESTION, HASH]);
    s, rest := r[2..][..k], r[2..][k..];
    assert r[2..] == s + rest;
    assert r == [SLASH, SLASH] + s + rest;
  }

  lemma PathStop(path: bytes, p: nat)
    requires AllChars(path, RAW_PATH_CHARS) && p < |path|
    ensures path[p] != QUESTION && path[p] != HASH
  {
    assert path[p] in path;
  }

  lemma SlashAhead(t: TailParts)
    requires TailFine(t) && (TailText(t) != [] ==> TailText(t)[0] in [SLASH, QUESTION, HASH])
    ensures t.path != [] ==> t.path[0] == SLASH
  {
    TailStart(t);
    if t.path != [] {
      PathStop(t.path, 0);
    }
  }

  lemma AuthorityJoin(scheme: Option<bytes>, a: AuthorityForm, t: TailParts) returns (u: UrlForm)
    requires AuthorityFormOk(a) && TailFine(t) && (t.path != [] ==> t.path[0] == SLASH)
    requires scheme.Some? ==> SchemeFormOk(scheme.value)
    ensures u == UrlForm(scheme, Some(a), t.path, t.query, t.fragment) && UrlFormOk(u)
    ensures FormHierText(u) == [SLASH, SLASH] + AuthorityFormText(a) + TailText(t)
  {
    u := UrlForm(scheme, Some(a), t.path, t.query, t.fragment);
    TailForm(t, u);
  }

  lemma AuthorityHierIsForm(scheme: Option<bytes>, r: bytes) returns (u: UrlForm)
    requires CutHier(scheme, r).Ok? && HasAuthority(r) && (scheme.Some? ==> SchemeFormOk(scheme.value))
    ensures HierAs(scheme, r, u)
  {
    var s, rest := AuthorityCut(scheme, r);
    var a := AuthorityIsForm(s);
    TailIsWritten(rest);
    SlashAhead(CutTail(rest).value);
    u := AuthorityJoin(scheme, a, CutTail(rest).value);
  }

  lemma PathHierIsForm(scheme: Option<bytes>, r: bytes) returns (u: UrlForm)
    requires CutHier(scheme, r).Ok? && !HasAuthority(r) && (scheme.Some? ==> SchemeFormOk(scheme.value))
    requires scheme.None? ==>
      var p := Span(r, [COLON, SLASH, QUESTION, HASH]); p < |r| ==> r[p] != COLON
    ensures HierAs(scheme, r, u)
  {
    TailIsWritten(r);
    var t := CutTail(r).value;
    u := UrlForm(scheme, None, t.path, t.query, t.fragment);
    TailForm(t, u);
    TailStart(t);
    assert [] + r == r;
    if scheme.None? {
      NoColonAhead(t, r);
    }
  }

  lemma InFirstSegment(path: bytes, p: nat)
    requires AllChars(path, RAW_PATH_CHARS) && p < Span(path, [SLASH])
    ensures path[p] !in [SLASH, QUESTION, HASH]
  {
    PathStop(path, p);
    SpanStops(path, [SLASH]);
    assert path[p] in path[..Span(path, [SLASH])];
  }

  lemma PrefixFree(r: bytes, p: nat, path: bytes, k: nat)
    requires k <= p <= |r| && k <= |path| && path <= r && Free(r[..p], [COLON, SLASH, QUESTION, HASH])
    ensures COLON !in path[..k]
  {
    assert r[..p] == path[..k] + r[k..p];
    FreeConcat(path[..k], r[k..p], [COLON, SLASH, QUESTION, HASH]);
  }

  lemma NoColonAhead(t: TailParts, r: bytes)
    requires TailFine(t) && r == TailText(t)
    requires var p := Span(r, [COLON, SLASH, QUESTION, HASH]); p < |r| ==> r[p] != COLON
    ensures COLON !in t.path[..Span(t.path, [SLASH])]
  {
    var p, k := Span(r, [COLON, SLASH, QUESTION, HASH]), Span(t.path, [SLASH]);
    SpanStops(r, [COLON, SLASH, QUESTION, HASH]);
    assert t.path <= r;
    if p < k {
      InFirstSegment(t.path, p);
    }
    PrefixFree(r, p, t.path, k);
  }

  lemma SchemeCut(s: bytes) returns (x: bytes, r: bytes)
    requires CutUrl(s).Ok?
    requires var p := Span(s, [COLON, SLASH, QUESTION, HASH]); p < |s| && s[p] == COLON
    ensures SchemeFormOk(x) && s == x + ([COLON] + r) && CutUrl(s) == CutHier(Some(x), r)
  {
    var p := Span(s, [COLON, SLASH, QUESTION, HASH]);
    x, r := s[..p], s[p + 1..];
    SchemeIs(x);
  }

  lemma HierIsForm(scheme: Option<bytes>, r: bytes) returns (u: UrlForm)
    requires CutHier(scheme, r).Ok? && (scheme.Some? ==> SchemeFormOk(scheme.value))
    requires scheme.None? ==>
      var p := Span(r, [COLON, SLASH, QUESTION, HASH]); p < |r| ==> r[p] != COLON
    ensures HierAs(scheme, r, u)
  {
    if HasAuthority(r) {
      u := AuthorityHierIsForm(scheme, r);
    } else {
      u := PathHierIsForm(scheme, r);
    }
  }

  lemma CutIsForm(s: bytes) returns (u: UrlForm)
    requires CutUrl(s).Ok?
    ensures CutAs(s, u, CutUrl(s).value)
  {
    var p := Span(s, [COLON, SLASH, QUESTION, HASH]);
    if p < |s| && s[p] == COLON {
      var x, r := SchemeCut(s);
      u := HierIsForm(Some(x), r);
      Assoc(x, [COLON], r);
    } else {
      u := HierIsForm(None, s);
      assert [] + s == s;
    }
  }

  /** A text of the grammar with its parts. */
  predicate CutAs(s: bytes, u: UrlForm, p: Parts) {
    UrlFormOk(u) && s == UrlFormText(u) && p == FormParts(u)
  }

  /** The parser cuts exactly the texts of the grammar, into the parts they are made of. */
  lemma CutExactly(s: bytes, p: Parts)
    ensures CutUrl(s) == Ok(p) <==> exists u :: CutAs(s, u, p)
  {
    if CutUrl(s) == Ok(p) {
      var u := CutIsForm(s);
    }
    if u :| CutAs(s, u, p) {
      FormIsRead(u);
    }
  }
}
