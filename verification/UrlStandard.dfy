/** What the URL codec reads and writes, told in the characters of RFC 3986 and not in the codec's own constants. */
module UrlStandard {
  import opened Bytes
  import opened Ipv6Normalizer
  import opened Ipv6Text
  import opened PercentCoding
  import opened Segments
  import opened UrlChars
  import opened UrlEdges
  import opened UrlFixpoint
  import opened UrlModel
  import opened UrlObject
  import opened UrlParsed
  import opened UrlQuery
  import opened UrlSyntax
  import opened UrlWriting
  import opened Wrappers
  import UrlPath

  // ----- characters -----

  /** Unreserved characters and sub-delims (section 2 of RFC 3986). */
  predicate Plainly(c: byte) {
    'a' as int <= c <= 'z' as int || 'A' as int <= c <= 'Z' as int || '0' as int <= c <= '9' as int
    || c as char in "-._~!$&'()*+,;="
  }

  /** The table's classes: which characters stand for themselves in each part, and which may be read there. */
  lemma MasksAreRfc3986(c: byte)
    ensures IsChar(c, REG_NAME_CHARS) <==> Plainly(c)
    ensures IsChar(c, USER_CHARS) <==> Plainly(c) || c as char in ":"
    ensures IsChar(c, PATH_CHARS) <==> Plainly(c) || c as char in ":@/"
    ensures IsChar(c, RAW_PATH_CHARS) <==> Plainly(c) || c as char in ":@/%"
    ensures IsChar(c, QUERY_CHARS) <==> Plainly(c) || c as char in ":@/?"
    ensures IsChar(c, RAW_QUERY_CHARS) <==> Plainly(c) || c as char in ":@/?%"
  {
  }

  /** '%' and the two upper-case hexadecimal digits of a byte (section 2.1). */
  function Percented(c: byte): bytes {
    ['%' as int, "0123456789ABCDEF"[c / 16] as int, "0123456789ABCDEF"[c % 16] as int]
  }

  lemma EscapeIsPercented(c: byte)
    ensures Escape(c) == Percented(c)
  {
  }

  /** What the encoders write for one byte. */
  lemma EncodeByteIs(c: byte, mask: Mask)
    ensures EncodeByte(c, mask, Plain) == if IsChar(c, mask) then [c] else Percented(c)
    ensures EncodeByte(c, mask, Key)
         == if c == ' ' as int then ['+' as int]
            else if c as char in "+=&;" || !IsChar(c, mask) then Percented(c) else [c]
    ensures EncodeByte(c, mask, Val)
         == if c == ' ' as int then ['+' as int]
            else if c as char in "+&;" || !IsChar(c, mask) then Percented(c) else [c]
  {
    EscapeIsPercented(c);
  }

  /** Coding works byte by byte: a byte's text stands where the byte stood. */
  lemma {:induction false} EncodeAt(u: bytes, c: byte, v: bytes, mask: Mask, f: Flavour)
    ensures Encode(u + ([c] + v), mask, f) == Encode(u, mask, f) + (EncodeByte(c, mask, f) + Encode(v, mask, f))
  {
    if u == [] {
      assert [] + ([c] + v) == [c] + v && ([c] + v)[1..] == v;
      assert [] + (EncodeByte(c, mask, f) + Encode(v, mask, f)) == EncodeByte(c, mask, f) + Encode(v, mask, f);
    } else {
      EncodeAt(u[1..], c, v, mask, f);
      assert (u + ([c] + v))[1..] == u[1..] + ([c] + v);
      Assoc(EncodeByte(u[0], mask, f), Encode(u[1..], mask, f), EncodeByte(c, mask, f) + Encode(v, mask, f));
    }
  }

  /** Lower-casing moves exactly the capital letters, each to its small one. */
  lemma LowerIs(s: bytes, i: nat)
    requires i < |s|
    ensures Lower(s)[i] == if 'A' as int <= s[i] <= 'Z' as int then s[i] - 'A' as int + 'a' as int else s[i]
  {
  }

  // ----- the whole text -----

  function HostLiteral(ipv: IpVersion, host: bytes): bytes {
    if ipv == 0 || ipv == 4 then host
    else if ipv == 6 then ['[' as int] + host + [']' as int]
    else ['[' as int, 'v' as int] + VersionText(ipv) + ['.' as int] + host + [']' as int]
  }

  /** http implies port 80 and https port 443. */
  predicate Implied(scheme: bytes, port: bytes) {
    (scheme == Ascii("http") && port == Ascii("80")) || (scheme == Ascii("https") && port == Ascii("443"))
  }

  lemma ImpliedIsDefault(scheme: bytes, port: bytes)
    ensures DefaultPort(scheme, port) <==> Implied(scheme, port)
  {
    assert Ascii("http") == ['h' as int, 't' as int, 't' as int, 'p' as int];
    assert Ascii("https") == ['h' as int, 't' as int, 't' as int, 'p' as int, 's' as int];
    assert Ascii("80") == ['8' as int, '0' as int];
    assert Ascii("443") == ['4' as int, '4' as int, '3' as int];
  }

  function AuthorityLiteral(f: Fields): bytes {
    if f.host == [] then []
    else
      ['/' as int, '/' as int]
      + (if f.user == [] then [] else Encode(f.user, USER_CHARS, Plain) + ['@' as int])
      + HostLiteral(f.ipv, f.host)
      + if f.port == [] || Implied(f.scheme, f.port) then [] else [':' as int] + f.port
  }

  function EntryLiteral(e: KeyVal): bytes {
    Encode(e.key, QUERY_CHARS, Key) + if e.val == [] then [] else ['=' as int] + Encode(e.val, QUERY_CHARS, Val)
  }

  function QueryLiteral(list: seq<KeyVal>): bytes {
    if list == [] then []
    else EntryLiteral(list[0]) + if |list| == 1 then [] else ['&' as int] + QueryLiteral(list[1..])
  }

  function TailLiteral(f: Fields): bytes {
    Encode(f.path, PATH_CHARS, Plain)
    + (if f.query == [] then [] else ['?' as int] + QueryLiteral(f.query))
    + if f.fragment == [] then [] else ['#' as int] + Encode(f.fragment, QUERY_CHARS, Plain)
  }

  lemma {:induction false} QueryIsLiteral(list: seq<KeyVal>)
    requires Keyed(list)
    ensures BuildQuery(list) == Some(QueryLiteral(list))
  {
    if |list| > 1 {
      assert forall e :: e in list[1..] ==> e in list;
      assert list[0] in list;
      QueryIsLiteral(list[1..]);
      Assoc(EntryLiteral(list[0]), ['&' as int], QueryLiteral(list[1..]));
    } else if |list| == 1 {
      assert list[0] in list;
      assert EntryLiteral(list[0]) + [] == EntryLiteral(list[0]);
    }
  }

  lemma TailIsLiteral(f: Fields)
    requires Keyed(f.query)
    ensures TailOf(f).Some? && TailText(TailOf(f).value) == TailLiteral(f)
  {
    QueryRoundTrip(f.query);
    QueryIsLiteral(f.query);
  }

  lemma HostIsLiteral(ipv: IpVersion, host: bytes)
    ensures HostText(ipv, host) == HostLiteral(ipv, host)
  {
    if ipv != 0 && ipv != 4 && ipv != 6 {
      assert [OPEN] + ([LETTER_V] + VersionText(ipv) + [PERIOD] + host) + [CLOSE]
          == [OPEN, LETTER_V] + VersionText(ipv) + [PERIOD] + host + [CLOSE];
    }
  }

  lemma AuthorityIsLiteral(f: Fields)
    requires f.host != []
    ensures [SLASH, SLASH] + AuthorityText(AuthorityOf(f).value) == AuthorityLiteral(f)
  {
    ImpliedIsDefault(f.scheme, f.port);
    HostIsLiteral(f.ipv, f.host);
    var user := UserText(AuthorityOf(f).value.user);
    var host, port := HostText(f.ipv, f.host), Marked(COLON, AuthorityOf(f).value.port);
    assert [SLASH, SLASH] + (user + (host + port)) == [SLASH, SLASH] + user + host + port;
  }

  lemma HierIsLiteral(f: Fields)
    requires Keyed(f.query)
    ensures TailOf(f).Some? && HierText(AuthorityOf(f), TailOf(f).value) == AuthorityLiteral(f) + TailLiteral(f)
  {
    TailIsLiteral(f);
    if f.host != [] {
      AuthorityIsLiteral(f);
      Assoc([SLASH, SLASH], AuthorityText(AuthorityOf(f).value), TailLiteral(f));
    } else {
      assert [] + TailLiteral(f) == TailLiteral(f);
    }
  }

  lemma BuiltParts(f: Fields)
    requires BuildUrl(f).Ok?
    ensures Keyed(f.query) && TailOf(f).Some?
    ensures BuildUrl(f).value == UrlText(Optional(f.scheme), AuthorityOf(f), TailOf(f).value)
  {
    BuildQueryDefined(f.query);
  }

  /** What build_url writes: scheme, authority, path, query and fragment with their separators. */
  lemma BuiltText(f: Fields)
    requires BuildUrl(f).Ok?
    ensures BuildUrl(f).value
         == (if f.scheme == [] then [] else f.scheme + [':' as int]) + (AuthorityLiteral(f) + TailLiteral(f))
  {
    BuiltParts(f);
    HierIsLiteral(f);
    var rest := AuthorityLiteral(f) + TailLiteral(f);
    if f.scheme == [] {
      assert [] + rest == rest;
    } else {
      Assoc(f.scheme, [':' as int], rest);
    }
  }

  /** When build_url throws. */
  lemma BuildRefuses(f: Fields)
    ensures BuildUrl(f).Ok? <==>
      && Keyed(f.query)
      && (f.host == [] ==> f.user == [] && f.port == [] && Free(f.path[..Span(f.path, ['/' as int])], [':' as int]))
      && (f.host != [] ==> f.path == [] || f.path[0] == '/' as int)
  {
    BuildQueryDefined(f.query);
  }

  // ----- reading a query -----

  /** The pieces of a query between '&' and ';'. */
  function QueryPieces(q: bytes): (ps: seq<bytes>)
    ensures |ps| >= 1
  {
    if q == [] then [[]]
    else
      var ps := QueryPieces(q[1..]);
      if q[0] == '&' as int || q[0] == ';' as int then [[]] + ps else [[q[0]] + ps[0]] + ps[1..]
  }

  /** A key or value: raw query characters only, '+' a space, and whole escapes. */
  function ReadPiece(t: bytes, bad: QueryError): Result<bytes, QueryError> {
    if exists c :: c in t && !IsChar(c, RAW_QUERY_CHARS) then Err(bad)
    else match Decode(t, true) case None => Err(QueryError.BadEscape) case Some(d) => Ok(d)
  }

  /** One piece: a key, or a key and a value around the first '='. */
  function ReadEntry(t: bytes): Result<KeyVal, QueryError> {
    var k := Span(t, ['=' as int]);
    var key :- ReadPiece(t[..k], BadKey);
    if k == |t| then Ok(KeyVal(key, []))
    else
      var val :- ReadPiece(t[k + 1..], BadVal);
      Ok(KeyVal(key, val))
  }

  function ReadEntries(ps: seq<bytes>): QueryResult {
    if ps == [] then Ok([])
    else
      var e :- ReadEntry(ps[0]);
      var es :- ReadEntries(ps[1..]);
      Ok([e] + es)
  }

  /** A piece and what is behind it. */
  lemma {:induction false} PiecesCut(q: bytes)
    ensures var v := Span(q, VAL_STOPS);
      QueryPieces(q) == [q[..v]] + if v == |q| then [] else QueryPieces(q[v + 1..])
  {
    if q != [] {
      PiecesCut(q[1..]);
      var v := Span(q[1..], VAL_STOPS);
      if q[0] != '&' as int && q[0] != ';' as int {
        assert q[..v + 1] == [q[0]] + q[1..][..v];
        assert v < |q| - 1 ==> q[1..][v + 1..] == q[v + 2..];
      } else {
        assert q[..0] == [];
      }
    }
  }

  lemma KeyStops()
    ensures VAL_STOPS == [';' as int, '&' as int] && KEY_STOPS == ['=' as int] + VAL_STOPS
  {
  }

  /** The first stop of a key is the '=' of its piece, or the piece's end. */
  lemma KeyEnd(q: bytes)
    ensures var v := Span(q, VAL_STOPS); Span(q, KEY_STOPS) == Span(q[..v], ['=' as int])
  {
    var v := Span(q, VAL_STOPS);
    var piece := q[..v];
    var k := Span(piece, ['=' as int]);
    KeyStops();
    SpanStops(q, VAL_STOPS);
    SpanStops(piece, ['=' as int]);
    assert piece[..k] == q[..k];
    forall c | c in q[..k] ensures c !in KEY_STOPS {
      assert c in piece[..k] && c in piece;
    }
    SpanUnique(q, KEY_STOPS, k);
  }

  /** A value ends where its piece does. */
  lemma ValueEnd(q: bytes, k: nat)
    requires k < Span(q, VAL_STOPS)
    ensures Span(q[k + 1..], VAL_STOPS) == Span(q, VAL_STOPS) - (k + 1)
  {
    var v := Span(q, VAL_STOPS);
    SpanStops(q, VAL_STOPS);
    var t := q[k + 1..];
    assert t[..v - (k + 1)] == q[k + 1..v];
    forall c | c in q[k + 1..v] ensures c !in VAL_STOPS {
      assert c in q[..v];
    }
    SpanUnique(t, VAL_STOPS, v - (k + 1));
  }

  lemma PieceIsToken(t: bytes, bad: QueryError)
    ensures ReadPiece(t, bad) == Token(t, bad)
  {
  }

  /** What follows the piece at the front. */
  function NextPieces(q: bytes): Option<bytes> {
    var v := Span(q, VAL_STOPS); if v == |q| then None else Some(q[v + 1..])
  }

  function Paired(r: Result<bytes, QueryError>, rest: Option<bytes>): Result<(bytes, Option<bytes>), QueryError> {
    match r case Err(e) => Err(e) case Ok(val) => Ok((val, rest))
  }

  lemma ValueCut(t: bytes, n: nat)
    requires n == Span(t, VAL_STOPS)
    ensures Value(t) == Paired(Token(t[..n], BadVal), if n == |t| then None else Some(t[n + 1..]))
  {
  }

  lemma ValueIsPiece(q: bytes, k: nat, v: nat)
    requires v == Span(q, VAL_STOPS) && k < v
    ensures Value(q[k + 1..]) == Paired(Token(q[k + 1..v], BadVal), NextPieces(q))
  {
    ValueEnd(q, k);
    ValueCut(q[k + 1..], v - (k + 1));
    SuffixSlices(q, k + 1, v);
    if v < |q| {
      SuffixSlicesAround(q, k + 1, v);
    }
  }

  function EntryOf(key: Result<bytes, QueryError>, val: Result<bytes, QueryError>): Result<KeyVal, QueryError> {
    match key
    case Err(e) => Err(e)
    case Ok(k) => match val case Err(e) => Err(e) case Ok(v) => Ok(KeyVal(k, v))
  }

  function WithRest(e: Result<KeyVal, QueryError>, rest: Option<bytes>): Result<(KeyVal, Option<bytes>), QueryError> {
    match e case Err(f) => Err(f) case Ok(entry) => Ok((entry, rest))
  }

  lemma PieceEntry(t: bytes, k: nat)
    requires k == Span(t, ['=' as int])
    ensures ReadEntry(t)
         == EntryOf(Token(t[..k], BadKey), if k == |t| then Ok([]) else Token(t[k + 1..], BadVal))
  {
    PieceIsToken(t[..k], BadKey);
    if k < |t| {
      PieceIsToken(t[k + 1..], BadVal);
    }
  }

  lemma EntryWithoutValue(q: bytes, v: nat)
    requires v == Span(q, VAL_STOPS) == Span(q, KEY_STOPS)
    ensures Entry(q) == WithRest(EntryOf(Token(q[..v], BadKey), Ok([])), NextPieces(q))
  {
    SpanStops(q, VAL_STOPS);
  }

  lemma EntryWithValue(q: bytes, k: nat, v: nat)
    requires k == Span(q, KEY_STOPS) < v == Span(q, VAL_STOPS) && q[k] == '=' as int
    ensures Entry(q) == WithRest(EntryOf(Token(q[..k], BadKey), Token(q[k + 1..v], BadVal)), NextPieces(q))
  {
    ValueIsPiece(q, k, v);
  }

  lemma EntryIsPiece(q: bytes)
    ensures Entry(q) == WithRest(ReadEntry(q[..Span(q, VAL_STOPS)]), NextPieces(q))
  {
    var v := Span(q, VAL_STOPS);
    var k := Span(q[..v], ['=' as int]);
    KeyEnd(q);
    SpanStops(q[..v], ['=' as int]);
    PieceEntry(q[..v], k);
    assert q[..v][..k] == q[..k];
    if k < v {
      assert q[..v][k + 1..] == q[k + 1..v];
      EntryWithValue(q, k, v);
    } else {
      EntryWithoutValue(q, v);
    }
  }

  /**
   * The query loop reads a text as its pieces between '&' and ';', each a key, or a key and a value around the first
   * '='; the empty text has no entries.
   */
  lemma {:induction false} QueryIsPieces(q: bytes)
    ensures Entries(q) == ReadEntries(QueryPieces(q))
    ensures ParseQuery(q) == if q == [] then Ok([]) else ReadEntries(QueryPieces(q))
    decreases |q|
  {
    var v := Span(q, VAL_STOPS);
    PiecesCut(q);
    EntryIsPiece(q);
    if v < |q| {
      QueryIsPieces(q[v + 1..]);
      assert ([q[..v]] + QueryPieces(q[v + 1..]))[1..] == QueryPieces(q[v + 1..]);
    } else {
      assert [q[..v]][1..] == [];
      OneEntry(q[..v]);
    }
  }

  lemma OneEntry(t: bytes)
    ensures ReadEntries([t]) == match ReadEntry(t) case Err(e) => Err(e) case Ok(e) => Ok([e])
  {
    assert [t][1..] == [];
    if ReadEntry(t).Ok? {
      assert [ReadEntry(t).value] + [] == [ReadEntry(t).value];
    }
  }

  // ----- default ports -----

  /**
   * The port after building and parsing: lost exactly when http goes with 80 or https with 443, kept otherwise; no
   * other field changes, but for the version of a missing host.
   */
  lemma RebuiltPort(f: Fields)
    requires Parsed(f) && HostStable(f) && BuildUrl(f).Ok? && |BuildUrl(f).value| <= 8000
    ensures ParseUrl(BuildUrl(f).value)
         == Ok(f.(port := if Implied(f.scheme, f.port) then [] else f.port, ipv := if f.host == [] then -1 else f.ipv))
  {
    BuiltParses(f);
    ImpliedIsDefault(f.scheme, f.port);
  }

  // ----- the setters -----

  /** The scheme setter stores in lower case; a scheme that is really new loses the port it implies. */
  lemma SetSchemeIs(f: Fields, s: bytes)
    ensures Apply(Ok(f), SetScheme(s))
         == if !IsScheme(s) then Err(ParseFailure(BadScheme))
            else if Lower(s) == f.scheme then Ok(f)
            else Ok(f.(scheme := Lower(s), port := if Implied(Lower(s), f.port) then [] else f.port))
  {
    ImpliedIsDefault(Lower(s), f.port);
  }

  /** The port setter drops the port that the scheme implies. */
  lemma SetPortIs(f: Fields, p: bytes)
    ensures Apply(Ok(f), SetPort(p))
         == if !IsPort(p) then Err(ParseFailure(BadPort))
            else Ok(f.(port := if Implied(f.scheme, p) then [] else p))
  {
    ImpliedIsDefault(f.scheme, p);
  }

  /** The path setter stores a clean path, and any clean path as it is. */
  lemma SetPathIs(f: Fields, p: bytes)
    ensures Apply(Ok(f), SetPath(p)).Ok? <==> |p| <= 8000
    ensures |p| <= 8000 ==>
      var g := Apply(Ok(f), SetPath(p)).value;
      && g == f.(path := g.path) && UrlPath.Clean(g.path) && (UrlPath.Absolute(g.path) <==> UrlPath.Absolute(p))
      && (g.path == p <==> UrlPath.Clean(p))
  {
    UrlPath.NormalizeIsClean(p);
  }

  /** The setters of user info, fragment and query: each stores into its own field and no other. */
  lemma SettersStore(f: Fields, s: bytes, list: seq<KeyVal>, i: nat, e: KeyVal)
    ensures Apply(Ok(f), SetUser(s)) == if |s| <= 256 then Ok(f.(user := s)) else Err(ParseFailure(TooLong))
    ensures Apply(Ok(f), SetFragment(s)) == if |s| <= 256 then Ok(f.(fragment := s)) else Err(ParseFailure(TooLong))
    ensures Apply(Ok(f), SetQuery(list)) == Ok(f.(query := list))
    ensures Apply(Ok(f), AddQuery(e)) == Ok(f.(query := f.query + [e]))
    ensures Apply(Ok(f), SetQueryAt(i, e))
         == if i < |f.query| then Ok(f.(query := f.query[..i] + [e] + f.query[i + 1..])) else Err(OutOfRange)
  {
    if i < |f.query| {
      assert f.query[i := e] == f.query[..i] + [e] + f.query[i + 1..];
    }
  }

  /** Seven to 254 digits and periods. */
  predicate LooksLikeIpv4(h: bytes) {
    7 <= |h| <= 254 && forall c :: c in h ==> c as char in "0123456789."
  }

  /** Two to 254 hexadecimal digits, colons and periods. */
  predicate LooksLikeIpv6(h: bytes) {
    2 <= |h| <= 254 && forall c :: c in h ==> c as char in "0123456789abcdefABCDEF:."
  }

  lemma LooksAre(h: bytes)
    ensures LooksLikeIpv4(h) <==> Ipv4Chars(h)
    ensures LooksLikeIpv6(h) <==> Ipv6Chars(h)
    ensures (forall c :: c in h ==> Plainly(c)) <==> IsRegName(h)
  {
    forall c: byte
      ensures c as char in "0123456789." <==> c == PERIOD || IsDigit(c)
      ensures c as char in "0123456789abcdefABCDEF:." <==> c == COLON || c == PERIOD || IsHexDigit(c)
      ensures Plainly(c) <==> IsChar(c, REG_NAME_CHARS)
    {
      MasksAreRfc3986(c);
    }
  }

  /**
   * The host setter stores host and version and nothing else: an IPv4 address as it is, an IPv6 address in normal form,
   * a name in lower case, and under any version but 0, 4 and 6 a text of IPv6 characters with that version.
   */
  lemma SetHostIs(f: Fields, h: bytes, v: byte)
    ensures Apply(Ok(f), SetHost(h, v))
         == if |h| > 253 then Err(ParseFailure(TooLong))
            else if h == [] then Ok(f.(host := [], ipv := -1))
            else if LooksLikeIpv4(h) then
              (if |Split(h, '.' as int)| == 4 && forall e :: e in Split(h, '.' as int) ==> WrappedNumber(e, 255)
               then Ok(f.(host := h, ipv := 4)) else Err(ParseFailure(BadHost)))
            else if v != 0 && v != 4 && v != 6 then
              (if LooksLikeIpv6(h) then Ok(f.(host := h, ipv := if v < 128 then v else v - 256))
               else Err(ParseFailure(BadHost)))
            else if LooksLikeIpv6(h) then
              (if !ValidIpv6(h) then Err(ParseFailure(BadHost))
               else if '.' as int in h then Err(ParseFailure(UnmodelledIpv6))
               else RecogniserIsGrammar(h); Ok(f.(host := NormalText(h), ipv := 6)))
            else if forall c :: c in h ==> Plainly(c) then Ok(f.(host := Lower(h), ipv := 0))
            else Err(ParseFailure(BadHost))
  {
    LooksAre(h);
    Ipv4IsModulo(h);
  }
}
