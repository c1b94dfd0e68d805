/** Where the obvious claims about URLs fail, and exactly when they hold. */
module UrlEdges {
  import opened Bytes
  import opened UrlChars
  import opened PercentCoding
  import opened Ipv6Text
  import opened Ipv6Normal
  import opened Ipv6Normalizer
  import opened Segments
  import opened UrlFixpoint
  import opened UrlModel
  import opened UrlParsed
  import opened UrlSyntax
  import opened UrlWriting
  import opened Wrappers
  import UrlPath

  // ----- user info set from outside -----

  /** Encoded user info consists of user characters only if nothing had to be escaped. */
  lemma {:induction false} EncodedUserIsPlain(u: bytes)
    ensures AllChars(Encode(u, USER_CHARS, Plain), USER_CHARS) <==> AllChars(u, USER_CHARS)
    ensures Free(Encode(u, USER_CHARS, Plain), [AT, SLASH, QUESTION, HASH])
  {
    EncodedChars(u, USER_CHARS, Plain);
    CharsFree(Encode(u, USER_CHARS, Plain), USER_CHARS | 0x20, [AT, SLASH, QUESTION, HASH]);
    if u != [] {
      EncodedUserIsPlain(u[1..]);
      var b := EncodeByte(u[0], USER_CHARS, Plain);
      AllCharsConcat(b, Encode(u[1..], USER_CHARS, Plain), USER_CHARS);
      AllCharsConcat([u[0]], u[1..], USER_CHARS);
      assert u == [u[0]] + u[1..];
      assert b[0] in b;
    }
  }

  /** An authority whose user info holds an escape is refused. */
  lemma EscapedUserRefused(user: bytes, h: bytes)
    requires Free(user, [AT]) && !AllChars(user, USER_CHARS)
    ensures CutAuthority(user + ([AT] + h)) == Err(BadUser)
  {
    SpanAppend(user, [AT] + h, [AT]);
    CutParts(user, [AT] + h);
  }

  /** The authority text of a URL with a host, free of what would end it. */
  lemma BuiltAuthority(f: Fields)
    requires Parsed(f.(user := [])) && HostStable(f) && f.host != [] && f.user != []
    ensures var user, h := Encode(f.user, USER_CHARS, Plain), HostAndPort(f);
      AuthorityText(AuthorityOf(f).value) == user + ([AT] + h)
    ensures Free(AuthorityText(AuthorityOf(f).value), [SLASH, QUESTION, HASH])
  {
    var user, h := Encode(f.user, USER_CHARS, Plain), HostAndPort(f);
    var bare := f.(user := []);
    StableHostOk(bare);
    HostTextFree(f.ipv, f.host, AuthorityOf(f).value.port);
    FreeSubset(h, [SLASH, QUESTION, HASH], [AT, SLASH, QUESTION, HASH]);
    EncodedUserIsPlain(f.user);
    FreeSubset(user, [SLASH, QUESTION, HASH], [AT, SLASH, QUESTION, HASH]);
    assert AuthorityText(AuthorityOf(f).value) == user + ([AT] + h);
    FreeConcat(user, [AT] + h, [SLASH, QUESTION, HASH]);
    FreeConcat([AT], h, [SLASH, QUESTION, HASH]);
  }

  lemma CutHierRefused(scheme: Option<bytes>, x: bytes, t: bytes)
    requires Free(x, [SLASH, QUESTION, HASH]) && (t == [] || t[0] in [SLASH, QUESTION, HASH]) && CutAuthority(x).Err?
    ensures CutHier(scheme, [SLASH, SLASH] + (x + t)) == Err(CutAuthority(x).error)
  {
    assert ([SLASH, SLASH] + (x + t))[2..] == x + t;
    SpanAppend(x, t, [SLASH, QUESTION, HASH]);
    CutParts(x, t);
  }

  lemma EscapedUserNotCut(f: Fields)
    requires Parsed(f.(user := [])) && HostStable(f) && f.host != [] && BuildUrl(f).Ok?
    requires !AllChars(f.user, USER_CHARS)
    ensures CutUrl(BuildUrl(f).value) == Err(BadUser)
  {
    var user, h := Encode(f.user, USER_CHARS, Plain), HostAndPort(f);
    BuiltAuthority(f);
    EncodedUserIsPlain(f.user);
    FreeSubset(user, [AT], [AT, SLASH, QUESTION, HASH]);
    EscapedUserRefused(user, h);
    PathText(f.path);
    TailStart(TailOf(f).value);
    CutHierRefused(Optional(f.scheme), AuthorityText(AuthorityOf(f).value), TailText(TailOf(f).value));
    if f.scheme != [] {
      CutWithScheme(f.scheme, HierText(AuthorityOf(f), TailOf(f).value));
    }
  }

  /**
   * The builder escapes user info but the parser takes no escapes there: a URL with a stable host survives being
   * built and parsed exactly when its user info needs no escape.
   */
  lemma UserInfoSurvives(f: Fields)
    requires Parsed(f.(user := [])) && HostStable(f) && f.host != []
    requires BuildUrl(f).Ok? && |BuildUrl(f).value| <= MAX_LENGTH
    ensures ParseUrl(BuildUrl(f).value) == Ok(CanonicalFields(f)) <==> AllChars(f.user, USER_CHARS)
    ensures !AllChars(f.user, USER_CHARS) ==> ParseUrl(BuildUrl(f).value) == Err(BadUser)
  {
    if AllChars(f.user, USER_CHARS) {
      BuiltParses(f);
    } else {
      EscapedUserNotCut(f);
    }
  }

  // ----- numbers that wrap -----

  lemma ModStep(a: nat, b: nat, d: nat)
    requires b == a % 0x1_0000_0000
    ensures (b * 10 + d) % 0x1_0000_0000 == (a * 10 + d) % 0x1_0000_0000
  {
    var q := a / 0x1_0000_0000;
    assert a * 10 + d == (b * 10 + d) + (q * 10) * 0x1_0000_0000;
    ModShift(b * 10 + d, q * 10);
  }

  lemma {:induction false} ModShift(x: nat, k: nat)
    ensures (x + k * 0x1_0000_0000) % 0x1_0000_0000 == x % 0x1_0000_0000
  {
    if k > 0 {
      ModShift(x, k - 1);
    }
  }

  lemma {:induction false} WrappedIsModulo(digits: bytes)
    ensures WrappedValue(digits) == Decimal(digits) % 0x1_0000_0000
  {
    if digits != [] {
      WrappedIsModulo(digits[..|digits| - 1]);
      ModStep(Decimal(digits[..|digits| - 1]), WrappedValue(digits[..|digits| - 1]), DigitValue(digits[|digits| - 1]));
    }
  }

  lemma {:induction false} DigitRunAll(s: bytes)
    ensures DigitRun(s) == |s| <==> forall c :: c in s ==> IsDigit(c)
  {
    if s != [] {
      DigitRunAll(s[1..]);
      assert s == [s[0]] + s[1..];
    }
  }

  /** "0", or digits without a leading zero whose value modulo 2^32 is at most max. */
  predicate WrappedNumber(s: bytes, max: nat) {
    s == ['0' as int]
    || (s != [] && s[0] != '0' as int && (forall c :: c in s ==> IsDigit(c)) && Decimal(s) % 0x1_0000_0000 <= max)
  }

  /** The texts that the number scan takes whole. */
  lemma TakesWhole(s: bytes, max: nat)
    ensures s != [] && TakeUint(s, max) == |s| <==> WrappedNumber(s, max)
  {
    if s != [] {
      DigitRunAll(s);
      assert s[0] in s && s[..|s|] == s;
      WrappedIsModulo(s);
    }
  }

  /** A port is "0" or a number without a leading zero whose value modulo 2^32 is at most 65535. */
  lemma PortIsModulo(s: bytes)
    ensures IsPort(s) <==> WrappedNumber(s, 65535)
  {
    TakesWhole(s, 65535);
  }

  lemma {:induction false} DigitRunBefore(s: bytes, m: nat)
    requires m < |s| && !IsDigit(s[m])
    ensures DigitRun(s) == DigitRun(s[..m]) && s[..DigitRun(s)] == s[..m][..DigitRun(s)]
  {
    if m > 0 && IsDigit(s[0]) {
      assert s[1..][..m - 1] == s[..m][1..];
      DigitRunBefore(s[1..], m - 1);
    }
  }

  /** The number scan does not look past a byte that is no digit. */
  lemma TakeUintBefore(s: bytes, m: nat, max: nat)
    requires m < |s| && !IsDigit(s[m])
    ensures TakeUint(s, max) == TakeUint(s[..m], max)
  {
    DigitRunBefore(s, m);
  }

  /** Up to the first period stands one octet of the address, or none. */
  lemma OctetStep(s: bytes, m: nat)
    requires m == Span(s, [PERIOD])
    ensures m == |s| ==> (TakeUint(s, 255) > 0 && TakeUint(s, 255) == |s| <==> WrappedNumber(s, 255))
    ensures m < |s| ==>
      (var n := TakeUint(s, 255); n > 0 && n < |s| && s[n] == PERIOD <==> WrappedNumber(s[..m], 255))
    ensures var n := TakeUint(s, 255); m < |s| && n > 0 && n < |s| && s[n] == PERIOD ==> n == m
    ensures var n := TakeUint(s, 255); if m == |s| then n < |s| ==> s[n] != PERIOD else n <= m
  {
    SpanStops(s, [PERIOD]);
    TakesWhole(s[..m], 255);
    assert s[..|s|] == s;
    var n := TakeUint(s, 255);
    if m < |s| {
      TakeUintBefore(s, m, 255);
    }
    if n < m {
      assert s[..m][n] == s[n];
    }
  }

  lemma {:induction false} DottedIsSplit(s: bytes, k: nat)
    requires k >= 1
    ensures DottedNumbers(s, k)
      <==> |Split(s, PERIOD)| == k && forall e :: e in Split(s, PERIOD) ==> WrappedNumber(e, 255)
    decreases k
  {
    var m := Span(s, [PERIOD]);
    OctetStep(s, m);
    if m < |s| {
      var first, rest := s[..m], Split(s[m + 1..], PERIOD);
      assert first in [first] + rest && forall e :: e in [first] + rest <==> e == first || e in rest;
      if k > 1 {
        DottedIsSplit(s[m + 1..], k - 1);
      }
    }
  }

  /** An IPv4 address is four such numbers up to 255, modulo 2^32, with periods between them. */
  lemma Ipv4IsModulo(s: bytes)
    ensures ValidIpv4(s)
      <==> |Split(s, PERIOD)| == 4 && forall e :: e in Split(s, PERIOD) ==> WrappedNumber(e, 255)
  {
    DottedIsSplit(s, 4);
  }

  /** "4294967376", which is 2^32 + 80. */
  const WRAPPED_PORT: bytes := [0x34, 0x32, 0x39, 0x34, 0x39, 0x36, 0x37, 0x33, 0x37, 0x36]

  lemma DecimalSnoc(s: bytes, n: nat, v: nat)
    requires n < |s| && Decimal(s[..n]) == v
    ensures Decimal(s[..n + 1]) == v * 10 + DigitValue(s[n])
  {
    assert s[..n + 1][..n] == s[..n];
  }

  /** Five more digits. */
  lemma FiveDigits(s: bytes, n: nat, v: nat)
    requires n + 5 <= |s| && Decimal(s[..n]) == v
    ensures Decimal(s[..n + 5]) == v * 100000 + DigitValue(s[n]) * 10000 + DigitValue(s[n + 1]) * 1000
      + DigitValue(s[n + 2]) * 100 + DigitValue(s[n + 3]) * 10 + DigitValue(s[n + 4])
  {
    DecimalSnoc(s, n, v);
    DecimalSnoc(s, n + 1, Decimal(s[..n + 1]));
    DecimalSnoc(s, n + 2, Decimal(s[..n + 2]));
    DecimalSnoc(s, n + 3, Decimal(s[..n + 3]));
    DecimalSnoc(s, n + 4, Decimal(s[..n + 4]));
  }

  lemma WrappedPortValue()
    ensures Decimal(WRAPPED_PORT) == 0x1_0000_0000 + 80
  {
    assert WRAPPED_PORT[..0] == [] && WRAPPED_PORT[..10] == WRAPPED_PORT;
    FiveDigits(WRAPPED_PORT, 0, 0);
    FiveDigits(WRAPPED_PORT, 5, 42949);
  }

  lemma ModularPort(s: bytes)
    requires s != [] && s[0] != '0' as int && (forall c :: c in s ==> IsDigit(c)) && Decimal(s) == 0x1_0000_0000 + 80
    ensures IsPort(s)
  {
    PortIsModulo(s);
  }

  lemma WrappedPortDigits()
    ensures WRAPPED_PORT != [] && WRAPPED_PORT[0] != '0' as int && forall c :: c in WRAPPED_PORT ==> IsDigit(c)
  {
  }

  /** It passes for a port, being 80 modulo 2^32. */
  lemma WrappedPortAccepted()
    ensures Decimal(WRAPPED_PORT) == 0x1_0000_0000 + 80 && IsPort(WRAPPED_PORT)
  {
    WrappedPortValue();
    WrappedPortDigits();
    ModularPort(WRAPPED_PORT);
  }

  // ----- the zero address -----

  /** "0::". */
  const ZERO_ELIDED: bytes := [0x30, COLON, COLON]

  lemma ZeroElidedDenotes()
    ensures Rfc4291(ZERO_ELIDED) && Denote(ZERO_ELIDED) == Zeros(8) && PERIOD !in ZERO_ELIDED
  {
    var g: bytes := [0x30];
    assert ElidedAt(ZERO_ELIDED, 1) by {
      assert ZERO_ELIDED[..1] == g && ZERO_ELIDED[3..] == [];
      SplitWhole(g, COLON);
    }
    ElidedUnique(ZERO_ELIDED, 1);
    assert ZERO_ELIDED[..1] == g && ZERO_ELIDED[3..] == [];
    SplitWhole(g, COLON);
    assert g[..0] == [] && HexNumber(g) == 0;
    assert Spread([g], []) == Zeros(8);
  }

  /** "//[0::]" is accepted, but what is built from it is not. */
  lemma ZeroAddressIsLost()
    ensures var s := UrlText(None, Some(AuthorityParts(None, ZERO_ELIDED, 6, None)), TailParts([], None, None));
      var f := EMPTY.(host := [COLON], ipv := 6);
      && ParseUrl(s) == Ok(f) && !HostStable(f)
      && BuildUrl(f).Ok? && ParseUrl(BuildUrl(f).value) != Ok(f)
  {
    var auth, tail := AuthorityParts(None, ZERO_ELIDED, 6, None), TailParts([], None, None);
    var s := UrlText(None, Some(auth), tail);
    var f := EMPTY.(host := [COLON], ipv := 6);
    ZeroElidedDenotes();
    CutUrlText(None, Some(auth), tail);
    ZeroHost();
    assert DecodeParts(PartsOf(None, Some(auth), tail)) == Ok(f);
    ParseUrlProps(s);
    UnstableDiffers(f);
  }

  lemma ZeroHost()
    ensures HostPart(6, Some(ZERO_ELIDED)) == Ok([COLON])
    ensures UrlPath.Normalize([]) == []
  {
    ZeroElidedDenotes();
    RecogniserIsGrammar(ZERO_ELIDED);
    NormalTextIsCanonical(ZERO_ELIDED);
    DecodeIdentity(ZERO_ELIDED);
  }
}
