/** What parsing guarantees about the fields of a URL. */
module UrlParsed {
  import opened Bytes
  import opened UrlChars
  import opened PercentCoding
  import opened Ipv6Text
  import opened Ipv6Normalizer
  import opened UrlSyntax
  import opened UrlWriting
  import opened UrlModel
  import opened Wrappers
  import UrlPath

  ghost predicate ParsedHost(ipv: IpVersion, host: bytes) {
    -1 <= ipv < 16
    && (ipv == -1 ==> host == [])
    && (ipv == 0 ==> IsLower(host))
    && if ipv == 6 then host == [COLON] || (Rfc4291(host) && PERIOD !in host && NormalText(host) == host)
       else AllChars(host, USER_CHARS)
  }

  ghost predicate Parsed(f: Fields) {
    (f.scheme == [] || (IsScheme(f.scheme) && IsLower(f.scheme)))
    && AllChars(f.user, USER_CHARS)
    && ParsedHost(f.ipv, f.host)
    && (f.port == [] || IsPort(f.port))
    && UrlPath.Clean(f.path)
  }

  lemma LowerIsLower(s: bytes)
    ensures IsLower(Lower(s))
    ensures IsLower(s) ==> Lower(s) == s
  {
    assert forall i :: 0 <= i < |s| ==> s[i] in s;
  }

  lemma LowerKeepsChars(s: bytes)
    ensures AllChars(s, USER_CHARS) ==> AllChars(Lower(s), USER_CHARS)
    ensures IsRegName(s) ==> IsRegName(Lower(s))
    ensures IsScheme(s) ==> IsScheme(Lower(s))
    ensures Ipv4Chars(Lower(s)) <==> Ipv4Chars(s)
  {
    forall c | c in Lower(s) ensures exists b: byte :: b in s && c == LowerByte(b) {
      var i :| 0 <= i < |s| && Lower(s)[i] == c;
      assert s[i] in s;
    }
    forall c | c in s ensures LowerByte(c) in Lower(s) {
      var i :| 0 <= i < |s| && s[i] == c;
      assert Lower(s)[i] in Lower(s);
    }
  }

  predicate CutHostOk(ipv: IpVersion, host: bytes) {
    0 <= ipv < 16 && (AllChars(host, USER_CHARS) || (ipv == 6 && Ipv6Chars(host)))
  }

  lemma CutHostProps(h: bytes)
    ensures CutHost(h).Ok? ==>
      var a := CutHost(h).value;
      CutHostOk(a.ipv, a.host) && a.user.None? && (a.port.Some? ==> IsPort(a.port.value))
    ensures CutHost(h).Ok? && (h == [] || h[0] != OPEN) ==>
      NameVersion(CutHost(h).value.host) == Ok(CutHost(h).value.ipv)
  {
  }

  lemma CutAuthorityProps(a: bytes)
    ensures CutAuthority(a).Ok? ==>
      var r := CutAuthority(a).value;
      CutHostOk(r.ipv, r.host) && (r.user.Some? ==> AllChars(r.user.value, USER_CHARS))
      && (r.port.Some? ==> IsPort(r.port.value))
  {
    var k := Span(a, [AT]);
    CutHostProps(if k == |a| then a else a[k + 1..]);
  }

  predicate PartsOk(p: Parts) {
    (p.scheme.Some? ==> IsScheme(p.scheme.value))
    && (p.user.Some? ==> AllChars(p.user.value, USER_CHARS))
    && (p.port.Some? ==> IsPort(p.port.value))
    && (if p.host.Some? then CutHostOk(p.ipv, p.host.value) else p.ipv == -1)
  }

  lemma CutHierProps(scheme: Option<bytes>, r: bytes)
    requires scheme.Some? ==> IsScheme(scheme.value)
    ensures CutHier(scheme, r).Ok? ==> PartsOk(CutHier(scheme, r).value)
  {
    if HasAuthority(r) {
      var k := Span(r[2..], [SLASH, QUESTION, HASH]);
      CutAuthorityProps(r[2..][..k]);
    }
  }

  lemma CutUrlProps(s: bytes)
    ensures CutUrl(s).Ok? ==> PartsOk(CutUrl(s).value)
  {
    var p := Span(s, [COLON, SLASH, QUESTION, HASH]);
    CutHierProps(None, s);
    if p < |s| && IsScheme(s[..p]) {
      CutHierProps(Some(s[..p]), s[p + 1..]);
    }
  }

  lemma UnescapePlain(s: bytes, mask: Mask)
    requires AllChars(s, mask) && mask & 0x20 == 0
    ensures Unescape(s) == Ok(s)
  {
    CharsFree(s, mask, [PERCENT]);
    DecodeIdentity(s);
  }

  /** Decoding a cut host and normalising it. */
  lemma HostPartIs(ipv: IpVersion, h: bytes)
    requires CutHostOk(ipv, h)
    ensures HostPart(ipv, Some(h)) == NormalHost(ipv, h)
  {
    if AllChars(h, USER_CHARS) {
      UnescapePlain(h, USER_CHARS);
    } else {
      DecodeIdentity(h);
    }
  }

  lemma NormalHostProps(ipv: IpVersion, h: bytes)
    requires CutHostOk(ipv, h) && NormalHost(ipv, h).Ok?
    ensures ParsedHost(ipv, NormalHost(ipv, h).value)
  {
    if ipv == 0 {
      LowerIsLower(h);
      LowerKeepsChars(h);
    } else if ipv == 6 {
      RecogniserIsGrammar(h);
      NormalTextIsCanonical(h);
      if Normalizable(h) {
        NormalTextIdentifies(h, h);
      }
    }
  }

  lemma DecodePartsProps(p: Parts)
    requires PartsOk(p) && DecodeParts(p).Ok?
    ensures Parsed(DecodeParts(p).value)
  {
    if p.scheme.Some? {
      LowerIsLower(p.scheme.value);
      LowerKeepsChars(p.scheme.value);
    }
    if p.user.Some? {
      UnescapePlain(p.user.value, USER_CHARS);
    }
    if p.host.Some? {
      HostPartIs(p.ipv, p.host.value);
      NormalHostProps(p.ipv, p.host.value);
    }
    UrlPath.NormalizeIsClean(Unescape(p.path).value);
  }

  /** Every parsed URL has well-formed, normalised fields. */
  lemma ParseUrlProps(s: bytes)
    ensures ParseUrl(s).Ok? ==> Parsed(ParseUrl(s).value)
  {
    CutUrlProps(s);
    if s != [] && |s| <= MAX_LENGTH && CutUrl(s).Ok? && DecodeParts(CutUrl(s).value).Ok? {
      DecodePartsProps(CutUrl(s).value);
    }
  }
}
