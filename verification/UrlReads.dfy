/** What an accepted URL text means: which texts are parsed, and into which fields. */
module UrlReads {
  import opened Bytes
  import opened Ipv6Normalizer
  import opened Ipv6Text
  import opened PercentCoding
  import opened UrlGrammar
  import opened UrlModel
  import opened UrlQuery
  import opened UrlSyntax
  import opened Wrappers
  import UrlPath

  function Given(part: Option<bytes>): bytes {
    match part case None => [] case Some(t) => t
  }

  /** Names are stored in lower case, IPv6 addresses in normal form, everything else as it is written. */
  ghost predicate HostMeans(v: IpVersion, t: bytes, host: bytes) {
    if v == 0 then host == Lower(t)
    else if v == 6 then
      && 2 <= |t| <= 254 && (forall c :: c in t ==> IsHexDigit(c) || c as char in ":")
      && ValidIpv6(t) && (RecogniserIsGrammar(t); host == NormalText(t))
    else host == t
  }

  /** The fields of a form; path, query and fragment are percent-decoded. */
  ghost predicate Means(u: UrlForm, f: Fields)
    requires UrlFormOk(u)
  {
    && f.scheme == Lower(Given(u.scheme))
    && (match u.authority
        case None => f.user == [] && f.host == [] && f.ipv == -1 && f.port == []
        case Some(a) =>
          && f.user == Given(a.user) && f.port == Given(a.port) && f.ipv == HostFormVersion(a.host)
          && HostMeans(f.ipv, a.host.text, f.host))
    && (exists p :: Decode(u.path, false) == Some(p) && f.path == UrlPath.Normalize(p))
    && ParseQuery(Given(u.query)) == Ok(f.query)
    && Decode(Given(u.fragment), false) == Some(f.fragment)
  }

  // ----- parts that hold no escape -----

  lemma NoEscapes(t: bytes)
    requires All(t, ":")
    ensures Unescape(t) == Ok(t)
  {
    DecodeIdentity(t);
  }

  lemma HostTextPlain(h: HostForm)
    requires HostFormOk(h)
    ensures Unescape(h.text) == Ok(h.text)
  {
    DecodeIdentity(h.text);
  }

  lemma HostMeansNormal(v: IpVersion, t: bytes, host: bytes)
    ensures NormalHost(v, t) == Ok(host) <==> HostMeans(v, t, host)
  {
  }

  lemma EmptyDecodes()
    ensures Decode([], false) == Some([]) && ParseQuery([]) == Ok([])
  {
  }

  lemma AuthorityMeans(a: AuthorityForm, host: bytes)
    requires AuthorityFormOk(a)
    ensures UnescapePart(a.user) == Ok(Given(a.user)) && OrEmpty(a.port) == Given(a.port)
    ensures HostPart(HostFormVersion(a.host), Some(a.host.text)) == Ok(host)
      <==> HostMeans(HostFormVersion(a.host), a.host.text, host)
  {
    HostTextPlain(a.host);
    HostMeansNormal(HostFormVersion(a.host), a.host.text, host);
    if a.user.Some? {
      NoEscapes(a.user.value);
    }
  }

  /** The fields of the parts, part by part. */
  lemma PartsMean(p: Parts, f: Fields)
    ensures DecodeParts(p) == Ok(f) <==>
      && f.scheme == Lower(OrEmpty(p.scheme)) && UnescapePart(p.user) == Ok(f.user)
      && HostPart(p.ipv, p.host) == Ok(f.host) && f.ipv == p.ipv && f.port == OrEmpty(p.port)
      && Unescape(p.path).Ok? && f.path == UrlPath.Normalize(Unescape(p.path).value)
      && QueryPart(p.query) == Ok(f.query) && UnescapePart(p.fragment) == Ok(f.fragment)
  {
  }

  lemma FormMeans(u: UrlForm, f: Fields)
    requires UrlFormOk(u)
    ensures DecodeParts(FormParts(u)) == Ok(f) <==> Means(u, f)
  {
    PartsMean(FormParts(u), f);
    EmptyDecodes();
    if u.authority.Some? {
      AuthorityMeans(u.authority.value, f.host);
    }
  }

  /**
   * A text is parsed into the fields exactly when both are empty, or the text has at most 8000 bytes, is a text of the
   * grammar, and means the fields.
   */
  lemma ParseExactly(s: bytes, f: Fields)
    ensures ParseUrl(s) == Ok(f) <==>
      (s == [] && f == EMPTY) || (1 <= |s| <= 8000 && exists u :: UrlFormOk(u) && s == UrlFormText(u) && Means(u, f))
  {
    if 1 <= |s| <= 8000 {
      if ParseUrl(s) == Ok(f) {
        var u := CutIsForm(s);
        FormMeans(u, f);
      }
      if u :| UrlFormOk(u) && s == UrlFormText(u) && Means(u, f) {
        FormIsRead(u);
        FormMeans(u, f);
      }
    }
  }
}
