/** The Url class: fields parsed on demand, a cached text, two flags, and the plain record it behaves as. */
module UrlObject {
  import opened Bytes
  import opened UrlChars
  import opened UrlQuery
  import opened Ipv6Text
  import opened Ipv6Normalizer
  import opened UrlSyntax
  import opened UrlModel
  import opened UrlParser
  import opened Wrappers
  import UrlPath

  /** What a call on a Url may throw. */
  datatype Exception = ParseFailure(parse: UrlError) | BuildFailure(build: BuildError) | OutOfRange

  /** What a Url shows: its fields, or the error every access to them raises. */
  type View = Result<Fields, UrlError>

  // ----- the record operations -----

  function NoDefaultPort(f: Fields): Fields {
    if DefaultPort(f.scheme, f.port) then f.(port := []) else f
  }

  function WithScheme(f: Fields, s: bytes): Fields {
    if Lower(s) == f.scheme then f else NoDefaultPort(f.(scheme := Lower(s)))
  }

  function WithPort(f: Fields, p: bytes): Fields {
    f.(port := if DefaultPort(f.scheme, p) then [] else p)
  }

  function WithPath(f: Fields, p: bytes): Fields {
    f.(path := UrlPath.Normalize(p))
  }

  /** An unsigned byte stored into a signed one. */
  function ToInt8(v: byte): IpVersion {
    if v < 128 then v else v - 256
  }

  /** The host setter's verdict on a text: the version and normal form to store. */
  ghost function HostToStore(h: bytes, v: byte): Result<(IpVersion, bytes), UrlError> {
    if h == [] then Ok((-1, []))
    else if Ipv4Chars(h) then (if ValidIpv4(h) then Ok((4, h)) else Err(BadHost))
    else if v != 0 && v != 4 && v != 6 then (if Ipv6Chars(h) then Ok((ToInt8(v), h)) else Err(BadHost))
    else if Ipv6Chars(h) then
      if !ValidIpv6(h) then Err(BadHost)
      else if PERIOD in h then Err(UnmodelledIpv6)
      else RecogniserIsGrammar(h); Ok((6, NormalText(h)))
    else if IsRegName(h) then Ok((0, Lower(h)))
    else Err(BadHost)
  }

  /** A text without a colon never fills eight fields. */
  lemma {:induction false} ScanNeedsColon(s: bytes, p: nat, b: nat, digits: nat)
    requires |s| >= 2 && b <= p <= |s| && COLON !in s
    ensures !Scan(s, p, b, false, 0, digits)
    decreases |s| - p
  {
    assert s[|s| - 1] in s;
    if p < |s| {
      assert s[p] in s;
      ScanNeedsColon(s, p + 1, b, digits + 1);
    }
  }

  lemma NameChars(h: bytes)
    requires IsRegName(h)
    ensures COLON !in h
  {
    assert !IsChar(COLON, REG_NAME_CHARS);
  }

  /**
   * A text that is a name to the parser is stored by the host setter as that name, unless it consists of two or more
   * hexadecimal digits and periods: those are taken for an IPv6 text, and refused.
   */
  lemma NameStored(h: bytes, v: byte)
    requires h != [] && NameVersion(h) == Ok(0) && v in {0, 4, 6}
    ensures HostToStore(h, v) == if Ipv6Chars(h) then Err(BadHost) else Ok((0, Lower(h)))
  {
    NameChars(h);
    assert h[0] in h;
    if |h| >= 2 {
      ScanNeedsColon(h, 0, 0, 0);
    }
  }

  /** The built text of what a Url shows. */
  function TextOf(v: View): Result<bytes, Exception> {
    match v
    case Err(e) => Err(ParseFailure(e))
    case Ok(f) => match BuildUrl(f) case Err(e) => Err(BuildFailure(e)) case Ok(t) => Ok(t)
  }

  function Shown(v: View): Result<Fields, Exception> {
    match v case Err(e) => Err(ParseFailure(e)) case Ok(f) => Ok(f)
  }

  /** The setters, as changes of the shown record. */
  datatype Change =
    | SetScheme(s: bytes) | SetUser(s: bytes) | SetHost(h: bytes, v: byte) | SetPort(p: bytes)
    | SetPath(p: bytes) | SetFragment(s: bytes) | SetQuery(list: seq<KeyVal>)
    | SetQueryAt(i: nat, e: KeyVal) | AddQuery(e: KeyVal)

  /** A setter's own check of its argument, made before the URL is parsed. */
  function Refusal(c: Change): Option<UrlError> {
    match c
    case SetScheme(s) => if IsScheme(s) then None else Some(BadScheme)
    case SetUser(s) => if |s| > 256 then Some(TooLong) else None
    case SetHost(h, _) => if |h| > 253 then Some(TooLong) else None
    case SetPort(p) => if IsPort(p) then None else Some(BadPort)
    case SetPath(p) => if |p| > MAX_LENGTH then Some(TooLong) else None
    case SetFragment(s) => if |s| > 256 then Some(TooLong) else None
    case _ => None
  }

  /** A setter's effect on the fields. */
  ghost function Changed(f: Fields, c: Change): Result<Fields, Exception> {
    match c
    case SetScheme(s) => Ok(WithScheme(f, s))
    case SetUser(s) => Ok(f.(user := s))
    case SetHost(h, v) =>
      (match HostToStore(h, v)
       case Err(e) => Err(ParseFailure(e))
       case Ok((ipv, host)) => Ok(f.(host := host, ipv := ipv)))
    case SetPort(p) => Ok(WithPort(f, p))
    case SetPath(p) => Ok(WithPath(f, p))
    case SetFragment(s) => Ok(f.(fragment := s))
    case SetQuery(list) => Ok(f.(query := list))
    case SetQueryAt(i, e) => if i < |f.query| then Ok(f.(query := f.query[i := e])) else Err(OutOfRange)
    case AddQuery(e) => Ok(f.(query := f.query + [e]))
  }

  /** A setter on what a Url shows: the new fields, or the exception of a call that changes nothing. */
  ghost function Apply(v: View, c: Change): Result<Fields, Exception> {
    match Refusal(c)
    case Some(e) => Err(ParseFailure(e))
    case None => match v case Err(e) => Err(ParseFailure(e)) case Ok(f) => Changed(f, c)
  }

  /** A setter call with result r takes what is shown from v to w. */
  ghost predicate Effect(v: View, c: Change, r: Result<(), Exception>, w: View) {
    match Apply(v, c)
    case Err(e) => r == Err(e) && w == v
    case Ok(f) => r == Ok(()) && w == Ok(f)
  }

  class Url {
    var mScheme: bytes
    var mUser: bytes
    var mHost: bytes
    var mIpV: IpVersion
    var mPort: bytes
    var mPath: bytes
    var mQuery: seq<KeyVal>
    var mFragment: bytes
    var mUrl: bytes
    var mParse: bool
    var mBuilt: bool

    function Stored(): Fields
      reads this
    {
      Fields(mScheme, mUser, mHost, mIpV, mPort, mPath, mQuery, mFragment)
    }

    /** A text marked as built is the text of the parsed fields. */
    ghost predicate Valid()
      reads this
    {
      mBuilt ==> mParse && BuildUrl(Stored()) == Ok(mUrl)
    }

    ghost function Show(): View
      reads this
    {
      if mParse then Ok(Stored()) else ParseUrl(mUrl)
    }

    constructor Empty()
      ensures Valid() && Show() == Ok(EMPTY)
    {
      mScheme, mUser, mHost, mPort, mPath, mQuery, mFragment, mUrl := [], [], [], [], [], [], [], [];
      mIpV, mParse, mBuilt := -1, true, true;
      new;
      EmptyBuilds();
    }

    constructor FromText(s: bytes)
      ensures Valid() && Show() == ParseUrl(s)
    {
      mScheme, mUser, mHost, mPort, mPath, mQuery, mFragment, mUrl := [], [], [], [], [], [], [], s;
      mIpV, mParse, mBuilt := -1, false, false;
    }

    constructor Copy(u: Url)
      requires u.Valid()
      ensures Valid() && Show() == u.Show()
    {
      mScheme, mUser, mHost, mPort, mPath, mQuery, mFragment, mUrl := [], [], [], [], [], [], [], [];
      mIpV, mParse, mBuilt := -1, true, false;
      new;
      Assign(u);
    }

    /** All the parsed fields at once. */
    method Store(f: Fields)
      modifies `mScheme, `mUser, `mHost, `mIpV, `mPort, `mPath, `mQuery, `mFragment
      ensures Stored() == f
    {
      mScheme, mUser, mHost, mIpV, mPort := f.scheme, f.user, f.host, f.ipv, f.port;
      mPath, mQuery, mFragment := f.path, f.query, f.fragment;
    }

    /** assign(const Url&): the cached text is taken over only where it matters, and may be stale otherwise. */
    method Assign(u: Url)
      requires u.Valid()
      modifies this
      ensures Valid() && Show() == old(u.Show())
    {
      mParse, mBuilt := u.mParse, u.mBuilt;
      if mParse {
        Store(u.Stored());
      }
      if !mParse || mBuilt {
        mUrl := u.mUrl;
      }
    }

    method Clear()
      modifies this
      ensures Valid() && Show() == Ok(EMPTY) && mParse && mBuilt
    {
      Store(EMPTY);
      mUrl, mBuilt, mParse := [], true, true;
      EmptyBuilds();
    }

    /** parse_url: on failure nothing is touched. */
    method Parse() returns (r: Result<(), UrlError>)
      requires Valid() && !mParse
      modifies this
      ensures Valid() && Show() == old(Show())
      ensures r == match Show() case Err(e) => Err(e) case Ok(_) => Ok(())
      ensures r.Ok? ==> mParse
    {
      if mUrl == [] {
        Clear();
        return Ok(());
      }
      var f :- ParseText(mUrl);
      Store(f);
      mParse, mBuilt := true, false;
      return Ok(());
    }

    /** lazy_parse. */
    method LazyParse() returns (r: Result<(), UrlError>)
      requires Valid()
      modifies this
      ensures Valid() && Show() == old(Show())
      ensures r == match Show() case Err(e) => Err(e) case Ok(_) => Ok(())
      ensures r.Ok? ==> mParse
    {
      if !mParse {
        r := Parse();
      } else {
        r := Ok(());
      }
    }

    /** build_url: the text is stored, but the flag stays down. */
    method Build() returns (r: Result<(), Exception>)
      requires Valid()
      modifies this
      ensures Valid() && Show() == old(Show())
      ensures r == match TextOf(Show()) case Err(e) => Err(e) case Ok(_) => Ok(())
      ensures r.Ok? ==> TextOf(Show()) == Ok(mUrl)
    {
      var p := LazyParse();
      if p.Err? {
        return Err(ParseFailure(p.error));
      }
      var t := BuildText(Stored());
      if t.Err? {
        return Err(BuildFailure(t.error));
      }
      mBuilt, mUrl := false, t.value;
      return Ok(());
    }

    /** str: the built text, whatever has been parsed or cached. */
    method Str() returns (r: Result<bytes, Exception>)
      requires Valid()
      modifies this
      ensures Valid() && Show() == old(Show())
      ensures r == TextOf(Show())
    {
      if !mBuilt {
        var b := Build();
        if b.Err? {
          return Err(b.error);
        }
      }
      return Ok(mUrl);
    }

    /** str(url_str): all fields are given up for a new text. */
    method SetStr(s: bytes)
      modifies this
      ensures Valid() && Show() == ParseUrl(s)
    {
      mUrl, mBuilt, mParse := s, false, false;
    }

    /** The getters: each parses first and then returns its field. */
    method Get() returns (r: Result<Fields, Exception>)
      requires Valid()
      modifies this
      ensures Valid() && Show() == old(Show())
      ensures r == Shown(Show())
    {
      var p := LazyParse();
      return if p.Err? then Err(ParseFailure(p.error)) else Ok(Stored());
    }

    method GetQueryAt(i: nat) returns (r: Result<KeyVal, Exception>)
      requires Valid()
      modifies this
      ensures Valid() && Show() == old(Show())
      ensures r == match Shown(Show())
        case Err(e) => Err(e)
        case Ok(f) => if i < |f.query| then Ok(f.query[i]) else Err(OutOfRange)
    {
      var p := LazyParse();
      if p.Err? {
        return Err(ParseFailure(p.error));
      }
      return if i < |mQuery| then Ok(mQuery[i]) else Err(OutOfRange);
    }

    /** What every setter does once its argument has been accepted: parse, or give up with the parser's error. */
    method Ready() returns (r: Result<(), Exception>)
      requires Valid()
      modifies this
      ensures Valid() && Show() == old(Show())
      ensures r == match Show() case Err(e) => Err(ParseFailure(e)) case Ok(_) => Ok(())
      ensures r.Ok? ==> mParse
    {
      var p := LazyParse();
      return if p.Err? then Err(ParseFailure(p.error)) else Ok(());
    }

    method SetSchemeTo(s: bytes) returns (r: Result<(), Exception>)
      requires Valid()
      modifies this
      ensures Valid() && Effect(old(Show()), SetScheme(s), r, Show())
    {
      var ok := CheckScheme(s, 0, |s|);
      assert s[0..|s|] == s;
      if !ok {
        return Err(ParseFailure(BadScheme));
      }
      r := Ready();
      if r.Err? {
        return;
      }
      var o := ToLower(s);
      if o != mScheme {
        mScheme, mBuilt := o, false;
        if (mScheme == HTTP && mPort == PORT_80) || (mScheme == HTTPS && mPort == PORT_443) {
          mPort := [];
        }
      }
    }

    method SetUserTo(s: bytes) returns (r: Result<(), Exception>)
      requires Valid()
      modifies this
      ensures Valid() && Effect(old(Show()), SetUser(s), r, Show())
    {
      if |s| > 256 {
        return Err(ParseFailure(TooLong));
      }
      r := Ready();
      if r.Ok? && mUser != s {
        mUser, mBuilt := s, false;
      }
    }

    /** The host setter's checks, in the order the code makes them; 255 is the version of no host. */
    static method JudgeHost(h: bytes, v: byte) returns (r: Result<(byte, bytes), UrlError>)
      ensures HostToStore(h, v) == match r case Err(e) => Err(e) case Ok((ipv, o)) => Ok((ToInt8(ipv), o))
    {
      if h == [] {
        return Ok((255, []));
      }
      assert h[0..|h|] == h && h[0..] == h;
      var four := CheckIpv4Chars(h, 0, |h|);
      if four {
        var valid := IsValidIpv4(h, 0);
        return if valid then Ok((4, h)) else Err(BadHost);
      }
      var six := CheckIpv6Chars(h, 0, |h|);
      if v != 0 && v != 4 && v != 6 {
        return if six then Ok((v, h)) else Err(BadHost);
      }
      if six {
        var valid := IsValidIpv6(h);
        if !valid {
          return Err(BadHost);
        }
        var n :- NormalizeAddress(h);
        return Ok((6, n));
      }
      var name := IsChars(h, 0, |h|, REG_NAME_CHARS);
      if name {
        var o := ToLower(h);
        return Ok((0, o));
      }
      return Err(BadHost);
    }

    method SetHostTo(h: bytes, v: byte) returns (r: Result<(), Exception>)
      requires Valid()
      modifies this
      ensures Valid() && Effect(old(Show()), SetHost(h, v), r, Show())
    {
      if |h| > 253 {
        return Err(ParseFailure(TooLong));
      }
      r := Ready();
      if r.Err? {
        return;
      }
      var verdict := JudgeHost(h, v);
      if verdict.Err? {
        return Err(ParseFailure(verdict.error));
      }
      var (ipv, o) := verdict.value;
      if mHost != o || mIpV != ipv {
        mHost, mIpV, mBuilt := o, ToInt8(ipv), false;
      }
    }

    method SetPortTo(p: bytes) returns (r: Result<(), Exception>)
      requires Valid()
      modifies this
      ensures Valid() && Effect(old(Show()), SetPort(p), r, Show())
    {
      var ok := CheckPort(p, 0, |p|);
      assert p[0..|p|] == p;
      if !ok {
        return Err(ParseFailure(BadPort));
      }
      r := Ready();
      if r.Err? {
        return;
      }
      var o := p;
      if (mScheme == HTTP && o == PORT_80) || (mScheme == HTTPS && o == PORT_443) {
        o := [];
      }
      if mPort != o {
        mPort, mBuilt := o, false;
      }
    }

    method SetPathTo(p: bytes) returns (r: Result<(), Exception>)
      requires Valid()
      modifies this
      ensures Valid() && Effect(old(Show()), SetPath(p), r, Show())
    {
      if |p| > MAX_LENGTH {
        return Err(ParseFailure(TooLong));
      }
      r := Ready();
      if r.Err? {
        return;
      }
      var o := UrlPath.NormalizePath(p);
      if mPath != o {
        mPath, mBuilt := o, false;
      }
    }

    method SetFragmentTo(s: bytes) returns (r: Result<(), Exception>)
      requires Valid()
      modifies this
      ensures Valid() && Effect(old(Show()), SetFragment(s), r, Show())
    {
      if |s| > 256 {
        return Err(ParseFailure(TooLong));
      }
      r := Ready();
      if r.Ok? && mFragment != s {
        mFragment, mBuilt := s, false;
      }
    }

    method SetQueryTo(list: seq<KeyVal>) returns (r: Result<(), Exception>)
      requires Valid()
      modifies this
      ensures Valid() && Effect(old(Show()), SetQuery(list), r, Show())
    {
      r := Ready();
      if r.Ok? && list != mQuery {
        mQuery, mBuilt := list, false;
      }
    }

    /** set_query(i), with the write through the returned reference made at once. */
    method SetQueryEntry(i: nat, e: KeyVal) returns (r: Result<(), Exception>)
      requires Valid()
      modifies this
      ensures Valid() && Effect(old(Show()), SetQueryAt(i, e), r, Show())
    {
      r := Ready();
      if r.Err? {
        return;
      }
      if i >= |mQuery| {
        return Err(OutOfRange);
      }
      mBuilt, mQuery := false, mQuery[i := e];
    }

    method AddQueryEntry(e: KeyVal) returns (r: Result<(), Exception>)
      requires Valid()
      modifies this
      ensures Valid() && Effect(old(Show()), AddQuery(e), r, Show())
    {
      r := Ready();
      if r.Ok? {
        mBuilt, mQuery := false, mQuery + [e];
      }
    }

    /** Any setter. */
    method Set(c: Change) returns (r: Result<(), Exception>)
      requires Valid()
      modifies this
      ensures Valid() && Effect(old(Show()), c, r, Show())
    {
      match c {
        case SetScheme(s) => r := SetSchemeTo(s);
        case SetUser(s) => r := SetUserTo(s);
        case SetHost(h, v) => r := SetHostTo(h, v);
        case SetPort(p) => r := SetPortTo(p);
        case SetPath(p) => r := SetPathTo(p);
        case SetFragment(s) => r := SetFragmentTo(s);
        case SetQuery(list) => r := SetQueryTo(list);
        case SetQueryAt(i, e) => r := SetQueryEntry(i, e);
        case AddQuery(e) => r := AddQueryEntry(e);
      }
    }
  }
}
