/** What picojson's recursive-descent parser reads, as functions on the rest of the text. */
module JsonGrammar {
  import opened Bytes
  import opened Json
  import opened Wrappers

  datatype Failure = Syntax | NotInteger

  predicate IsWs(c: byte) {
    c == 0x20 || c == 0x09 || c == 0x0A || c == 0x0D
  }

  /** The text behind its leading white space. */
  function SkipWs(s: bytes): (r: bytes)
    ensures |r| <= |s|
  {
    if s != [] && IsWs(s[0]) then SkipWs(s[1..]) else s
  }

  /** The text behind the expected byte and the white space before it. */
  function Expect(s: bytes, c: byte): (r: Option<bytes>)
    ensures r.Some? ==> |r.value| < |s|
  {
    var t := SkipWs(s);
    if t != [] && t[0] == c then Some(t[1..]) else None
  }

  // ----- strings -----

  /** Four hexadecimal digits and the text behind them. */
  function ParseHex4(s: bytes): (r: Option<(nat, bytes)>)
    ensures r.Some? ==> r.value.0 < 0x1_0000 && |r.value.1| + 4 == |s|
  {
    if |s| < 4 || HexValue(s[0]) < 0 || HexValue(s[1]) < 0 || HexValue(s[2]) < 0 || HexValue(s[3]) < 0 then None
    else Some((HexValue(s[0]) * 0x1000 + HexValue(s[1]) * 0x100 + HexValue(s[2]) * 0x10 + HexValue(s[3]), s[4..]))
  }

  predicate HighSurrogate(u: nat) { 0xD800 <= u < 0xDC00 }

  predicate LowSurrogate(u: nat) { 0xDC00 <= u < 0xE000 }

  predicate Scalar(u: nat) { u < 0x11_0000 && !(0xD800 <= u < 0xE000) }

  /** What must follow a high surrogate: the escape of a low one, and the scalar value of both. */
  function PairRest(high: nat, t: bytes): (r: Option<(nat, bytes)>)
    requires HighSurrogate(high)
    ensures r.Some? ==> Scalar(r.value.0) && |r.value.1| < |t|
  {
    if |t| < 2 || t[0] != BACKSLASH || t[1] != LETTER_U then None
    else
      var (low, r) :- ParseHex4(t[2..]);
      if LowSurrogate(low) then Some(((high - 0xD800) * 0x400 + (low - 0xDC00) + 0x1_0000, r)) else None
  }

  /** The scalar value of an escape behind "\u", a surrogate pair counting as one. */
  function ParseScalar(s: bytes): (r: Option<(nat, bytes)>)
    ensures r.Some? ==> Scalar(r.value.0) && |r.value.1| < |s|
  {
    var (u, t) :- ParseHex4(s);
    if LowSurrogate(u) then None
    else if HighSurrogate(u) then PairRest(u, t)
    else Some((u, t))
  }

  /** The bytes of a scalar value, as _parse_codepoint puts them together. */
  function Utf8Bytes(u: nat): (r: bytes)
    requires u < 0x11_0000
  {
    if u < 0x80 then [u]
    else if u < 0x800 then [0xC0 + u / 0x40, 0x80 + u % 0x40]
    else if u < 0x1_0000 then [0xE0 + u / 0x1000, 0x80 + u / 0x40 % 0x40, 0x80 + u % 0x40]
    else [0xF0 + u / 0x4_0000, 0x80 + u / 0x1000 % 0x40, 0x80 + u / 0x40 % 0x40, 0x80 + u % 0x40]
  }

  /** The byte of a one-letter escape. */
  function Unescaped(c: byte): Option<byte> {
    if c == QUOTE || c == BACKSLASH || c == 0x2F then Some(c)
    else if c == 0x62 then Some(0x08)
    else if c == 0x66 then Some(0x0C)
    else if c == 0x6E then Some(0x0A)
    else if c == 0x72 then Some(0x0D)
    else if c == 0x74 then Some(0x09)
    else None
  }

  /** One character of a string literal: the bytes it stands for and the text behind it. */
  function ParseChar(s: bytes): (r: Option<(bytes, bytes)>)
    requires s != []
    ensures r.Some? ==> |r.value.1| < |s|
  {
    if s[0] < 0x20 then None
    else if s[0] != BACKSLASH then Some(([s[0]], s[1..]))
    else if |s| < 2 then None
    else if s[1] == LETTER_U then
      var (u, r) :- ParseScalar(s[2..]);
      Some((Utf8Bytes(u), r))
    else
      var c :- Unescaped(s[1]);
      Some(([c], s[2..]))
  }

  /** The rest of a string literal behind its opening quote. */
  function ParseString(s: bytes): (r: Option<(bytes, bytes)>)
    ensures r.Some? ==> |r.value.1| < |s|
    decreases |s|
  {
    if s == [] then None
    else if s[0] == QUOTE then Some(([], s[1..]))
    else
      var (c, t) :- ParseChar(s);
      var (cs, r) :- ParseString(t);
      Some((c + cs, r))
  }

  // ----- numbers -----

  predicate IsNumberChar(c: byte) {
    IsDigit(c) || c == 0x2B || c == MINUS || c == 0x65 || c == 0x45 || c == 0x2E
  }

  function NumberSpan(s: bytes): (n: nat)
    ensures n <= |s|
  {
    if s != [] && IsNumberChar(s[0]) then 1 + NumberSpan(s[1..]) else 0
  }

  lemma {:induction false} NumberSpanIs(t: bytes, rest: bytes)
    requires forall c :: c in t ==> IsNumberChar(c)
    requires rest == [] || !IsNumberChar(rest[0])
    ensures NumberSpan(t + rest) == |t|
  {
    if t == [] {
      assert t + rest == rest;
    } else {
      assert t[0] in t && (t + rest)[1..] == t[1..] + rest;
      NumberSpanIs(t[1..], rest);
    }
  }

  predicate AllDecimal(t: bytes) {
    forall c :: c in t ==> IsDigit(c)
  }

  /** strtoimax over the whole text: an optional sign, digits, and a value within 64 bits. */
  function IntegerOf(t: bytes): Option<int> {
    var signed := t != [] && (t[0] == MINUS || t[0] == 0x2B);
    var digits := if signed then t[1..] else t;
    if digits == [] || !AllDecimal(digits) then None
    else
      var value: int := Decimal(digits);
      var n := if signed && t[0] == MINUS then -value else value;
      if MIN_INT64 <= n <= MAX_INT64 then Some(n) else None
  }

  // ----- objects -----

  /** o[key] = value on a sorted list of members. */
  function Store(ms: seq<Member>, key: bytes, value: Value): (r: seq<Member>)
    ensures r != []
  {
    if ms == [] then [Member(key, value)]
    else if ms[0].key == key then [Member(key, value)] + ms[1..]
    else if Less(key, ms[0].key) then [Member(key, value)] + ms
    else [ms[0]] + Store(ms[1..], key, value)
  }

  // ----- values -----

  type Parsed<T> = Result<(T, bytes), Failure>

  function Literal(s: bytes, text: bytes, v: Value): (r: Parsed<Value>)
    requires text != []
    ensures r.Ok? ==> |r.value.1| < |s|
  {
    if text <= s then Ok((v, s[|text|..])) else Err(Syntax)
  }

  /** A value at the front of s, parsed with d levels of depth left, and the text behind it. */
  function ParseValue(s: bytes, d: nat): (r: Parsed<Value>)
    ensures r.Ok? ==> |r.value.1| < |s|
    decreases |s|, 0
  {
    var t := SkipWs(s);
    if t == [] then Err(Syntax)
    else if t[0] == NULL_TEXT[0] then Literal(t, NULL_TEXT, Null)
    else if t[0] == FALSE_TEXT[0] then Literal(t, FALSE_TEXT, Bool(false))
    else if t[0] == TRUE_TEXT[0] then Literal(t, TRUE_TEXT, Bool(true))
    else if t[0] == QUOTE then
      (match ParseString(t[1..]) case None => Err(Syntax) case Some((x, r)) => Ok((Str(x), r)))
    else if t[0] == OPEN_BRACKET then
      if d == 0 then Err(Syntax)
      else match Expect(t[1..], CLOSE_BRACKET)
        case Some(r) => Ok((Arr([]), r))
        case None => var (items, r) :- ParseItems(t[1..], d - 1, []); Ok((Arr(items), r))
    else if t[0] == OPEN_BRACE then
      if d == 0 then Err(Syntax)
      else match Expect(t[1..], CLOSE_BRACE)
        case Some(r) => Ok((Obj([]), r))
        case None => var (ms, r) :- ParseMembers(t[1..], d, []); Ok((Obj(ms), r))
    else if IsDigit(t[0]) || t[0] == MINUS then
      var n := NumberSpan(t);
      (match IntegerOf(t[..n]) case None => Err(NotInteger) case Some(i) => Ok((Int(i), t[n..])))
    else Err(Syntax)
  }

  /** The items of an array up to its closing bracket, after those in `done`. */
  function ParseItems(s: bytes, d: nat, done: seq<Value>): (r: Parsed<seq<Value>>)
    ensures r.Ok? ==> |r.value.1| < |s|
    decreases |s|, 1
  {
    var (v, t) :- ParseValue(s, d);
    match Expect(t, COMMA)
    case Some(r) => ParseItems(r, d, done + [v])
    case None => match Expect(t, CLOSE_BRACKET) case Some(r) => Ok((done + [v], r)) case None => Err(Syntax)
  }

  /** A key and the colon behind it. */
  function ParseKey(s: bytes): (r: Option<(bytes, bytes)>)
    ensures r.Some? ==> |r.value.1| < |s|
  {
    var t :- Expect(s, QUOTE);
    var (key, u) :- ParseString(t);
    var w :- Expect(u, COLON);
    Some((key, w))
  }

  /** The members of an object up to its closing brace, stored into `done`. */
  function ParseMembers(s: bytes, d: nat, done: seq<Member>): (r: Parsed<seq<Member>>)
    ensures r.Ok? ==> |r.value.1| < |s|
    decreases |s|, 1
  {
    match ParseKey(s)
    case None => Err(Syntax)
    case Some((key, w)) =>
      var (v, t) :- ParseValue(w, d);
      var ms := Store(done, key, v);
      match Expect(t, COMMA)
      case Some(r) => ParseMembers(r, d, ms)
      case None => match Expect(t, CLOSE_BRACE) case Some(r) => Ok((ms, r)) case None => Err(Syntax)
  }

  const MAX_DEPTH: nat := 100

  /** parse: a value at the front of the text; what follows it is not looked at. */
  function Parse(s: bytes): Result<Value, Failure> {
    var (v, _) :- ParseValue(s, MAX_DEPTH);
    Ok(v)
  }
}
