/** JSON values without doubles, and the compact and pretty printers of picojson. */
module Json {
  import opened Bytes

  const QUOTE: byte := 0x22
  const BACKSLASH: byte := 0x5C
  const COMMA: byte := 0x2C
  const MINUS: byte := 0x2D
  const NEWLINE: byte := 0x0A
  const SPACE: byte := 0x20
  const OPEN_BRACKET: byte := 0x5B
  const CLOSE_BRACKET: byte := 0x5D
  const OPEN_BRACE: byte := 0x7B
  const CLOSE_BRACE: byte := 0x7D
  const LETTER_U: byte := 0x75

  const NULL_TEXT: bytes := [0x6E, 0x75, 0x6C, 0x6C]
  const TRUE_TEXT: bytes := [0x74, 0x72, 0x75, 0x65]
  const FALSE_TEXT: bytes := [0x66, 0x61, 0x6C, 0x73, 0x65]

  const MIN_INT64: int := -0x8000_0000_0000_0000
  const MAX_INT64: int := 0x7FFF_FFFF_FFFF_FFFF

  /** A value; the members of an object are kept in the order of their keys, as std::map does. */
  datatype Value =
    | Null | Bool(b: bool) | Int(n: int) | Str(s: bytes) | Arr(items: seq<Value>) | Obj(members: seq<Member>)

  datatype Member = Member(key: bytes, value: Value)

  /** The order of std::string: unsigned bytes, the shorter of two prefixes first. */
  predicate Less(a: bytes, b: bytes) {
    b != [] && (a == [] || a[0] < b[0] || (a[0] == b[0] && Less(a[1..], b[1..])))
  }

  predicate SortedKeys(ms: seq<Member>) {
    forall i, j :: 0 <= i < j < |ms| ==> Less(ms[i].key, ms[j].key)
  }

  /** What the C++ types guarantee: 64-bit integers and objects with distinct keys in order. */
  predicate WellFormed(v: Value) {
    match v
    case Int(n) => MIN_INT64 <= n <= MAX_INT64
    case Arr(items) => forall i :: 0 <= i < |items| ==> WellFormed(items[i])
    case Obj(ms) => SortedKeys(ms) && forall i :: 0 <= i < |ms| ==> WellFormed(ms[i].value)
    case _ => true
  }

  /** Nesting within the parser's depth budget: arrays spend one level, objects only need one to be left. */
  predicate Fits(v: Value, d: nat) {
    match v
    case Arr(items) => d > 0 && forall i :: 0 <= i < |items| ==> Fits(items[i], d - 1)
    case Obj(ms) => d > 0 && forall i :: 0 <= i < |ms| ==> Fits(ms[i].value, d)
    case _ => true
  }

  // ----- what is printed -----

  /** One byte of a string literal. */
  function CharText(c: byte): (t: bytes)
    ensures t != []
  {
    if c == QUOTE || c == BACKSLASH || c == 0x2F then [BACKSLASH, c]
    else if c == 0x08 then [BACKSLASH, 0x62]
    else if c == 0x0C then [BACKSLASH, 0x66]
    else if c == 0x0A then [BACKSLASH, 0x6E]
    else if c == 0x0D then [BACKSLASH, 0x72]
    else if c == 0x09 then [BACKSLASH, 0x74]
    else if c < 0x20 || c == 0x7F then [BACKSLASH, LETTER_U, 0x30, 0x30, HexLower(c / 16), HexLower(c % 16)]
    else [c]
  }

  function CharsText(s: bytes): bytes {
    if s == [] then [] else CharText(s[0]) + CharsText(s[1..])
  }

  function StringText(s: bytes): bytes {
    [QUOTE] + CharsText(s) + [QUOTE]
  }

  function NatText(n: nat): (t: bytes)
    ensures t != []
  {
    if n < 10 then ['0' as int + n] else NatText(n / 10) + ['0' as int + n % 10]
  }

  function IntText(n: int): bytes {
    if n < 0 then [MINUS] + NatText(-n) else NatText(n)
  }

  /** An indentation: -1 for compact output, else the nesting level. */
  type Indent = i: int | i >= -1

  function Inner(i: Indent): Indent {
    if i == -1 then -1 else i + 1
  }

  function Spaces(n: nat): bytes {
    if n == 0 then [] else [SPACE] + Spaces(n - 1)
  }

  /** _indent, when there is any indentation. */
  function Break(i: Indent): bytes {
    if i == -1 then [] else [NEWLINE] + Spaces(2 * i)
  }

  /** The text of a value, without the line end the pretty printer puts behind the outermost one. */
  function Text(v: Value, i: Indent): bytes
    decreases v, 1
  {
    match v
    case Null => NULL_TEXT
    case Bool(b) => if b then TRUE_TEXT else FALSE_TEXT
    case Int(n) => IntText(n)
    case Str(s) => StringText(s)
    case Arr(items) =>
      [OPEN_BRACKET] + ItemsText(items, Inner(i)) + (if items == [] then [] else Break(i)) + [CLOSE_BRACKET]
    case Obj(ms) =>
      [OPEN_BRACE] + MembersText(ms, Inner(i)) + (if ms == [] then [] else Break(i)) + [CLOSE_BRACE]
  }

  function ItemsText(items: seq<Value>, i: Indent): bytes
    decreases items, 0
  {
    if items == [] then []
    else Break(i) + Text(items[0], i) + (if |items| == 1 then [] else [COMMA] + ItemsText(items[1..], i))
  }

  function MembersText(ms: seq<Member>, i: Indent): bytes
    decreases ms, 0
  {
    if ms == [] then []
    else
      Break(i) + StringText(ms[0].key) + [COLON] + (if i == -1 then [] else [SPACE]) + Text(ms[0].value, i)
      + (if |ms| == 1 then [] else [COMMA] + MembersText(ms[1..], i))
  }

  /** serialize(prettify). */
  function Serialize(v: Value, pretty: bool): bytes {
    if pretty then Text(v, 0) + [NEWLINE] else Text(v, -1)
  }
}
