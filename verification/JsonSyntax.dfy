/** JSON texts as RFC 8259 writes them, told in their characters: what may be written, and what it means. */
module JsonSyntax {
  import opened Bytes
  import opened Json
  import opened JsonGrammar

  // ----- characters and strings (section 7) -----

  /** One character of a string: itself, an escape of one letter, a code of four digits, or a surrogate pair. */
  datatype Form = Raw(c: byte) | Letter(e: byte) | Hex(u: bytes) | Pair(high: bytes, low: bytes)

  predicate FourDigits(u: bytes) {
    |u| == 4 && forall i :: 0 <= i < 4 ==>
      ('0' as int <= u[i] <= '9' as int || 'a' as int <= u[i] <= 'f' as int || 'A' as int <= u[i] <= 'F' as int)
  }

  function Code(u: bytes): (n: nat)
    requires FourDigits(u)
    ensures n < 0x1_0000
  {
    HexValue(u[0]) * 0x1000 + HexValue(u[1]) * 0x100 + HexValue(u[2]) * 0x10 + HexValue(u[3])
  }

  predicate FormOk(f: Form) {
    match f
    case Raw(c) => c >= 0x20 && c != '"' as int && c != '\\' as int
    case Letter(e) => e as char in "\"\\/bfnrt"
    case Hex(u) => FourDigits(u) && !(0xD800 <= Code(u) < 0xE000)
    case Pair(h, l) => FourDigits(h) && FourDigits(l) && 0xD800 <= Code(h) < 0xDC00 && 0xDC00 <= Code(l) < 0xE000
  }

  function FormText(f: Form): bytes {
    match f
    case Raw(c) => [c]
    case Letter(e) => ['\\' as int, e]
    case Hex(u) => ['\\' as int, 'u' as int] + u
    case Pair(h, l) => ['\\' as int, 'u' as int] + h + ['\\' as int, 'u' as int] + l
  }

  /** The bytes a character stands for. */
  function FormBytes(f: Form): bytes
    requires FormOk(f)
  {
    match f
    case Raw(c) => [c]
    case Letter(e) =>
      if e == 'b' as int then [8] else if e == 'f' as int then [12] else if e == 'n' as int then [10]
      else if e == 'r' as int then [13] else if e == 't' as int then [9] else [e]
    case Hex(u) => Utf8Bytes(Code(u))
    case Pair(h, l) => Utf8Bytes(0x1_0000 + (Code(h) - 0xD800) * 0x400 + (Code(l) - 0xDC00))
  }

  predicate FormsOk(fs: seq<Form>) {
    forall i :: 0 <= i < |fs| ==> FormOk(fs[i])
  }

  function FormsBytes(fs: seq<Form>): bytes
    requires FormsOk(fs)
  {
    if fs == [] then [] else FormBytes(fs[0]) + FormsBytes(fs[1..])
  }

  /** The text of a string in front of more text. */
  function WrittenForms(fs: seq<Form>, rest: bytes): bytes {
    if fs == [] then rest else FormText(fs[0]) + WrittenForms(fs[1..], rest)
  }

  function WrittenString(fs: seq<Form>, rest: bytes): bytes {
    ['"' as int] + WrittenForms(fs, ['"' as int] + rest)
  }

  // ----- numbers (section 6), without fraction and exponent -----

  predicate Decimals(t: bytes) {
    t != [] && forall i :: 0 <= i < |t| ==> '0' as int <= t[i] <= '9' as int
  }

  /** Digits without a leading zero, as the section asks. */
  predicate Plain(t: bytes) {
    Decimals(t) && (t[0] == '0' as int ==> |t| == 1)
  }

  function Signed(minus: bool, digits: bytes): int {
    var n: int := Decimal(digits);
    if minus then -n else n
  }

  // ----- values (sections 2 to 5) -----

  datatype Doc =
    | NullDoc | BoolDoc(b: bool) | NumberDoc(minus: bool, digits: bytes) | StringDoc(forms: seq<Form>)
    | ArrayDoc(gap: bytes, items: seq<Item>) | ObjectDoc(gap: bytes, members: seq<Entry>)

  /** A value with the white space around it. */
  datatype Item = Item(before: bytes, doc: Doc, after: bytes)

  /** A key with the white space around it, and its value. */
  datatype Entry = Entry(before: bytes, key: seq<Form>, mid: bytes, item: Item)

  predicate White(w: bytes) {
    forall i :: 0 <= i < |w| ==> w[i] as char in " \t\n\r"
  }

  /** Well-formed, with integers of 64 bits, zeros in front of them allowed. */
  predicate DocOk(d: Doc) {
    match d
    case NumberDoc(minus, t) => Decimals(t) && -0x8000_0000_0000_0000 <= Signed(minus, t) < 0x8000_0000_0000_0000
    case StringDoc(fs) => FormsOk(fs)
    case ArrayDoc(gap, items) => White(gap) && ItemsOk(items)
    case ObjectDoc(gap, ms) => White(gap) && EntriesOk(ms)
    case _ => true
  }

  predicate ItemOk(x: Item) {
    White(x.before) && DocOk(x.doc) && White(x.after)
  }

  predicate EntryOk(m: Entry) {
    White(m.before) && FormsOk(m.key) && White(m.mid) && ItemOk(m.item)
  }

  predicate ItemsOk(items: seq<Item>) {
    forall i :: 0 <= i < |items| ==> ItemOk(items[i])
  }

  predicate EntriesOk(ms: seq<Entry>) {
    forall i :: 0 <= i < |ms| ==> EntryOk(ms[i])
  }

  /** No number has a leading zero: what section 6 asks beyond DocOk. */
  predicate Standard(d: Doc) {
    match d
    case NumberDoc(_, t) => Plain(t)
    case ArrayDoc(_, items) => forall i :: 0 <= i < |items| ==> Standard(items[i].doc)
    case ObjectDoc(_, ms) => forall i :: 0 <= i < |ms| ==> Standard(ms[i].item.doc)
    case _ => true
  }

  /** The parser's budget: arrays spend one level, objects only need one. */
  predicate DocFits(d: Doc, depth: nat) {
    match d
    case ArrayDoc(_, items) => depth > 0 && forall i :: 0 <= i < |items| ==> DocFits(items[i].doc, depth - 1)
    case ObjectDoc(_, ms) => depth > 0 && forall i :: 0 <= i < |ms| ==> DocFits(ms[i].item.doc, depth)
    case _ => true
  }

  /** The text of a value in front of more text. */
  function Written(d: Doc, rest: bytes): bytes
    decreases d, 1
  {
    match d
    case NullDoc => Ascii("null") + rest
    case BoolDoc(b) => Ascii(if b then "true" else "false") + rest
    case NumberDoc(minus, t) => (if minus then ['-' as int] + t else t) + rest
    case StringDoc(fs) => WrittenString(fs, rest)
    case ArrayDoc(gap, items) =>
      ['[' as int] + if items == [] then gap + ([']' as int] + rest) else WrittenItems(items, [']' as int] + rest)
    case ObjectDoc(gap, ms) =>
      ['{' as int] + if ms == [] then gap + (['}' as int] + rest) else WrittenMembers(ms, ['}' as int] + rest)
  }

  function WrittenItems(items: seq<Item>, end: bytes): bytes
    requires items != []
    decreases items, 0
  {
    var next := if |items| == 1 then end else [',' as int] + WrittenItems(items[1..], end);
    items[0].before + Written(items[0].doc, items[0].after + next)
  }

  function WrittenMembers(ms: seq<Entry>, end: bytes): bytes
    requires ms != []
    decreases ms, 0
  {
    var m := ms[0];
    var next := if |ms| == 1 then end else [',' as int] + WrittenMembers(ms[1..], end);
    m.before + WrittenString(m.key, m.mid + ([':' as int] + (m.item.before + Written(m.item.doc, m.item.after + next))))
  }

  /** What a text means; a repeated key takes its last value. */
  function Meaning(d: Doc): Value
    requires DocOk(d)
    decreases d, 1
  {
    match d
    case NullDoc => Null
    case BoolDoc(b) => Bool(b)
    case NumberDoc(minus, t) => Int(Signed(minus, t))
    case StringDoc(fs) => Str(FormsBytes(fs))
    case ArrayDoc(_, items) => Arr(Meanings(items))
    case ObjectDoc(_, ms) => Obj(Stored([], ms))
  }

  function Meanings(items: seq<Item>): seq<Value>
    requires ItemsOk(items)
    decreases items, 0
  {
    if items == [] then []
    else assert ItemOk(items[0]); [Meaning(items[0].doc)] + Meanings(items[1..])
  }

  function Stored(done: seq<Member>, ms: seq<Entry>): seq<Member>
    requires EntriesOk(ms)
    decreases ms, 0
  {
    if ms == [] then done
    else
      assert EntryOk(ms[0]) && ItemOk(ms[0].item);
      Stored(Store(done, FormsBytes(ms[0].key), Meaning(ms[0].item.doc)), ms[1..])
  }
}
