/** What the printers write is JSON as RFC 8259 writes it, character by character. */
module JsonPrints {
  import opened Bytes
  import opened Json
  import opened JsonGrammar
  import opened JsonReads
  import opened JsonRoundTrip
  import opened JsonSyntax

  // ----- integers -----

  lemma {:induction false} NatTextIsPlain(n: nat)
    ensures JsonSyntax.Plain(NatText(n)) && Decimal(NatText(n)) == n && (NatText(n)[0] == '0' as int <==> n == 0)
  {
    var t := NatText(n);
    if n < 10 {
      assert t[..0] == [];
    } else {
      NatTextIsPlain(n / 10);
      assert t[..|t| - 1] == NatText(n / 10) && NatText(n / 10) != [];
    }
  }

  lemma {:induction false} DecimalPositive(t: bytes)
    requires t != [] && t[0] != '0' as int && IsDigit(t[0])
    ensures Decimal(t) > 0
  {
    if |t| > 1 {
      DecimalPositive(t[..|t| - 1]);
    } else {
      assert t[..0] == [];
    }
  }

  /** The printed number is the only decimal text of it without a leading zero. */
  lemma {:induction false} PlainIsNatText(t: bytes)
    requires JsonSyntax.Plain(t)
    ensures t == NatText(Decimal(t))
  {
    var rest, c := t[..|t| - 1], t[|t| - 1];
    assert t == rest + [c];
    if |t| > 1 {
      PlainIsNatText(rest);
      DecimalPositive(rest);
    } else {
      assert rest == [];
    }
  }

  /** An integer is printed as the one shortest decimal text, with a '-' exactly in front of a negative one. */
  lemma IntTextIsShortest(n: int)
    ensures IntText(n) == if n < 0 then ['-' as int] + NatText(-n) else NatText(n)
    ensures NatText(0) == ['0' as int]
    ensures n > 0 ==> NatText(n)[0] != '0' as int
    ensures forall t: bytes :: JsonSyntax.Plain(t) && Decimal(t) == n ==> t == IntText(n)
  {
    if n > 0 {
      NatTextIsPlain(n);
    }
    forall t: bytes | JsonSyntax.Plain(t) && Decimal(t) == n ensures t == IntText(n) {
      PlainIsNatText(t);
    }
  }

  // ----- strings -----

  /** The form in which each byte of a string is printed. */
  function FormOf(c: byte): (f: Form)
    ensures FormOk(f)
  {
    if c as char in "\"\\/" then Letter(c)
    else if c == 8 then Letter('b' as int)
    else if c == 12 then Letter('f' as int)
    else if c == 10 then Letter('n' as int)
    else if c == 13 then Letter('r' as int)
    else if c == 9 then Letter('t' as int)
    else if c < 0x20 || c == 0x7F then Hex(ControlDigits(c))
    else Raw(c)
  }

  /** A lower-case hexadecimal digit. */
  function HexDigit(n: nat): (c: byte)
    requires n < 16
    ensures HexValue(c) == n && ('0' as int <= c <= '9' as int || 'a' as int <= c <= 'f' as int)
  {
    "0123456789abcdef"[n] as int
  }

  /** "00" and the two lower-case hexadecimal digits of a control character. */
  function ControlDigits(c: byte): (u: bytes)
    requires c < 0x20 || c == 0x7F
    ensures FourDigits(u) && Code(u) == c
  {
    ['0' as int, '0' as int, HexDigit(c / 16), HexDigit(c % 16)]
  }

  function FormsOf(s: bytes): (fs: seq<Form>)
    ensures FormsOk(fs)
  {
    if s == [] then [] else [FormOf(s[0])] + FormsOf(s[1..])
  }

  lemma ControlIsForm(c: byte)
    requires c < 0x20 || c == 0x7F
    ensures ['\\' as int, 'u' as int] + ControlDigits(c) == [0x5C, 0x75, 0x30, 0x30, HexLower(c / 16), HexLower(c % 16)]
    ensures Utf8Bytes(Code(ControlDigits(c))) == [c]
  {
  }

  lemma ControlCharIsForm(c: byte)
    requires (c < 0x20 || c == 0x7F) && c !in [8, 9, 10, 12, 13]
    ensures CharText(c) == FormText(FormOf(c)) && FormBytes(FormOf(c)) == [c]
  {
    ControlIsForm(c);
  }

  lemma OtherCharIsForm(c: byte)
    requires !((c < 0x20 || c == 0x7F) && c !in [8, 9, 10, 12, 13])
    ensures CharText(c) == FormText(FormOf(c)) && FormBytes(FormOf(c)) == [c]
  {
  }

  lemma CharIsForm(c: byte)
    ensures CharText(c) == FormText(FormOf(c)) && FormBytes(FormOf(c)) == [c]
  {
    if (c < 0x20 || c == 0x7F) && c !in [8, 9, 10, 12, 13] {
      ControlCharIsForm(c);
    } else {
      OtherCharIsForm(c);
    }
  }

  lemma {:induction false} CharsAreForms(s: bytes, rest: bytes)
    ensures CharsText(s) + rest == WrittenForms(FormsOf(s), rest) && FormsBytes(FormsOf(s)) == s
  {
    if s == [] {
      assert [] + rest == rest;
    } else {
      var f, fs := FormOf(s[0]), FormsOf(s[1..]);
      CharsAreForms(s[1..], rest);
      CharIsForm(s[0]);
      Assoc(CharText(s[0]), CharsText(s[1..]), rest);
      assert ([f] + fs)[1..] == fs;
      assert s == [s[0]] + s[1..];
    }
  }

  lemma StringIsForms(s: bytes, rest: bytes)
    ensures StringText(s) + rest == WrittenString(FormsOf(s), rest)
  {
    CharsAreForms(s, ['"' as int] + rest);
    RegroupQuotes(CharsText(s), rest);
  }

  // ----- white space -----

  /** A new line and two spaces for each level; nothing in compact text. */
  function Line(i: Indent): (w: bytes)
    ensures White(w)
  {
    if i == -1 then [] else ['\n' as int] + seq(2 * i, _ => ' ' as int)
  }

  lemma {:induction false} SpacesAre(n: nat)
    ensures Spaces(n) == seq(n, _ => ' ' as int)
  {
    if n > 0 {
      SpacesAre(n - 1);
    }
  }

  lemma BreakIsLine(i: Indent)
    ensures Break(i) == Line(i)
  {
    if i != -1 {
      SpacesAre(2 * i);
    }
  }

  // ----- values -----

  /** Items and members stand one level deeper. */
  function Deeper(i: Indent): Indent {
    if i >= 0 then i + 1 else i
  }

  /** The syntax of a printed value at an indentation. */
  function DocOf(v: Value, i: Indent): Doc
    decreases v, 1
  {
    match v
    case Null => NullDoc
    case Bool(b) => BoolDoc(b)
    case Int(n) => NumberDoc(n < 0, NatText(if n < 0 then -n else n))
    case Str(s) => StringDoc(FormsOf(s))
    case Arr(items) => ArrayDoc([], ItemsOf(items, Deeper(i), Line(i)))
    case Obj(ms) => ObjectDoc([], EntriesOf(ms, Deeper(i), Line(i)))
  }

  /** Each item on its own line, the closing bracket on the next. */
  function ItemsOf(items: seq<Value>, i: Indent, close: bytes): (r: seq<Item>)
    ensures |r| == |items|
    decreases items, 0
  {
    if items == [] then []
    else
      [Item(Line(i), DocOf(items[0], i), if |items| == 1 then close else [])] + ItemsOf(items[1..], i, close)
  }

  /** Each member on its own line, its value behind a colon and, in pretty text, a space. */
  function EntriesOf(ms: seq<Member>, i: Indent, close: bytes): (r: seq<Entry>)
    ensures |r| == |ms|
    decreases ms, 0
  {
    if ms == [] then []
    else
      var gap := if i == -1 then [] else [' ' as int];
      var value := Item(gap, DocOf(ms[0].value, i), if |ms| == 1 then close else []);
      [Entry(Line(i), FormsOf(ms[0].key), [], value)] + EntriesOf(ms[1..], i, close)
  }

  lemma WordIsDoc(v: Value, i: Indent, rest: bytes)
    requires v.Null? || v.Bool?
    ensures Text(v, i) + rest == Written(DocOf(v, i), rest)
  {
    assert Ascii("null") == NULL_TEXT && Ascii("true") == TRUE_TEXT && Ascii("false") == FALSE_TEXT;
  }

  lemma IntIsDoc(n: int, i: Indent, rest: bytes)
    ensures Text(Int(n), i) + rest == Written(DocOf(Int(n), i), rest)
    ensures MIN_INT64 <= n <= MAX_INT64 ==> DocOk(DocOf(Int(n), i)) && Meaning(DocOf(Int(n), i)) == Int(n)
  {
    NatTextIsPlain(if n < 0 then -n else n);
  }

  lemma EmptyArrayIsDoc(i: Indent, rest: bytes)
    ensures Text(Arr([]), i) + rest == Written(DocOf(Arr([]), i), rest)
  {
    assert Text(Arr([]), i) == ['[' as int, ']' as int];
    assert [] + ([']' as int] + rest) == [']' as int] + rest;
    assert ['[' as int, ']' as int] + rest == ['[' as int] + ([']' as int] + rest);
  }

  lemma EmptyObjectIsDoc(i: Indent, rest: bytes)
    ensures Text(Obj([]), i) + rest == Written(DocOf(Obj([]), i), rest)
  {
    assert Text(Obj([]), i) == ['{' as int, '}' as int];
    assert [] + (['}' as int] + rest) == ['}' as int] + rest;
    assert ['{' as int, '}' as int] + rest == ['{' as int] + (['}' as int] + rest);
  }

  /** A printed value is a text of the syntax, in front of whatever follows. */
  lemma {:induction false} TextIsDoc(v: Value, i: Indent, rest: bytes)
    ensures Text(v, i) + rest == Written(DocOf(v, i), rest)
    decreases v, 2
  {
    match v {
      case Null => WordIsDoc(v, i, rest);
      case Bool(_) => WordIsDoc(v, i, rest);
      case Int(n) => IntIsDoc(n, i, rest);
      case Str(s) => StringIsForms(s, rest);
      case Arr(items) => ArrayIsDoc(items, v, i, rest);
      case Obj(ms) => ObjectIsDoc(ms, v, i, rest);
    }
  }

  lemma {:induction false} ArrayIsDoc(items: seq<Value>, v: Value, i: Indent, rest: bytes)
    requires v == Arr(items)
    ensures Text(v, i) + rest == Written(DocOf(v, i), rest)
    decreases v, 1
  {
    if items == [] {
      EmptyArrayIsDoc(i, rest);
    } else {
      BreakIsLine(i);
      ArrayFrame(items, i, rest);
      ItemsAreDocs(items, Deeper(i), Line(i), [']' as int] + rest);
    }
  }

  lemma ObjectDocText(ms: seq<Member>, i: Indent, rest: bytes)
    requires ms != []
    ensures Written(DocOf(Obj(ms), i), rest)
         == ['{' as int] + WrittenMembers(EntriesOf(ms, Deeper(i), Line(i)), ['}' as int] + rest)
  {
  }

  lemma {:induction false} ObjectIsDoc(ms: seq<Member>, v: Value, i: Indent, rest: bytes)
    requires v == Obj(ms)
    ensures Text(v, i) + rest == Written(DocOf(v, i), rest)
    decreases v, 1
  {
    if ms == [] {
      EmptyObjectIsDoc(i, rest);
    } else {
      BreakIsLine(i);
      ObjectFrame(ms, i, rest);
      MembersAreDocs(ms, Deeper(i), Line(i), ['}' as int] + rest);
      ObjectDocText(ms, i, rest);
    }
  }

  lemma {:induction false} ItemsAreDocs(items: seq<Value>, i: Indent, close: bytes, end: bytes)
    requires items != []
    ensures ItemsText(items, i) + (close + end) == WrittenItems(ItemsOf(items, i, close), end)
    decreases items, 3
  {
    var x, xs := items[0], ItemsOf(items, i, close);
    BreakIsLine(i);
    ItemsCut(items, i, close + end);
    if |items| == 1 {
      TextIsDoc(x, i, close + end);
    } else {
      var next := [',' as int] + (ItemsText(items[1..], i) + (close + end));
      ItemsAreDocs(items[1..], i, close, end);
      TextIsDoc(x, i, next);
      assert xs[1..] == ItemsOf(items[1..], i, close);
      assert [] + next == next;
    }
  }

  /** The first entry's text, in terms of the members. */
  lemma FirstEntryText(ms: seq<Member>, i: Indent, close: bytes, end: bytes, next: bytes)
    requires ms != []
    requires next == if |ms| == 1 then close + end else [',' as int] + WrittenMembers(EntriesOf(ms[1..], i, close), end)
    ensures WrittenMembers(EntriesOf(ms, i, close), end)
         == Line(i) + WrittenString(FormsOf(ms[0].key), [':' as int] + (Gap(i) + Written(DocOf(ms[0].value, i), next)))
  {
    var es := EntriesOf(ms, i, close);
    var t := [':' as int] + (es[0].item.before + Written(es[0].item.doc, es[0].item.after + BehindEntry(es, end)));
    assert es[1..] == EntriesOf(ms[1..], i, close);
    assert [] + t == t && [] + BehindEntry(es, end) == BehindEntry(es, end);
  }

  lemma MemberText(ms: seq<Member>, i: Indent, end: bytes, next: bytes)
    requires ms != [] && next == if |ms| == 1 then end else [',' as int] + (MembersText(ms[1..], i) + end)
    requires Text(ms[0].value, i) + next == Written(DocOf(ms[0].value, i), next)
    ensures MembersText(ms, i) + end
         == Line(i) + WrittenString(FormsOf(ms[0].key), [':' as int] + (Gap(i) + Written(DocOf(ms[0].value, i), next)))
  {
    var t := [':' as int] + (Gap(i) + (Text(ms[0].value, i) + next));
    BreakIsLine(i);
    MembersCut(ms, i, end);
    CharsAreForms(ms[0].key, ['"' as int] + t);
  }

  lemma {:induction false} MembersAreDocs(ms: seq<Member>, i: Indent, close: bytes, end: bytes)
    requires ms != []
    ensures MembersText(ms, i) + (close + end) == WrittenMembers(EntriesOf(ms, i, close), end)
    decreases ms, 3
  {
    var next := if |ms| == 1 then close + end else [',' as int] + (MembersText(ms[1..], i) + (close + end));
    if |ms| > 1 {
      MembersAreDocs(ms[1..], i, close, end);
    }
    TextIsDoc(ms[0].value, i, next);
    MemberText(ms, i, close + end, next);
    FirstEntryText(ms, i, close, end, next);
  }

  // ----- what a printed text means -----

  /** A printed value is well-formed, means that value, and needs its depth. */
  lemma {:induction false} DocOfMeans(v: Value, i: Indent)
    requires WellFormed(v)
    ensures DocOk(DocOf(v, i)) && Meaning(DocOf(v, i)) == v
    decreases v, 2
  {
    match v {
      case Null =>
      case Bool(_) =>
      case Int(n) => IntIsDoc(n, i, []);
      case Str(s) => CharsAreForms(s, []);
      case Arr(items) => ItemsMean(items, Deeper(i), Line(i));
      case Obj(ms) => MembersMean(ms, Deeper(i), Line(i), []);
    }
  }

  lemma {:induction false} ItemsMean(items: seq<Value>, i: Indent, close: bytes)
    requires White(close) && forall k :: 0 <= k < |items| ==> WellFormed(items[k])
    ensures ItemsOk(ItemsOf(items, i, close))
    ensures Meanings(ItemsOf(items, i, close)) == items
    decreases items, 3
  {
    if items != [] {
      var xs := ItemsOf(items, i, close);
      DocOfMeans(items[0], i);
      ItemsMean(items[1..], i, close);
      assert xs[1..] == ItemsOf(items[1..], i, close);
      assert ItemOk(xs[0]);
      forall k | 0 <= k < |items| ensures ItemOk(xs[k]) {
        assert k > 0 ==> xs[k] == xs[1..][k - 1];
      }
      assert items == [items[0]] + items[1..];
    }
  }

  lemma {:induction false} EntriesAreOk(ms: seq<Member>, i: Indent, close: bytes)
    requires White(close) && forall k :: 0 <= k < |ms| ==> WellFormed(ms[k].value)
    ensures EntriesOk(EntriesOf(ms, i, close))
    decreases ms, 3
  {
    if ms != [] {
      var es := EntriesOf(ms, i, close);
      DocOfMeans(ms[0].value, i);
      EntriesAreOk(ms[1..], i, close);
      assert es[1..] == EntriesOf(ms[1..], i, close);
      assert EntryOk(es[0]);
      forall k | 0 <= k < |ms| ensures EntryOk(es[k]) {
        assert k > 0 ==> es[k] == es[1..][k - 1];
      }
    }
  }

  /** Storing an entry whose key comes behind all others puts its member there. */
  lemma StoredStep(done: seq<Member>, es: seq<Entry>, m: Member)
    requires es != [] && EntriesOk(es) && EntryOk(es[0]) && ItemOk(es[0].item)
    requires FormsBytes(es[0].key) == m.key && Meaning(es[0].item.doc) == m.value
    requires forall k :: 0 <= k < |done| ==> Less(done[k].key, m.key)
    ensures EntriesOk(es[1..])
    ensures Stored(done, es) == Stored(done + [m], es[1..])
  {
    StoreLast(done, m.key, m.value);
    assert m == Member(m.key, m.value);
  }

  lemma FirstEntryMeans(ms: seq<Member>, i: Indent, close: bytes)
    requires ms != [] && EntriesOk(EntriesOf(ms, i, close))
    requires DocOk(DocOf(ms[0].value, i)) && Meaning(DocOf(ms[0].value, i)) == ms[0].value
    ensures var es := EntriesOf(ms, i, close);
      && EntryOk(es[0]) && ItemOk(es[0].item)
      && FormsBytes(es[0].key) == ms[0].key && Meaning(es[0].item.doc) == ms[0].value
      && es[1..] == EntriesOf(ms[1..], i, close)
  {
    CharsAreForms(ms[0].key, []);
    var es := EntriesOf(ms, i, close);
    assert EntryOk(es[0]);
  }

  predicate AllWellFormed(ms: seq<Member>) {
    forall k :: 0 <= k < |ms| ==> WellFormed(ms[k].value)
  }

  lemma MembersStep(ms: seq<Member>, i: Indent, close: bytes, done: seq<Member>)
    requires ms != [] && SortedKeys(done + ms) && EntriesOk(EntriesOf(ms, i, close))
    requires DocOk(DocOf(ms[0].value, i)) && Meaning(DocOf(ms[0].value, i)) == ms[0].value
    ensures EntriesOk(EntriesOf(ms[1..], i, close)) && SortedKeys((done + [ms[0]]) + ms[1..])
    ensures Stored(done, EntriesOf(ms, i, close)) == Stored(done + [ms[0]], EntriesOf(ms[1..], i, close))
  {
    SortedAround(done, ms);
    FirstEntryMeans(ms, i, close);
    StoredStep(done, EntriesOf(ms, i, close), ms[0]);
  }

  lemma MembersJoin(done: seq<Member>, ms: seq<Member>)
    requires ms != []
    ensures (done + [ms[0]]) + ms[1..] == done + ms
  {
  }

  lemma RestWellFormed(ms: seq<Member>)
    requires AllWellFormed(ms) && ms != []
    ensures WellFormed(ms[0].value) && AllWellFormed(ms[1..])
  {
  }

  lemma {:induction false} MembersMean(ms: seq<Member>, i: Indent, close: bytes, done: seq<Member>)
    requires White(close) && SortedKeys(done + ms) && AllWellFormed(ms)
    ensures EntriesOk(EntriesOf(ms, i, close))
    ensures Stored(done, EntriesOf(ms, i, close)) == done + ms
    decreases ms, 4
  {
    EntriesAreOk(ms, i, close);
    if ms == [] {
      assert done + [] == done;
    } else {
      DocOfMeans(ms[0].value, i);
      MembersStep(ms, i, close, done);
      RestWellFormed(ms);
      MembersMean(ms[1..], i, close, done + [ms[0]]);
      MembersJoin(done, ms);
    }
  }

  lemma {:induction false} DocOfIsStandard(v: Value, i: Indent)
    ensures Standard(DocOf(v, i))
    decreases v, 2
  {
    match v {
      case Int(n) => NatTextIsPlain(if n < 0 then -n else n);
      case Arr(items) => ItemsAreStandard(items, Deeper(i), Line(i));
      case Obj(ms) => EntriesAreStandard(ms, Deeper(i), Line(i));
      case _ =>
    }
  }

  lemma {:induction false} ItemsAreStandard(items: seq<Value>, i: Indent, close: bytes)
    ensures forall k :: 0 <= k < |items| ==> Standard(ItemsOf(items, i, close)[k].doc)
    decreases items, 3
  {
    if items != [] {
      DocOfIsStandard(items[0], i);
      ItemsAreStandard(items[1..], i, close);
    }
  }

  lemma {:induction false} EntriesAreStandard(ms: seq<Member>, i: Indent, close: bytes)
    ensures forall k :: 0 <= k < |ms| ==> Standard(EntriesOf(ms, i, close)[k].item.doc)
    decreases ms, 3
  {
    if ms != [] {
      DocOfIsStandard(ms[0].value, i);
      EntriesAreStandard(ms[1..], i, close);
    }
  }

  /**
   * serialize writes a text of RFC 8259 that means the value: compact, or with a line of two spaces a level for each
   * item and member, a space behind each colon and a line end behind it all.
   */
  lemma SerializeIsJson(v: Value)
    requires WellFormed(v)
    ensures Serialize(v, false) == Written(DocOf(v, -1), [])
    ensures Serialize(v, true) == Written(DocOf(v, 0), ['\n' as int])
    ensures forall i: Indent :: DocOk(DocOf(v, i)) && Standard(DocOf(v, i)) && Meaning(DocOf(v, i)) == v
  {
    TextIsDoc(v, -1, []);
    TextIsDoc(v, 0, ['\n' as int]);
    assert Text(v, -1) + [] == Text(v, -1);
    forall i: Indent ensures DocOk(DocOf(v, i)) && Standard(DocOf(v, i)) && Meaning(DocOf(v, i)) == v {
      DocOfMeans(v, i);
      DocOfIsStandard(v, i);
    }
  }
}
