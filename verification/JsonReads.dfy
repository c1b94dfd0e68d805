/** The parser reads every text of the syntax as what it means, whatever white space and escapes it uses. */
module JsonReads {
  import opened Bytes
  import opened Json
  import opened JsonGrammar
  import opened JsonRoundTrip
  import opened JsonSyntax
  import opened Wrappers

  lemma WhiteIsWs(w: bytes)
    ensures White(w) <==> AllWs(w)
  {
    forall i | 0 <= i < |w| ensures IsWs(w[i]) <==> w[i] as char in " \t\n\r" {
    }
    if White(w) {
      assert forall c :: c in w ==> IsWs(c);
    }
    if AllWs(w) {
      assert forall i :: 0 <= i < |w| ==> w[i] in w;
    }
  }

  // ----- strings -----

  lemma FourDigitsRead(u: bytes, rest: bytes)
    requires FourDigits(u)
    ensures ParseHex4(u + rest) == Some((Code(u), rest))
  {
    assert (u + rest)[4..] == rest;
  }

  lemma HexRead(u: bytes, rest: bytes)
    requires FourDigits(u) && !(0xD800 <= Code(u) < 0xE000)
    ensures ParseScalar(u + rest) == Some((Code(u), rest))
  {
    FourDigitsRead(u, rest);
  }

  lemma PairRead(h: bytes, l: bytes, rest: bytes)
    requires FormOk(Pair(h, l))
    ensures ParseScalar(h + (['\\' as int, 'u' as int] + (l + rest)))
         == Some((0x1_0000 + (Code(h) - 0xD800) * 0x400 + (Code(l) - 0xDC00), rest))
  {
    var t := ['\\' as int, 'u' as int] + (l + rest);
    FourDigitsRead(h, t);
    FourDigitsRead(l, rest);
    assert t[2..] == l + rest;
  }

  lemma EscapeRead(s: bytes, u: nat, rest: bytes)
    requires ParseScalar(s) == Some((u, rest)) && u < 0x11_0000
    ensures ParseChar(['\\' as int, 'u' as int] + s) == Some((Utf8Bytes(u), rest))
  {
    assert (['\\' as int, 'u' as int] + s)[2..] == s;
  }

  lemma LetterRead(e: byte, rest: bytes)
    requires FormOk(Letter(e))
    ensures ParseChar(FormText(Letter(e)) + rest) == Some((FormBytes(Letter(e)), rest))
  {
    assert ([0x5C, e] + rest)[2..] == rest;
  }

  lemma RawRead(c: byte, rest: bytes)
    requires FormOk(Raw(c))
    ensures ParseChar([c] + rest) == Some(([c], rest))
  {
    assert ([c] + rest)[1..] == rest;
  }

  lemma HexFormRead(u: bytes, rest: bytes)
    requires FormOk(Hex(u))
    ensures ParseChar(FormText(Hex(u)) + rest) == Some((FormBytes(Hex(u)), rest))
  {
    HexRead(u, rest);
    EscapeRead(u + rest, Code(u), rest);
    Assoc(['\\' as int, 'u' as int], u, rest);
  }

  lemma PairText(h: bytes, l: bytes, rest: bytes)
    ensures FormText(Pair(h, l)) + rest
         == ['\\' as int, 'u' as int] + (h + (['\\' as int, 'u' as int] + (l + rest)))
  {
  }

  lemma PairFormRead(h: bytes, l: bytes, rest: bytes)
    requires FormOk(Pair(h, l))
    ensures ParseChar(FormText(Pair(h, l)) + rest) == Some((FormBytes(Pair(h, l)), rest))
  {
    var u := 0x1_0000 + (Code(h) - 0xD800) * 0x400 + (Code(l) - 0xDC00);
    PairRead(h, l, rest);
    EscapeRead(h + (['\\' as int, 'u' as int] + (l + rest)), u, rest);
    PairText(h, l, rest);
  }

  lemma FormStart(f: Form)
    requires FormOk(f)
    ensures FormText(f) != [] && FormText(f)[0] != QUOTE
  {
  }

  /** One character of a string, whatever its form. */
  lemma FormRead(f: Form, rest: bytes)
    requires FormOk(f)
    ensures ParseChar(FormText(f) + rest) == Some((FormBytes(f), rest))
  {
    match f {
      case Raw(c) => RawRead(c, rest);
      case Letter(e) => LetterRead(e, rest);
      case Hex(u) => HexFormRead(u, rest);
      case Pair(h, l) => PairFormRead(h, l, rest);
    }
  }

  lemma {:induction false} FormsRead(fs: seq<Form>, rest: bytes)
    requires FormsOk(fs)
    ensures ParseString(WrittenForms(fs, ['"' as int] + rest)) == Some((FormsBytes(fs), rest))
  {
    if fs == [] {
      assert (['"' as int] + rest)[1..] == rest;
    } else {
      var t := WrittenForms(fs[1..], ['"' as int] + rest);
      FormsRead(fs[1..], rest);
      FormStart(fs[0]);
      FormRead(fs[0], t);
      ParseStringStep(FormText(fs[0]) + t, FormBytes(fs[0]), t, FormsBytes(fs[1..]), rest);
    }
  }

  // ----- scalars -----

  lemma WordRead(d: Doc, rest: bytes, depth: nat)
    requires d.NullDoc? || d.BoolDoc?
    ensures ParseValue(Written(d, rest), depth) == Ok((Meaning(d), rest))
  {
    assert Ascii("null") == NULL_TEXT && Ascii("true") == TRUE_TEXT && Ascii("false") == FALSE_TEXT;
    LiteralRoundTrip(Meaning(d), -1, rest, depth);
  }

  lemma DigitsAre(t: bytes)
    requires Decimals(t)
    ensures AllDecimal(t) && forall c :: c in t ==> IsNumberChar(c)
  {
  }

  lemma NumberIs(minus: bool, t: bytes)
    requires Decimals(t) && MIN_INT64 <= Signed(minus, t) <= MAX_INT64
    ensures IntegerOf(if minus then ['-' as int] + t else t) == Some(Signed(minus, t))
  {
    DigitsAre(t);
    if minus {
      assert (['-' as int] + t)[1..] == t;
    }
  }

  /** A text of number characters in front of another character is the number it spells. */
  lemma NumberStart(text: bytes, rest: bytes, i: int, depth: nat)
    requires text != [] && (IsDigit(text[0]) || text[0] == MINUS) && IntegerOf(text) == Some(i)
    requires NumberSpan(text + rest) == |text|
    ensures ParseValue(text + rest, depth) == Ok((Int(i), rest))
  {
    var t := text + rest;
    assert t[..|text|] == text && t[|text|..] == rest;
    assert SkipWs(t) == t;
  }

  lemma NumberChars(minus: bool, t: bytes)
    requires Decimals(t)
    ensures forall c :: c in (if minus then ['-' as int] + t else t) ==> IsNumberChar(c)
  {
    DigitsAre(t);
  }

  lemma NumberRead(minus: bool, t: bytes, rest: bytes, depth: nat)
    requires DocOk(NumberDoc(minus, t)) && (rest == [] || !IsNumberChar(rest[0]))
    ensures ParseValue(Written(NumberDoc(minus, t), rest), depth) == Ok((Int(Signed(minus, t)), rest))
  {
    var text := if minus then ['-' as int] + t else t;
    NumberChars(minus, t);
    NumberIs(minus, t);
    NumberSpanIs(text, rest);
    NumberStart(text, rest, Signed(minus, t), depth);
  }

  lemma StringRead(fs: seq<Form>, rest: bytes, depth: nat)
    requires FormsOk(fs)
    ensures ParseValue(WrittenString(fs, rest), depth) == Ok((Str(FormsBytes(fs)), rest))
  {
    FormsRead(fs, rest);
    StringStart(WrittenForms(fs, ['"' as int] + rest), depth);
  }

  // ----- arrays and objects -----

  /** What stands behind a value so that a number ends there. */
  predicate Ends(d: Doc, rest: bytes) {
    d.NumberDoc? ==> rest == [] || rest[0] as char !in "0123456789+-.eE"
  }

  lemma NumberCharIs(c: byte)
    ensures IsNumberChar(c) <==> c as char in "0123456789+-.eE"
  {
  }

  lemma WhiteEnds(d: Doc, w: bytes, s: bytes)
    requires White(w) && s != [] && !IsNumberChar(s[0])
    ensures Ends(d, w + s)
  {
    WhiteIsWs(w);
    NumberCharIs((w + s)[0]);
    assert w != [] ==> (w + s)[0] == w[0] && w[0] in w;
  }

  /** A text starts with no white space and closes nothing. */
  lemma WrittenStart(d: Doc, rest: bytes)
    requires DocOk(d)
    ensures Written(d, rest) != [] && !IsWs(Written(d, rest)[0])
    ensures Written(d, rest)[0] != CLOSE_BRACKET && Written(d, rest)[0] != CLOSE_BRACE
  {
    assert Ascii("null")[0] == 'n' as int && Ascii("true")[0] == 't' as int && Ascii("false")[0] == 'f' as int;
  }

  lemma NothingYet(w: bytes, t: bytes, c: byte)
    requires White(w) && t != [] && !IsWs(t[0]) && t[0] != c
    ensures Expect(w + t, c) == None
  {
    WhiteIsWs(w);
    assert t == [t[0]] + t[1..];
    ExpectBehindWs(w, t[0], t[1..]);
  }

  lemma ItemsOpen(items: seq<Item>, end: bytes)
    requires items != [] && ItemOk(items[0])
    ensures Expect(WrittenItems(items, end), CLOSE_BRACKET) == None
  {
    var next := if |items| == 1 then end else [',' as int] + WrittenItems(items[1..], end);
    WrittenStart(items[0].doc, items[0].after + next);
    NothingYet(items[0].before, Written(items[0].doc, items[0].after + next), CLOSE_BRACKET);
  }

  lemma MembersOpen(ms: seq<Entry>, end: bytes)
    requires ms != [] && EntryOk(ms[0])
    ensures Expect(WrittenMembers(ms, end), CLOSE_BRACE) == None
  {
    var m := ms[0];
    var next := if |ms| == 1 then end else [',' as int] + WrittenMembers(ms[1..], end);
    var t := m.mid + ([':' as int] + (m.item.before + Written(m.item.doc, m.item.after + next)));
    NothingYet(m.before, WrittenString(m.key, t), CLOSE_BRACE);
  }

  /** The item loop behind a value that was read. */
  lemma ItemThen(w: bytes, s: bytes, d: nat, done: seq<Value>, v: Value, after: bytes, next: bytes)
    requires White(w) && White(after) && ParseValue(s, d) == Ok((v, after + next))
    ensures next != [] && next[0] == ',' as int ==> ParseItems(w + s, d, done) == ParseItems(next[1..], d, done + [v])
    ensures next != [] && next[0] == ']' as int ==> ParseItems(w + s, d, done) == Ok((done + [v], next[1..]))
  {
    WhiteIsWs(w);
    WhiteIsWs(after);
    ItemStep(w, s, d, done);
    if next != [] && !IsWs(next[0]) {
      assert next == [next[0]] + next[1..];
      ExpectBehindWs(after, next[0], next[1..]);
    }
  }

  lemma KeyRead(w: bytes, fs: seq<Form>, mid: bytes, rest: bytes)
    requires White(w) && FormsOk(fs) && White(mid)
    ensures ParseKey(w + WrittenString(fs, mid + ([':' as int] + rest))) == Some((FormsBytes(fs), rest))
  {
    WhiteIsWs(w);
    WhiteIsWs(mid);
    var t := mid + ([':' as int] + rest);
    ExpectBehindWs(w, QUOTE, WrittenForms(fs, ['"' as int] + t));
    FormsRead(fs, t);
    ExpectBehindWs(mid, COLON, rest);
  }

  /** The member loop behind a value that was read. */
  lemma MemberThen(s: bytes, d: nat, done: seq<Member>, key: bytes, w: bytes, u: bytes, v: Value, after: bytes,
                   next: bytes)
    requires ParseKey(s) == Some((key, w + u)) && White(w) && White(after) && ParseValue(u, d) == Ok((v, after + next))
    ensures next != [] && next[0] == ',' as int ==>
      ParseMembers(s, d, done) == ParseMembers(next[1..], d, Store(done, key, v))
    ensures next != [] && next[0] == '}' as int ==> ParseMembers(s, d, done) == Ok((Store(done, key, v), next[1..]))
  {
    WhiteIsWs(w);
    WhiteIsWs(after);
    MemberStep(s, d, done, key, w + u);
    ParseBehindWs(w, u, d);
    if next != [] && !IsWs(next[0]) {
      assert next == [next[0]] + next[1..];
      ExpectBehindWs(after, next[0], next[1..]);
    }
  }

  /** What follows the first item, or member, of a list. */
  function BehindItem(items: seq<Item>, end: bytes): bytes
    requires items != []
  {
    if |items| == 1 then end else [',' as int] + WrittenItems(items[1..], end)
  }

  function BehindEntry(ms: seq<Entry>, end: bytes): bytes
    requires ms != []
  {
    if |ms| == 1 then end else [',' as int] + WrittenMembers(ms[1..], end)
  }

  /** The item loop over the first item, given how its value reads. */
  lemma FirstItem(items: seq<Item>, rest: bytes, d: nat, done: seq<Value>, v: Value)
    requires items != [] && ItemOk(items[0])
    requires var t := items[0].after + BehindItem(items, [']' as int] + rest);
      ParseValue(Written(items[0].doc, t), d) == Ok((v, t))
    ensures var end := [']' as int] + rest;
      ParseItems(WrittenItems(items, end), d, done)
        == if |items| == 1 then Ok((done + [v], rest)) else ParseItems(WrittenItems(items[1..], end), d, done + [v])
  {
    var x, end := items[0], [']' as int] + rest;
    var next := BehindItem(items, end);
    ItemThen(x.before, Written(x.doc, x.after + next), d, done, v, x.after, next);
    assert next[1..] == if |items| == 1 then rest else WrittenItems(items[1..], end);
  }

  /** The member loop over the first member, given how its value reads. */
  lemma FirstMember(ms: seq<Entry>, rest: bytes, d: nat, done: seq<Member>, v: Value)
    requires ms != [] && EntryOk(ms[0])
    requires var t := ms[0].item.after + BehindEntry(ms, ['}' as int] + rest);
      ParseValue(Written(ms[0].item.doc, t), d) == Ok((v, t))
    ensures var end, more := ['}' as int] + rest, Store(done, FormsBytes(ms[0].key), v);
      ParseMembers(WrittenMembers(ms, end), d, done)
        == if |ms| == 1 then Ok((more, rest)) else ParseMembers(WrittenMembers(ms[1..], end), d, more)
  {
    var m, x, end := ms[0], ms[0].item, ['}' as int] + rest;
    var next := BehindEntry(ms, end);
    var u := Written(x.doc, x.after + next);
    KeyRead(m.before, m.key, m.mid, x.before + u);
    MemberThen(WrittenMembers(ms, end), d, done, FormsBytes(m.key), x.before, u, v, x.after, next);
    assert next[1..] == if |ms| == 1 then rest else WrittenMembers(ms[1..], end);
  }

  /** Items and members that are well-formed and fit the depth. */
  predicate ItemsReady(items: seq<Item>, d: nat) {
    ItemsOk(items) && forall i :: 0 <= i < |items| ==> DocFits(items[i].doc, d)
  }

  predicate EntriesReady(ms: seq<Entry>, d: nat) {
    EntriesOk(ms) && forall i :: 0 <= i < |ms| ==> DocFits(ms[i].item.doc, d)
  }

  lemma ItemsSplit(items: seq<Item>, d: nat)
    requires ItemsReady(items, d) && items != []
    ensures ItemOk(items[0]) && DocFits(items[0].doc, d) && ItemsReady(items[1..], d)
    ensures ItemsOk(items) && ItemsOk(items[1..])
    ensures Meanings(items) == [Meaning(items[0].doc)] + Meanings(items[1..])
  {
  }

  lemma EntriesSplit(ms: seq<Entry>, d: nat, done: seq<Member>)
    requires EntriesReady(ms, d) && ms != []
    ensures EntryOk(ms[0]) && ItemOk(ms[0].item) && DocFits(ms[0].item.doc, d) && EntriesReady(ms[1..], d)
    ensures EntriesOk(ms) && EntriesOk(ms[1..])
    ensures Stored(done, ms) == Stored(Store(done, FormsBytes(ms[0].key), Meaning(ms[0].item.doc)), ms[1..])
  {
  }

  // ----- every text -----

  /** Every text of the syntax that fits the depth is read as what it means, up to its end. */
  lemma {:induction false} DocRead(d: Doc, rest: bytes, depth: nat)
    requires DocOk(d) && DocFits(d, depth) && Ends(d, rest)
    ensures ParseValue(Written(d, rest), depth) == Ok((Meaning(d), rest))
    decreases d, 2
  {
    match d {
      case NullDoc => WordRead(d, rest, depth);
      case BoolDoc(_) => WordRead(d, rest, depth);
      case NumberDoc(minus, t) =>
        if rest != [] {
          NumberCharIs(rest[0]);
        }
        NumberRead(minus, t, rest, depth);
      case StringDoc(fs) => StringRead(fs, rest, depth);
      case ArrayDoc(gap, items) => ArrayRead(gap, items, d, rest, depth);
      case ObjectDoc(gap, ms) => ObjectRead(gap, ms, d, rest, depth);
    }
  }

  lemma EmptyArrayRead(gap: bytes, rest: bytes, depth: nat)
    requires White(gap) && depth > 0
    ensures ParseValue(['[' as int] + (gap + ([']' as int] + rest)), depth) == Ok((Arr([]), rest))
  {
    WhiteIsWs(gap);
    ExpectBehindWs(gap, CLOSE_BRACKET, rest);
    JsonRoundTrip.ArrayStart(gap + ([']' as int] + rest), depth);
  }

  lemma {:induction false} ArrayRead(gap: bytes, items: seq<Item>, d: Doc, rest: bytes, depth: nat)
    requires d == ArrayDoc(gap, items) && DocOk(d) && DocFits(d, depth)
    ensures ParseValue(Written(d, rest), depth) == Ok((Meaning(d), rest))
    decreases d, 1
  {
    if items == [] {
      EmptyArrayRead(gap, rest, depth);
    } else {
      var end := [']' as int] + rest;
      assert ItemsReady(items, depth - 1);
      ItemsSplit(items, depth - 1);
      ItemsOpen(items, end);
      ItemsRead(items, rest, depth - 1, []);
      assert [] + Meanings(items) == Meanings(items);
      JsonRoundTrip.ArrayStart(WrittenItems(items, end), depth);
    }
  }

  lemma {:induction false} ItemsRead(items: seq<Item>, rest: bytes, d: nat, done: seq<Value>)
    requires items != [] && ItemsReady(items, d)
    ensures ItemsOk(items)
    ensures ParseItems(WrittenItems(items, [']' as int] + rest), d, done) == Ok((done + Meanings(items), rest))
    decreases items, 3
  {
    var x, end := items[0], [']' as int] + rest;
    ItemsSplit(items, d);
    WhiteEnds(x.doc, x.after, BehindItem(items, end));
    DocRead(x.doc, x.after + BehindItem(items, end), d);
    FirstItem(items, rest, d, done, Meaning(x.doc));
    if |items| == 1 {
      assert Meanings(items[1..]) == [] && [Meaning(x.doc)] + [] == [Meaning(x.doc)];
    } else {
      ItemsRead(items[1..], rest, d, done + [Meaning(x.doc)]);
      assert done + ([Meaning(x.doc)] + Meanings(items[1..])) == (done + [Meaning(x.doc)]) + Meanings(items[1..]);
    }
  }

  lemma EmptyObjectRead(gap: bytes, rest: bytes, depth: nat)
    requires White(gap) && depth > 0
    ensures ParseValue(['{' as int] + (gap + (['}' as int] + rest)), depth) == Ok((Obj([]), rest))
  {
    WhiteIsWs(gap);
    ExpectBehindWs(gap, CLOSE_BRACE, rest);
    ObjectStart(gap + (['}' as int] + rest), depth);
  }

  lemma {:induction false} ObjectRead(gap: bytes, ms: seq<Entry>, d: Doc, rest: bytes, depth: nat)
    requires d == ObjectDoc(gap, ms) && DocOk(d) && DocFits(d, depth)
    ensures ParseValue(Written(d, rest), depth) == Ok((Meaning(d), rest))
    decreases d, 1
  {
    if ms == [] {
      EmptyObjectRead(gap, rest, depth);
    } else {
      var end := ['}' as int] + rest;
      assert EntriesReady(ms, depth);
      EntriesSplit(ms, depth, []);
      MembersOpen(ms, end);
      MembersRead(ms, rest, depth, []);
      ObjectStart(WrittenMembers(ms, end), depth);
    }
  }

  lemma {:induction false} MembersRead(ms: seq<Entry>, rest: bytes, d: nat, done: seq<Member>)
    requires ms != [] && EntriesReady(ms, d)
    ensures EntriesOk(ms)
    ensures ParseMembers(WrittenMembers(ms, ['}' as int] + rest), d, done) == Ok((Stored(done, ms), rest))
    decreases ms, 3
  {
    var x, end := ms[0].item, ['}' as int] + rest;
    EntriesSplit(ms, d, done);
    WhiteEnds(x.doc, x.after, BehindEntry(ms, end));
    DocRead(x.doc, x.after + BehindEntry(ms, end), d);
    FirstMember(ms, rest, d, done, Meaning(x.doc));
    var more := Store(done, FormsBytes(ms[0].key), Meaning(x.doc));
    if |ms| == 1 {
      assert Stored(more, ms[1..]) == more;
    } else {
      MembersRead(ms[1..], rest, d, more);
    }
  }

  /** A whole text with white space in front, whatever follows it: the parser returns what it means. */
  lemma ParseRead(w: bytes, d: Doc, rest: bytes)
    requires White(w) && DocOk(d) && DocFits(d, 100) && Ends(d, rest)
    ensures Parse(w + Written(d, rest)) == Ok(Meaning(d))
  {
    WhiteIsWs(w);
    DocRead(d, rest, 100);
    ParseBehindWs(w, Written(d, rest), 100);
  }
}
