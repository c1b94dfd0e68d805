/** The parser reads nothing but the texts of the syntax: every text it accepts is one, and means what is returned. */
module JsonAccepts {
  import opened Bytes
  import opened Json
  import opened JsonGrammar
  import opened JsonReads
  import opened JsonRoundTrip
  import opened JsonSyntax
  import opened Wrappers

  // ----- white space -----

  lemma {:induction false} SkippedIsWhite(s: bytes) returns (w: bytes)
    ensures White(w) && s == w + SkipWs(s)
    ensures SkipWs(s) != [] ==> !IsWs(SkipWs(s)[0])
  {
    if s != [] && IsWs(s[0]) {
      var rest := SkippedIsWhite(s[1..]);
      w := [s[0]] + rest;
      assert s == [s[0]] + s[1..];
    } else {
      w := [];
    }
  }

  lemma ExpectedIsBehind(s: bytes, c: byte) returns (w: bytes)
    requires Expect(s, c).Some?
    ensures White(w) && s == w + ([c] + Expect(s, c).value)
  {
    w := SkippedIsWhite(s);
  }

  // ----- strings -----

  lemma HexIsFour(s: bytes) returns (u: bytes)
    requires ParseHex4(s).Some?
    ensures FourDigits(u) && Code(u) == ParseHex4(s).value.0 && s == u + ParseHex4(s).value.1
  {
    u := s[..4];
  }

  lemma ScalarIsForm(s: bytes) returns (f: Form)
    requires ParseScalar(s).Some?
    ensures FormOk(f) && FormBytes(f) == Utf8Bytes(ParseScalar(s).value.0)
    ensures ['\\' as int, 'u' as int] + s == FormText(f) + ParseScalar(s).value.1
  {
    var h := HexIsFour(s);
    var t := ParseHex4(s).value.1;
    if HighSurrogate(Code(h)) {
      var l := HexIsFour(t[2..]);
      f := Pair(h, l);
      assert t == ['\\' as int, 'u' as int] + t[2..];
      PairText(h, l, ParseScalar(s).value.1);
    } else {
      f := Hex(h);
      Assoc(['\\' as int, 'u' as int], h, t);
    }
  }

  /** One accepted character is one of the forms. */
  lemma CharIsSomeForm(s: bytes) returns (f: Form)
    requires s != [] && s[0] != QUOTE && ParseChar(s).Some?
    ensures FormOk(f) && FormBytes(f) == ParseChar(s).value.0 && s == FormText(f) + ParseChar(s).value.1
  {
    if s[0] != BACKSLASH {
      f := Raw(s[0]);
    } else if s[1] == LETTER_U {
      f := ScalarIsForm(s[2..]);
      assert s == ['\\' as int, 'u' as int] + s[2..];
    } else {
      f := Letter(s[1]);
      LetterIs(s[1]);
    }
  }

  lemma LetterIs(e: byte)
    requires Unescaped(e).Some?
    ensures FormOk(Letter(e)) && FormBytes(Letter(e)) == [Unescaped(e).value]
  {
  }

  lemma {:induction false} StringIsSomeForms(s: bytes) returns (fs: seq<Form>)
    requires ParseString(s).Some?
    ensures FormsOk(fs) && FormsBytes(fs) == ParseString(s).value.0
    ensures s == WrittenForms(fs, ['"' as int] + ParseString(s).value.1)
    decreases |s|
  {
    if s[0] == QUOTE {
      fs := [];
    } else {
      var f := CharIsSomeForm(s);
      var more := StringIsSomeForms(ParseChar(s).value.1);
      fs := [f] + more;
      assert fs[1..] == more;
    }
  }

  // ----- scalars -----

  /** An accepted text: white space, a value of the syntax that fits the depth, and a rest that ends it. */
  predicate ReadAs(s: bytes, d: nat, w: bytes, doc: Doc, v: Value, rest: bytes) {
    White(w) && DocOk(doc) && DocFits(doc, d) && Ends(doc, rest) && Meaning(doc) == v && s == w + Written(doc, rest)
  }

  lemma LiteralIsWord(t: bytes, d: Doc)
    requires d.NullDoc? || d.BoolDoc?
    requires var word := Ascii(if d.NullDoc? then "null" else if d.b then "true" else "false"); word <= t
    ensures var word := Ascii(if d.NullDoc? then "null" else if d.b then "true" else "false");
      t == Written(d, t[|word|..])
  {
  }

  lemma {:induction false} NumberSpanStops(s: bytes)
    ensures NumberSpan(s) < |s| ==> !IsNumberChar(s[NumberSpan(s)])
  {
    if s != [] && IsNumberChar(s[0]) {
      NumberSpanStops(s[1..]);
    }
  }

  lemma IntegerIsDigits(t: bytes) returns (minus: bool, digits: bytes)
    requires IntegerOf(t).Some? && t[0] != 0x2B
    ensures Decimals(digits) && t == (if minus then ['-' as int] + digits else digits)
    ensures IntegerOf(t).value == JsonSyntax.Signed(minus, digits)
  {
    minus := t[0] == MINUS;
    digits := if minus then t[1..] else t;
    assert forall i :: 0 <= i < |digits| ==> digits[i] in digits;
  }

  lemma NumberIsDoc(t: bytes, d: nat) returns (doc: Doc)
    requires t != [] && (IsDigit(t[0]) || t[0] == MINUS) && ParseValue(t, d).Ok?
    ensures ReadAs(t, d, [], doc, ParseValue(t, d).value.0, ParseValue(t, d).value.1)
  {
    var n := NumberSpan(t);
    NumberSpanStops(t);
    if n < |t| {
      NumberCharIs(t[n]);
    }
    var minus, digits := IntegerIsDigits(t[..n]);
    doc := NumberDoc(minus, digits);
    assert t == t[..n] + t[n..];
  }

  // ----- values -----

  lemma BehindWhite(s: bytes, d: nat, w: bytes, doc: Doc, v: Value, rest: bytes, t: bytes)
    requires White(w) && s == w + t && ReadAs(t, d, [], doc, v, rest)
    ensures ReadAs(s, d, w, doc, v, rest)
  {
    assert [] + Written(doc, rest) == Written(doc, rest);
  }

  lemma {:induction false} AcceptedIsDoc(s: bytes, d: nat) returns (w: bytes, doc: Doc)
    requires ParseValue(s, d).Ok?
    ensures ReadAs(s, d, w, doc, ParseValue(s, d).value.0, ParseValue(s, d).value.1)
    decreases |s|, 2
  {
    w := SkippedIsWhite(s);
    SkippedValue(s, d);
    doc := ValueIsSomeDoc(SkipWs(s), d);
    BehindWhite(s, d, w, doc, ParseValue(s, d).value.0, ParseValue(s, d).value.1, SkipWs(s));
  }

  lemma {:induction false} ValueIsSomeDoc(t: bytes, d: nat) returns (doc: Doc)
    requires t != [] && !IsWs(t[0]) && ParseValue(t, d).Ok?
    ensures ReadAs(t, d, [], doc, ParseValue(t, d).value.0, ParseValue(t, d).value.1)
    decreases |t|, 1
  {
    if t[0] == QUOTE {
      doc := StringValueIsDoc(t, d);
    } else if t[0] == OPEN_BRACKET {
      doc := ArrayIsSomeDoc(t, d);
    } else if t[0] == OPEN_BRACE {
      doc := ObjectIsSomeDoc(t, d);
    } else if IsDigit(t[0]) || t[0] == MINUS {
      doc := NumberIsDoc(t, d);
    } else {
      doc := WordIsSomeDoc(t, d);
    }
  }

  lemma {:induction false} SkippedValue(s: bytes, d: nat)
    requires ParseValue(s, d).Ok?
    ensures ParseValue(SkipWs(s), d) == ParseValue(s, d) && SkipWs(s) != [] && |SkipWs(s)| <= |s|
  {
    var w := SkippedIsWhite(s);
    WhiteIsWs(w);
    ParseBehindWs(w, SkipWs(s), d);
  }

  lemma StringValueIsDoc(t: bytes, d: nat) returns (doc: Doc)
    requires t != [] && t[0] == QUOTE && ParseValue(t, d).Ok?
    ensures ReadAs(t, d, [], doc, ParseValue(t, d).value.0, ParseValue(t, d).value.1)
  {
    assert t == [QUOTE] + t[1..];
    StringStart(t[1..], d);
    var fs := StringIsSomeForms(t[1..]);
    doc := StringDoc(fs);
  }

  lemma WordIsSomeDoc(t: bytes, d: nat) returns (doc: Doc)
    requires t != [] && t[0] !in [QUOTE, OPEN_BRACKET, OPEN_BRACE, MINUS] && !IsDigit(t[0]) && ParseValue(t, d).Ok?
    requires !IsWs(t[0])
    ensures ReadAs(t, d, [], doc, ParseValue(t, d).value.0, ParseValue(t, d).value.1)
  {
    assert Ascii("null") == NULL_TEXT && Ascii("true") == TRUE_TEXT && Ascii("false") == FALSE_TEXT;
    assert SkipWs(t) == t;
    doc := if t[0] == NULL_TEXT[0] then NullDoc else BoolDoc(t[0] == TRUE_TEXT[0]);
    LiteralIsWord(t, doc);
  }

  lemma EmptyArrayAs(t: bytes, d: nat, gap: bytes, rest: bytes)
    requires White(gap) && d > 0 && t == [OPEN_BRACKET] + (gap + ([CLOSE_BRACKET] + rest))
    ensures ReadAs(t, d, [], ArrayDoc(gap, []), Arr([]), rest)
  {
  }

  lemma FullArrayAs(s: bytes, d: nat, items: seq<Item>, all: seq<Value>, rest: bytes)
    requires d > 0 && ItemsAs(s, d - 1, [], items, all, rest)
    ensures ReadAs([OPEN_BRACKET] + s, d, [], ArrayDoc([], items), Arr(all), rest)
  {
  }

  lemma {:induction false} ArrayIsSomeDoc(t: bytes, d: nat) returns (doc: Doc)
    requires t != [] && t[0] == OPEN_BRACKET && ParseValue(t, d).Ok?
    ensures ReadAs(t, d, [], doc, ParseValue(t, d).value.0, ParseValue(t, d).value.1)
    decreases |t|, 0
  {
    var s := t[1..];
    assert t == [OPEN_BRACKET] + s;
    JsonRoundTrip.ArrayStart(s, d);
    if Expect(s, CLOSE_BRACKET).Some? {
      var gap := ExpectedIsBehind(s, CLOSE_BRACKET);
      doc := ArrayDoc(gap, []);
      EmptyArrayAs(t, d, gap, Expect(s, CLOSE_BRACKET).value);
    } else {
      var items := ItemsAreSomeDocs(s, d - 1, []);
      doc := ArrayDoc([], items);
      FullArrayAs(s, d, items, ParseItems(s, d - 1, []).value.0, ParseItems(s, d - 1, []).value.1);
    }
  }

  lemma ItemsMore(s: bytes, d: nat, done: seq<Value>, v: Value, t: bytes)
    requires ParseValue(s, d) == Ok((v, t)) && Expect(t, COMMA).Some?
    ensures ParseItems(s, d, done) == ParseItems(Expect(t, COMMA).value, d, done + [v])
  {
  }

  lemma ItemsEnd(s: bytes, d: nat, done: seq<Value>, v: Value, t: bytes)
    requires ParseValue(s, d) == Ok((v, t)) && Expect(t, COMMA) == None && ParseItems(s, d, done).Ok?
    ensures Expect(t, CLOSE_BRACKET).Some?
    ensures ParseItems(s, d, done) == Ok((done + [v], Expect(t, CLOSE_BRACKET).value))
  {
  }

  lemma ItemReady(x: Item, more: seq<Item>, d: nat)
    requires ItemOk(x) && DocFits(x.doc, d) && ItemsReady(more, d)
    ensures ItemsReady([x] + more, d) && ItemsOk([x] + more) && ItemsOk(more)
    ensures Meanings([x] + more) == [Meaning(x.doc)] + Meanings(more)
  {
    assert ([x] + more)[1..] == more;
  }

  lemma ItemsJoin(x: Item, more: seq<Item>, end: bytes)
    ensures WrittenItems([x] + more, end)
         == x.before + Written(x.doc, x.after + if more == [] then end else [',' as int] + WrittenItems(more, end))
  {
    assert ([x] + more)[1..] == more;
  }

  /** What the items in front of a closing bracket are. */
  predicate ItemsAs(s: bytes, d: nat, done: seq<Value>, items: seq<Item>, all: seq<Value>, rest: bytes) {
    && items != [] && ItemsReady(items, d) && ItemsOk(items)
    && done + Meanings(items) == all && s == WrittenItems(items, [']' as int] + rest)
  }

  lemma MoreItems(s: bytes, d: nat, done: seq<Value>, x: Item, v: Value, t: bytes, r: bytes, more: seq<Item>,
                  all: seq<Value>, rest: bytes)
    requires ReadAs(s, d, x.before, x.doc, v, t) && White(x.after) && t == x.after + ([COMMA] + r)
    requires ItemsAs(r, d, done + [v], more, all, rest)
    ensures ItemsAs(s, d, done, [x] + more, all, rest)
  {
    ItemReady(x, more, d);
    ItemsJoin(x, more, [']' as int] + rest);
    assert done + ([v] + Meanings(more)) == (done + [v]) + Meanings(more);
  }

  lemma LastItem(s: bytes, d: nat, done: seq<Value>, x: Item, v: Value, t: bytes, rest: bytes)
    requires ReadAs(s, d, x.before, x.doc, v, t) && White(x.after) && t == x.after + ([CLOSE_BRACKET] + rest)
    ensures ItemsAs(s, d, done, [x], done + [v], rest)
  {
    ItemReady(x, [], d);
    ItemsJoin(x, [], [']' as int] + rest);
    assert [x] + [] == [x] && [v] + Meanings([]) == [v];
  }

  lemma {:induction false} ItemsAreSomeDocs(s: bytes, d: nat, done: seq<Value>) returns (items: seq<Item>)
    requires ParseItems(s, d, done).Ok?
    ensures ItemsAs(s, d, done, items, ParseItems(s, d, done).value.0, ParseItems(s, d, done).value.1)
    decreases |s|, 3
  {
    var w, doc := AcceptedIsDoc(s, d);
    var (v, t) := ParseValue(s, d).value;
    var all, rest := ParseItems(s, d, done).value.0, ParseItems(s, d, done).value.1;
    if Expect(t, COMMA).Some? {
      ItemsMore(s, d, done, v, t);
      var after := ExpectedIsBehind(t, COMMA);
      var more := ItemsAreSomeDocs(Expect(t, COMMA).value, d, done + [v]);
      MoreItems(s, d, done, Item(w, doc, after), v, t, Expect(t, COMMA).value, more, all, rest);
      items := [Item(w, doc, after)] + more;
    } else {
      ItemsEnd(s, d, done, v, t);
      var after := ExpectedIsBehind(t, CLOSE_BRACKET);
      LastItem(s, d, done, Item(w, doc, after), v, t, rest);
      items := [Item(w, doc, after)];
    }
  }

  lemma {:induction false} ObjectIsSomeDoc(t: bytes, d: nat) returns (doc: Doc)
    requires t != [] && t[0] == OPEN_BRACE && ParseValue(t, d).Ok?
    ensures ReadAs(t, d, [], doc, ParseValue(t, d).value.0, ParseValue(t, d).value.1)
    decreases |t|, 0
  {
    assert t == [OPEN_BRACE] + t[1..];
    ObjectStart(t[1..], d);
    if Expect(t[1..], CLOSE_BRACE).Some? {
      var gap := ExpectedIsBehind(t[1..], CLOSE_BRACE);
      doc := ObjectDoc(gap, []);
    } else {
      var ms := MembersAreSomeDocs(t[1..], d, []);
      doc := ObjectDoc([], ms);
    }
  }

  lemma KeyIsForms(s: bytes) returns (before: bytes, key: seq<Form>, mid: bytes)
    requires ParseKey(s).Some?
    ensures White(before) && FormsOk(key) && White(mid) && FormsBytes(key) == ParseKey(s).value.0
    ensures s == before + WrittenString(key, mid + ([':' as int] + ParseKey(s).value.1))
  {
    before := ExpectedIsBehind(s, QUOTE);
    var t := Expect(s, QUOTE).value;
    key := StringIsSomeForms(t);
    mid := ExpectedIsBehind(ParseString(t).value.1, COLON);
  }

  lemma MembersMore(s: bytes, d: nat, done: seq<Member>, v: Value, t: bytes)
    requires ParseKey(s).Some? && ParseValue(ParseKey(s).value.1, d) == Ok((v, t)) && Expect(t, COMMA).Some?
    ensures ParseMembers(s, d, done)
         == ParseMembers(Expect(t, COMMA).value, d, Store(done, ParseKey(s).value.0, v))
  {
  }

  lemma MembersEnd(s: bytes, d: nat, done: seq<Member>, v: Value, t: bytes)
    requires ParseKey(s).Some? && ParseValue(ParseKey(s).value.1, d) == Ok((v, t)) && Expect(t, COMMA) == None
    requires ParseMembers(s, d, done).Ok?
    ensures Expect(t, CLOSE_BRACE).Some?
    ensures ParseMembers(s, d, done) == Ok((Store(done, ParseKey(s).value.0, v), Expect(t, CLOSE_BRACE).value))
  {
  }

  lemma MembersStart(s: bytes, d: nat, done: seq<Member>)
    requires ParseMembers(s, d, done).Ok?
    ensures ParseKey(s).Some? && ParseValue(ParseKey(s).value.1, d).Ok?
  {
  }

  lemma EntryReady(m: Entry, more: seq<Entry>, d: nat, done: seq<Member>)
    requires EntryOk(m) && ItemOk(m.item) && DocFits(m.item.doc, d) && EntriesReady(more, d)
    ensures EntriesReady([m] + more, d) && EntriesOk([m] + more) && EntriesOk(more)
    ensures Stored(done, [m] + more) == Stored(Store(done, FormsBytes(m.key), Meaning(m.item.doc)), more)
  {
    assert ([m] + more)[1..] == more;
  }

  lemma EntriesJoin(m: Entry, more: seq<Entry>, end: bytes)
    ensures WrittenMembers([m] + more, end)
         == m.before + WrittenString(m.key, m.mid + ([':' as int] + (m.item.before + Written(m.item.doc, m.item.after
            + if more == [] then end else [',' as int] + WrittenMembers(more, end)))))
  {
    assert ([m] + more)[1..] == more;
  }

  /** What the members in front of a closing brace are. */
  predicate MembersAs(s: bytes, d: nat, done: seq<Member>, ms: seq<Entry>, all: seq<Member>, rest: bytes) {
    && ms != [] && EntriesReady(ms, d) && EntriesOk(ms)
    && Stored(done, ms) == all && s == WrittenMembers(ms, ['}' as int] + rest)
  }

  /** A key in front of the text u. */
  predicate KeyAs(s: bytes, m: Entry, k: bytes, u: bytes) {
    && White(m.before) && FormsOk(m.key) && White(m.mid) && FormsBytes(m.key) == k
    && s == m.before + WrittenString(m.key, m.mid + ([':' as int] + u))
  }

  lemma MoreMembers(s: bytes, d: nat, done: seq<Member>, m: Entry, k: bytes, u: bytes, v: Value, t: bytes, r: bytes,
                    more: seq<Entry>, all: seq<Member>, rest: bytes)
    requires KeyAs(s, m, k, u) && ReadAs(u, d, m.item.before, m.item.doc, v, t)
    requires White(m.item.after) && t == m.item.after + ([COMMA] + r)
    requires MembersAs(r, d, Store(done, k, v), more, all, rest)
    ensures MembersAs(s, d, done, [m] + more, all, rest)
  {
    EntryReady(m, more, d, done);
    EntriesJoin(m, more, ['}' as int] + rest);
  }

  lemma LastMember(s: bytes, d: nat, done: seq<Member>, m: Entry, k: bytes, u: bytes, v: Value, t: bytes, rest: bytes)
    requires KeyAs(s, m, k, u) && ReadAs(u, d, m.item.before, m.item.doc, v, t)
    requires White(m.item.after) && t == m.item.after + ([CLOSE_BRACE] + rest)
    ensures MembersAs(s, d, done, [m], Store(done, k, v), rest)
  {
    EntryReady(m, [], d, done);
    EntriesJoin(m, [], ['}' as int] + rest);
    assert [m] + [] == [m];
  }

  lemma {:induction false} MembersAreSomeDocs(s: bytes, d: nat, done: seq<Member>) returns (ms: seq<Entry>)
    requires ParseMembers(s, d, done).Ok?
    ensures MembersAs(s, d, done, ms, ParseMembers(s, d, done).value.0, ParseMembers(s, d, done).value.1)
    decreases |s|, 3
  {
    MembersStart(s, d, done);
    var before, key, mid := KeyIsForms(s);
    var (k, u) := ParseKey(s).value;
    var w, doc := AcceptedIsDoc(u, d);
    var (v, t) := ParseValue(u, d).value;
    var all, rest := ParseMembers(s, d, done).value.0, ParseMembers(s, d, done).value.1;
    if Expect(t, COMMA).Some? {
      MembersMore(s, d, done, v, t);
      var after := ExpectedIsBehind(t, COMMA);
      var more := MembersAreSomeDocs(Expect(t, COMMA).value, d, Store(done, k, v));
      ms := [Entry(before, key, mid, Item(w, doc, after))] + more;
      MoreMembers(s, d, done, ms[0], k, u, v, t, Expect(t, COMMA).value, more, all, rest);
    } else {
      MembersEnd(s, d, done, v, t);
      var after := ExpectedIsBehind(t, CLOSE_BRACE);
      ms := [Entry(before, key, mid, Item(w, doc, after))];
      LastMember(s, d, done, ms[0], k, u, v, t, rest);
    }
  }

  /**
   * The parser accepts exactly the texts that begin with a value of RFC 8259, white space in front of it, within the
   * depth of 100 and with 64-bit integers, zeros in front of those allowed; it returns what that value means.
   */
  lemma ParseExactly(s: bytes, v: Value)
    ensures Parse(s) == Ok(v) <==> exists w, doc, rest :: ReadAs(s, 100, w, doc, v, rest)
  {
    if Parse(s) == Ok(v) {
      var w, doc := AcceptedIsDoc(s, 100);
    }
    if w, doc, rest :| ReadAs(s, 100, w, doc, v, rest) {
      ParseRead(w, doc, rest);
    }
  }

  function Zeros(n: nat): (z: bytes)
    ensures |z| == n
  {
    seq(n, _ => '0' as int)
  }

  lemma {:induction false} ZerosCountNothing(n: nat)
    ensures Decimal(Zeros(n)) == 0
  {
    if n > 0 {
      ZerosCountNothing(n - 1);
      assert Zeros(n)[..n - 1] == Zeros(n - 1);
    }
  }

  lemma {:induction false} NothingAhead(z: bytes, t: bytes)
    requires Decimal(z) == 0
    ensures Decimal(z + t) == Decimal(t)
  {
    if t == [] {
      assert z + t == z;
    } else {
      NothingAhead(z, t[..|t| - 1]);
      assert (z + t)[..|z + t| - 1] == z + t[..|t| - 1];
    }
  }

  /** A number with any zeros in front is read all the same, which section 6 of RFC 8259 forbids. */
  lemma LeadingZerosAreRead(n: nat, t: bytes)
    requires Decimals(t) && Decimal(t) < 0x8000_0000_0000_0000
    ensures Parse(Zeros(n) + t) == Ok(Int(Decimal(t)))
    ensures n > 0 ==> !Plain(Zeros(n) + t)
  {
    var z := Zeros(n) + t;
    ZerosCountNothing(n);
    NothingAhead(Zeros(n), t);
    ParseRead([], NumberDoc(false, z), []);
    assert [] + (z + []) == z;
  }
}
