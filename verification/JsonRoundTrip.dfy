/** Parsing what the printers write gives back the value, exactly when it fits the depth budget. */
module JsonRoundTrip {
  import opened Bytes
  import opened Json
  import opened JsonGrammar
  import opened Wrappers

  // ----- white space -----

  predicate AllWs(w: bytes) {
    forall c :: c in w ==> IsWs(c)
  }

  lemma {:induction false} SkipWsPrefix(w: bytes, s: bytes)
    requires AllWs(w)
    ensures SkipWs(w + s) == SkipWs(s)
  {
    if w == [] {
      assert w + s == s;
    } else {
      assert w[0] in w && (w + s)[1..] == w[1..] + s;
      SkipWsPrefix(w[1..], s);
    }
  }

  lemma ExpectBehindWs(w: bytes, c: byte, s: bytes)
    requires AllWs(w) && !IsWs(c)
    ensures Expect(w + ([c] + s), c) == Some(s)
    ensures forall e: byte :: e != c ==> Expect(w + ([c] + s), e) == None
  {
    SkipWsPrefix(w, [c] + s);
    assert ([c] + s)[1..] == s;
  }

  lemma {:induction false} SpacesAreWs(n: nat)
    ensures AllWs(Spaces(n))
  {
    if n > 0 {
      SpacesAreWs(n - 1);
    }
  }

  lemma BreakIsWs(i: Indent)
    ensures AllWs(Break(i))
  {
    if i != -1 {
      SpacesAreWs(2 * i);
    }
  }

  // ----- strings -----

  lemma EscapeRoundTrip(c: byte, t: bytes)
    requires c < 0x20 || c == 0x7F
    ensures ParseScalar([0x30, 0x30, HexLower(c / 16), HexLower(c % 16)] + t) == Some((c, t))
  {
    var s := [0x30, 0x30, HexLower(c / 16), HexLower(c % 16)] + t;
    assert s[4..] == t;
  }

  lemma CharRoundTrip(c: byte, t: bytes)
    ensures CharText(c)[0] != QUOTE
    ensures ParseChar(CharText(c) + t) == Some(([c], t))
  {
    var s := CharText(c) + t;
    if |CharText(c)| == 6 {
      EscapeRoundTrip(c, t);
      assert s[2..] == [0x30, 0x30, HexLower(c / 16), HexLower(c % 16)] + t;
    } else {
      assert s[|CharText(c)|..] == t;
    }
  }

  lemma ParseStringStep(s: bytes, c: bytes, t: bytes, cs: bytes, rest: bytes)
    requires s != [] && s[0] != QUOTE && ParseChar(s) == Some((c, t)) && ParseString(t) == Some((cs, rest))
    ensures ParseString(s) == Some((c + cs, rest))
  {
  }

  lemma {:induction false} StringRoundTrip(x: bytes, rest: bytes)
    ensures ParseString(CharsText(x) + ([QUOTE] + rest)) == Some((x, rest))
  {
    if x == [] {
      assert [] + ([QUOTE] + rest) == [QUOTE] + rest;
      assert ([QUOTE] + rest)[1..] == rest;
    } else {
      var t := CharsText(x[1..]) + ([QUOTE] + rest);
      StringRoundTrip(x[1..], rest);
      CharRoundTrip(x[0], t);
      Assoc(CharText(x[0]), CharsText(x[1..]), [QUOTE] + rest);
      ParseStringStep(CharText(x[0]) + t, [x[0]], t, x[1..], rest);
      assert [x[0]] + x[1..] == x;
    }
  }

  // ----- integers -----

  lemma {:induction false} NatTextIs(n: nat)
    ensures AllDecimal(NatText(n)) && Decimal(NatText(n)) == n
  {
    var t := NatText(n);
    if n < 10 {
      assert t[..0] == [];
    } else {
      NatTextIs(n / 10);
      assert t[..|t| - 1] == NatText(n / 10);
    }
  }

  lemma IntTextIs(n: int)
    ensures MIN_INT64 <= n <= MAX_INT64 ==> IntegerOf(IntText(n)) == Some(n)
    ensures IsDigit(IntText(n)[0]) || IntText(n)[0] == MINUS
    ensures forall c :: c in IntText(n) ==> IsNumberChar(c)
  {
    NatTextIs(if n < 0 then -n else n);
    if n < 0 {
      assert IntText(n)[1..] == NatText(-n);
    } else {
      assert NatText(n)[0] in NatText(n);
    }
  }

  lemma IntRoundTrip(n: int, rest: bytes, d: nat)
    requires MIN_INT64 <= n <= MAX_INT64 && (rest == [] || !IsNumberChar(rest[0]))
    ensures ParseValue(IntText(n) + rest, d) == Ok((Int(n), rest))
  {
    var t := IntText(n);
    IntTextIs(n);
    NumberSpanIs(t, rest);
    assert (t + rest)[..|t|] == t && (t + rest)[|t|..] == rest;
  }

  // ----- values -----

  /** The first byte of a printed value starts no white space and closes nothing. */
  lemma TextStart(v: Value, i: Indent)
    ensures Text(v, i) != [] && !IsWs(Text(v, i)[0])
    ensures Text(v, i)[0] != CLOSE_BRACKET && Text(v, i)[0] != CLOSE_BRACE
  {
    if v.Int? {
      IntTextIs(v.n);
    }
  }

  predicate AllFit(items: seq<Value>, d: nat) {
    forall k :: 0 <= k < |items| ==> Fits(items[k], d)
  }

  predicate AllMembersFit(ms: seq<Member>, d: nat) {
    forall k :: 0 <= k < |ms| ==> Fits(ms[k].value, d)
  }

  /** The text behind a number must not continue it. */
  predicate EndsNumber(v: Value, rest: bytes) {
    v.Int? ==> rest == [] || !IsNumberChar(rest[0])
  }

  function Reparsed(v: Value, rest: bytes, d: nat): Parsed<Value> {
    if Fits(v, d) then Ok((v, rest)) else Err(Syntax)
  }

  lemma ParseBehindWs(w: bytes, s: bytes, d: nat)
    requires AllWs(w)
    ensures ParseValue(w + s, d) == ParseValue(s, d)
  {
    SkipWsPrefix(w, s);
  }

  lemma LiteralRoundTrip(v: Value, i: Indent, rest: bytes, d: nat)
    requires v.Null? || v.Bool?
    ensures ParseValue(Text(v, i) + rest, d) == Ok((v, rest))
  {
    var t := Text(v, i);
    assert (t + rest)[|t|..] == rest;
  }

  lemma StrRoundTrip(x: bytes, rest: bytes, d: nat)
    ensures ParseValue(StringText(x) + rest, d) == Ok((Str(x), rest))
  {
    StringRoundTrip(x, rest);
    StringStart(CharsText(x) + ([QUOTE] + rest), d);
    RegroupQuotes(CharsText(x), rest);
  }

  lemma RegroupQuotes(t: bytes, rest: bytes)
    ensures [QUOTE] + t + [QUOTE] + rest == [QUOTE] + (t + ([QUOTE] + rest))
  {
  }

  lemma StringStart(s: bytes, d: nat)
    ensures ParseValue([QUOTE] + s, d) ==
      match ParseString(s) case None => Err(Syntax) case Some(r) => Ok((Str(r.0), r.1))
  {
    assert ([QUOTE] + s)[1..] == s;
  }

  /** Printed values, in either style and at any indentation, read back as themselves exactly when they fit. */
  lemma {:induction false} ValueRoundTrip(v: Value, i: Indent, rest: bytes, d: nat)
    requires WellFormed(v) && EndsNumber(v, rest)
    ensures ParseValue(Text(v, i) + rest, d) == Reparsed(v, rest, d)
    decreases v, 2
  {
    match v {
      case Null => LiteralRoundTrip(v, i, rest, d);
      case Bool(_) => LiteralRoundTrip(v, i, rest, d);
      case Int(n) => IntRoundTrip(n, rest, d);
      case Str(x) => StrRoundTrip(x, rest, d);
      case Arr(items) => ArrayRoundTrip(items, v, i, rest, d);
      case Obj(ms) => ObjectRoundTrip(ms, v, i, rest, d);
    }
  }

  lemma ArrayStart(s: bytes, d: nat)
    ensures ParseValue([OPEN_BRACKET] + s, d) ==
      if d == 0 then Err(Syntax)
      else match Expect(s, CLOSE_BRACKET)
        case Some(r) => Ok((Arr([]), r))
        case None =>
          var r := ParseItems(s, d - 1, []);
          if r.Err? then Err(r.error) else Ok((Arr(r.value.0), r.value.1))
  {
    assert ([OPEN_BRACKET] + s)[1..] == s;
  }

  lemma RegroupFrame(open: bytes, t: bytes, w: bytes, close: bytes, rest: bytes)
    ensures open + t + w + close + rest == open + (t + (w + (close + rest)))
  {
  }

  /** An array behind its bracket, given how its items read. */
  lemma ArrayCombine(s: bytes, items: seq<Value>, rest: bytes, d: nat)
    requires Expect(s, CLOSE_BRACKET) == None
    requires d > 0 ==> ParseItems(s, d - 1, []) == if AllFit(items, d - 1) then Ok((items, rest)) else Err(Syntax)
    ensures ParseValue([OPEN_BRACKET] + s, d) == Reparsed(Arr(items), rest, d)
  {
    ArrayStart(s, d);
  }

  lemma EmptyArray(i: Indent, rest: bytes, d: nat)
    ensures ParseValue(Text(Arr([]), i) + rest, d) == Reparsed(Arr([]), rest, d)
  {
    var s := [] + ([CLOSE_BRACKET] + rest);
    ExpectBehindWs([], CLOSE_BRACKET, rest);
    ArrayStart(s, d);
    assert Text(Arr([]), i) + rest == [OPEN_BRACKET] + s;
  }

  lemma ArrayFrame(items: seq<Value>, i: Indent, rest: bytes)
    requires items != []
    ensures Text(Arr(items), i) + rest
         == [OPEN_BRACKET] + (ItemsText(items, Inner(i)) + (Break(i) + ([CLOSE_BRACKET] + rest)))
  {
    RegroupFrame([OPEN_BRACKET], ItemsText(items, Inner(i)), Break(i), [CLOSE_BRACKET], rest);
  }

  lemma {:induction false} ArrayRoundTrip(items: seq<Value>, v: Value, i: Indent, rest: bytes, d: nat)
    requires v == Arr(items) && WellFormed(v)
    ensures ParseValue(Text(v, i) + rest, d) == Reparsed(v, rest, d)
    decreases v, 1
  {
    if items == [] {
      EmptyArray(i, rest, d);
    } else {
      var end := Break(i) + ([CLOSE_BRACKET] + rest);
      var s := ItemsText(items, Inner(i)) + end;
      BreakIsWs(i);
      ItemsStart(items, Inner(i), end);
      if d > 0 {
        ItemsRoundTrip(items, Inner(i), Break(i), rest, d - 1, []);
        assert [] + items == items;
      }
      ArrayCombine(s, items, rest, d);
      ArrayFrame(items, i, rest);
    }
  }

  /** The item loop behind a value. */
  function AfterItem(done: seq<Value>, d: nat, r: Parsed<Value>): Parsed<seq<Value>> {
    if r.Err? then Err(r.error)
    else
      var items, t := done + [r.value.0], r.value.1;
      if Expect(t, COMMA).Some? then ParseItems(Expect(t, COMMA).value, d, items)
      else if Expect(t, CLOSE_BRACKET).Some? then Ok((items, Expect(t, CLOSE_BRACKET).value))
      else Err(Syntax)
  }

  lemma ItemStep(w: bytes, s: bytes, d: nat, done: seq<Value>)
    requires AllWs(w)
    ensures ParseItems(w + s, d, done) == AfterItem(done, d, ParseValue(s, d))
  {
    ParseBehindWs(w, s, d);
  }

  /** The step at a value behind which another item follows. */
  lemma AfterItemMore(done: seq<Value>, x: Value, more: bytes, d: nat)
    ensures AfterItem(done, d, Reparsed(x, [COMMA] + more, d))
         == if Fits(x, d) then ParseItems(more, d, done + [x]) else Err(Syntax)
  {
    ExpectBehindWs([], COMMA, more);
    assert [] + ([COMMA] + more) == [COMMA] + more;
  }

  /** The step at the last value. */
  lemma AfterItemLast(done: seq<Value>, x: Value, w: bytes, rest: bytes, d: nat)
    requires AllWs(w)
    ensures AfterItem(done, d, Reparsed(x, w + ([CLOSE_BRACKET] + rest), d))
         == if Fits(x, d) then Ok((done + [x], rest)) else Err(Syntax)
  {
    ExpectBehindWs(w, CLOSE_BRACKET, rest);
  }

  lemma WsEndsNumber(v: Value, w: bytes, s: bytes)
    requires AllWs(w) && s != [] && !IsNumberChar(s[0])
    ensures EndsNumber(v, w + s)
  {
    assert w != [] ==> (w + s)[0] == w[0] && w[0] in w;
  }

  /** The first item's text, cut where the parser cuts it. */
  lemma ItemsCut(items: seq<Value>, i: Indent, end: bytes)
    requires items != []
    ensures ItemsText(items, i) + end
         == Break(i) + (Text(items[0], i) + if |items| == 1 then end else [COMMA] + (ItemsText(items[1..], i) + end))
  {
    var t := Text(items[0], i);
    var more := if |items| == 1 then [] else [COMMA] + ItemsText(items[1..], i);
    assert more + end == if |items| == 1 then end else [COMMA] + (ItemsText(items[1..], i) + end);
    RegroupItem(Break(i), t, more, end);
  }

  lemma RegroupItem(b: bytes, t: bytes, more: bytes, end: bytes)
    ensures b + t + more + end == b + (t + (more + end))
  {
  }

  lemma ItemsStart(items: seq<Value>, i: Indent, end: bytes)
    requires items != []
    ensures Expect(ItemsText(items, i) + end, CLOSE_BRACKET) == None
  {
    var t := Text(items[0], i);
    var next := if |items| == 1 then end else [COMMA] + (ItemsText(items[1..], i) + end);
    BreakIsWs(i);
    TextStart(items[0], i);
    ItemsCut(items, i, end);
    NothingExpected(Break(i), t, next);
  }

  lemma NothingExpected(w: bytes, t: bytes, next: bytes)
    requires AllWs(w) && t != [] && !IsWs(t[0]) && t[0] != CLOSE_BRACKET
    ensures Expect(w + (t + next), CLOSE_BRACKET) == None
  {
    assert t + next == [t[0]] + (t[1..] + next);
    ExpectBehindWs(w, t[0], t[1..] + next);
  }

  /** The front item's text up to its value, read by the item loop. */
  lemma ItemFront(items: seq<Value>, i: Indent, end: bytes, d: nat, done: seq<Value>)
    requires items != []
    ensures ParseItems(ItemsText(items, i) + end, d, done)
         == AfterItem(done, d, ParseValue(Text(items[0], i)
              + (if |items| == 1 then end else [COMMA] + (ItemsText(items[1..], i) + end)), d))
  {
    var next := Text(items[0], i) + (if |items| == 1 then end else [COMMA] + (ItemsText(items[1..], i) + end));
    BreakIsWs(i);
    ItemsCut(items, i, end);
    ItemStep(Break(i), next, d, done);
  }

  /** The last item, given how its value reads. */
  lemma LastItem(x: Value, i: Indent, w: bytes, rest: bytes, d: nat, done: seq<Value>)
    requires AllWs(w)
    requires var end := w + ([CLOSE_BRACKET] + rest); ParseValue(Text(x, i) + end, d) == Reparsed(x, end, d)
    ensures ParseItems(ItemsText([x], i) + (w + ([CLOSE_BRACKET] + rest)), d, done)
         == if Fits(x, d) then Ok((done + [x], rest)) else Err(Syntax)
  {
    ItemFront([x], i, w + ([CLOSE_BRACKET] + rest), d, done);
    AfterItemLast(done, x, w, rest, d);
  }

  /** An item with others behind it, given how its value reads. */
  lemma FrontItem(items: seq<Value>, i: Indent, end: bytes, d: nat, done: seq<Value>)
    requires |items| > 1
    requires var next := [COMMA] + (ItemsText(items[1..], i) + end);
      ParseValue(Text(items[0], i) + next, d) == Reparsed(items[0], next, d)
    ensures ParseItems(ItemsText(items, i) + end, d, done)
         == if Fits(items[0], d) then ParseItems(ItemsText(items[1..], i) + end, d, done + [items[0]]) else Err(Syntax)
  {
    ItemFront(items, i, end, d, done);
    AfterItemMore(done, items[0], ItemsText(items[1..], i) + end, d);
  }

  /** Putting the front item and the others together. */
  lemma JoinItems(done: seq<Value>, items: seq<Value>, rest: bytes, d: nat, r: Parsed<seq<Value>>)
    requires items != []
    requires r == if AllFit(items[1..], d) then Ok((done + [items[0]] + items[1..], rest)) else Err(Syntax)
    ensures (if Fits(items[0], d) then r else Err(Syntax))
         == if AllFit(items, d) then Ok((done + items, rest)) else Err(Syntax)
  {
    assert done + [items[0]] + items[1..] == done + items;
  }

  lemma {:induction false} ItemsRoundTrip(items: seq<Value>, i: Indent, w: bytes, rest: bytes, d: nat, done: seq<Value>)
    requires items != [] && AllWs(w) && forall k :: 0 <= k < |items| ==> WellFormed(items[k])
    ensures ParseItems(ItemsText(items, i) + (w + ([CLOSE_BRACKET] + rest)), d, done)
         == if AllFit(items, d) then Ok((done + items, rest)) else Err(Syntax)
    decreases items, 3
  {
    var end := w + ([CLOSE_BRACKET] + rest);
    if |items| == 1 {
      WsEndsNumber(items[0], w, [CLOSE_BRACKET] + rest);
      ValueRoundTrip(items[0], i, end, d);
      LastItem(items[0], i, w, rest, d, done);
      assert items == [items[0]];
    } else {
      var more := ItemsText(items[1..], i) + end;
      ValueRoundTrip(items[0], i, [COMMA] + more, d);
      FrontItem(items, i, end, d, done);
      ItemsRoundTrip(items[1..], i, w, rest, d, done + [items[0]]);
      JoinItems(done, items, rest, d, ParseItems(more, d, done + [items[0]]));
    }
  }

  // ----- objects -----

  lemma {:induction false} LessOneWay(a: bytes, b: bytes)
    requires Less(a, b)
    ensures a != b && !Less(b, a)
  {
    if a != [] && a[0] == b[0] {
      LessOneWay(a[1..], b[1..]);
    }
  }

  lemma {:induction false} StoreLast(ms: seq<Member>, key: bytes, v: Value)
    requires forall k :: 0 <= k < |ms| ==> Less(ms[k].key, key)
    ensures Store(ms, key, v) == ms + [Member(key, v)]
  {
    if ms != [] {
      LessOneWay(ms[0].key, key);
      StoreLast(ms[1..], key, v);
    }
  }

  lemma ObjectStart(s: bytes, d: nat)
    ensures ParseValue([OPEN_BRACE] + s, d) ==
      if d == 0 then Err(Syntax)
      else match Expect(s, CLOSE_BRACE)
        case Some(r) => Ok((Obj([]), r))
        case None => (var r := ParseMembers(s, d, []); if r.Err? then Err(r.error) else Ok((Obj(r.value.0), r.value.1)))
  {
    assert ([OPEN_BRACE] + s)[1..] == s;
  }

  /** An object behind its brace, given how its members read. */
  lemma ObjectCombine(s: bytes, ms: seq<Member>, rest: bytes, d: nat)
    requires Expect(s, CLOSE_BRACE) == None
    requires d > 0 ==> ParseMembers(s, d, []) == if AllMembersFit(ms, d) then Ok((ms, rest)) else Err(Syntax)
    ensures ParseValue([OPEN_BRACE] + s, d) == Reparsed(Obj(ms), rest, d)
  {
    ObjectStart(s, d);
  }

  lemma EmptyObject(i: Indent, rest: bytes, d: nat)
    ensures ParseValue(Text(Obj([]), i) + rest, d) == Reparsed(Obj([]), rest, d)
  {
    var s := [] + ([CLOSE_BRACE] + rest);
    ExpectBehindWs([], CLOSE_BRACE, rest);
    ObjectStart(s, d);
    assert Text(Obj([]), i) + rest == [OPEN_BRACE] + s;
  }

  lemma ObjectFrame(ms: seq<Member>, i: Indent, rest: bytes)
    requires ms != []
    ensures Text(Obj(ms), i) + rest == [OPEN_BRACE] + (MembersText(ms, Inner(i)) + (Break(i) + ([CLOSE_BRACE] + rest)))
  {
    RegroupFrame([OPEN_BRACE], MembersText(ms, Inner(i)), Break(i), [CLOSE_BRACE], rest);
  }

  lemma {:induction false} ObjectRoundTrip(ms: seq<Member>, v: Value, i: Indent, rest: bytes, d: nat)
    requires v == Obj(ms) && WellFormed(v)
    ensures ParseValue(Text(v, i) + rest, d) == Reparsed(v, rest, d)
    decreases v, 1
  {
    if ms == [] {
      EmptyObject(i, rest, d);
    } else {
      var end := Break(i) + ([CLOSE_BRACE] + rest);
      var s := MembersText(ms, Inner(i)) + end;
      BreakIsWs(i);
      MembersStart(ms, Inner(i), end);
      if d > 0 {
        assert [] + ms == ms;
        MembersRoundTrip(ms, Inner(i), Break(i), rest, d, []);
      }
      ObjectCombine(s, ms, rest, d);
      ObjectFrame(ms, i, rest);
    }
  }

  /** What stands between a key and its value, and what follows the value. */
  function Gap(i: Indent): bytes {
    if i == -1 then [] else [SPACE]
  }

  /** The first member's text, cut where the parser cuts it. */
  lemma MembersCut(ms: seq<Member>, i: Indent, end: bytes)
    requires ms != []
    ensures MembersText(ms, i) + end ==
      Break(i) + ([QUOTE] + (CharsText(ms[0].key) + ([QUOTE] + ([COLON] + (Gap(i) + (Text(ms[0].value, i)
        + if |ms| == 1 then end else [COMMA] + (MembersText(ms[1..], i) + end)))))))
  {
    var t := Text(ms[0].value, i);
    var more := if |ms| == 1 then [] else [COMMA] + MembersText(ms[1..], i);
    assert MembersText(ms, i) == Break(i) + StringText(ms[0].key) + [COLON] + Gap(i) + t + more;
    assert more + end == if |ms| == 1 then end else [COMMA] + (MembersText(ms[1..], i) + end);
    Regroup(Break(i), CharsText(ms[0].key), Gap(i), t, more, end);
  }

  lemma Regroup(b: bytes, k: bytes, g: bytes, t: bytes, more: bytes, end: bytes)
    ensures b + ([QUOTE] + k + [QUOTE]) + [COLON] + g + t + more + end
         == b + ([QUOTE] + (k + ([QUOTE] + ([COLON] + (g + (t + (more + end)))))))
  {
  }

  lemma MembersStart(ms: seq<Member>, i: Indent, end: bytes)
    requires ms != []
    ensures Expect(MembersText(ms, i) + end, CLOSE_BRACE) == None
  {
    BreakIsWs(i);
    MembersCut(ms, i, end);
    ExpectBehindWs(Break(i), QUOTE, CharsText(ms[0].key) + ([QUOTE] + ([COLON] + (Gap(i) + (Text(ms[0].value, i)
      + if |ms| == 1 then end else [COMMA] + (MembersText(ms[1..], i) + end))))));
  }

  lemma KeyRoundTrip(w: bytes, key: bytes, rest: bytes)
    requires AllWs(w)
    ensures ParseKey(w + ([QUOTE] + (CharsText(key) + ([QUOTE] + ([COLON] + rest))))) == Some((key, rest))
  {
    ExpectBehindWs(w, QUOTE, CharsText(key) + ([QUOTE] + ([COLON] + rest)));
    StringRoundTrip(key, [COLON] + rest);
    ExpectBehindWs([], COLON, rest);
    assert [] + ([COLON] + rest) == [COLON] + rest;
  }

  /** The member loop behind a value. */
  function AfterMember(done: seq<Member>, key: bytes, d: nat, r: Parsed<Value>): Parsed<seq<Member>> {
    if r.Err? then Err(r.error)
    else
      var ms, t := Store(done, key, r.value.0), r.value.1;
      if Expect(t, COMMA).Some? then ParseMembers(Expect(t, COMMA).value, d, ms)
      else if Expect(t, CLOSE_BRACE).Some? then Ok((ms, Expect(t, CLOSE_BRACE).value))
      else Err(Syntax)
  }

  lemma MemberStep(s: bytes, d: nat, done: seq<Member>, key: bytes, u: bytes)
    requires ParseKey(s) == Some((key, u))
    ensures ParseMembers(s, d, done) == AfterMember(done, key, d, ParseValue(u, d))
  {
  }

  lemma AfterMemberMore(done: seq<Member>, m: Member, more: bytes, d: nat)
    requires forall k :: 0 <= k < |done| ==> Less(done[k].key, m.key)
    ensures AfterMember(done, m.key, d, Reparsed(m.value, [COMMA] + more, d))
         == if Fits(m.value, d) then ParseMembers(more, d, done + [m]) else Err(Syntax)
  {
    StoreLast(done, m.key, m.value);
    assert m == Member(m.key, m.value);
    ExpectBehindWs([], COMMA, more);
    assert [] + ([COMMA] + more) == [COMMA] + more;
  }

  lemma AfterMemberLast(done: seq<Member>, m: Member, w: bytes, rest: bytes, d: nat)
    requires AllWs(w) && forall k :: 0 <= k < |done| ==> Less(done[k].key, m.key)
    ensures AfterMember(done, m.key, d, Reparsed(m.value, w + ([CLOSE_BRACE] + rest), d))
         == if Fits(m.value, d) then Ok((done + [m], rest)) else Err(Syntax)
  {
    StoreLast(done, m.key, m.value);
    assert m == Member(m.key, m.value);
    ExpectBehindWs(w, CLOSE_BRACE, rest);
  }

  /** The front member's text up to its value, read by the member loop. */
  lemma MemberFront(ms: seq<Member>, i: Indent, end: bytes, d: nat, done: seq<Member>)
    requires ms != []
    ensures ParseMembers(MembersText(ms, i) + end, d, done)
         == AfterMember(done, ms[0].key, d, ParseValue(Text(ms[0].value, i)
              + (if |ms| == 1 then end else [COMMA] + (MembersText(ms[1..], i) + end)), d))
  {
    var next := Text(ms[0].value, i) + (if |ms| == 1 then end else [COMMA] + (MembersText(ms[1..], i) + end));
    BreakIsWs(i);
    MembersCut(ms, i, end);
    KeyRoundTrip(Break(i), ms[0].key, Gap(i) + next);
    MemberStep(MembersText(ms, i) + end, d, done, ms[0].key, Gap(i) + next);
    ParseBehindWs(Gap(i), next, d);
  }

  /** The last member, given how its value reads. */
  lemma LastMember(m: Member, i: Indent, w: bytes, rest: bytes, d: nat, done: seq<Member>)
    requires AllWs(w) && forall k :: 0 <= k < |done| ==> Less(done[k].key, m.key)
    requires var end := w + ([CLOSE_BRACE] + rest); ParseValue(Text(m.value, i) + end, d) == Reparsed(m.value, end, d)
    ensures ParseMembers(MembersText([m], i) + (w + ([CLOSE_BRACE] + rest)), d, done)
         == if Fits(m.value, d) then Ok((done + [m], rest)) else Err(Syntax)
  {
    MemberFront([m], i, w + ([CLOSE_BRACE] + rest), d, done);
    AfterMemberLast(done, m, w, rest, d);
  }

  /** A member with others behind it, given how its value reads. */
  lemma FrontMember(ms: seq<Member>, i: Indent, end: bytes, d: nat, done: seq<Member>)
    requires |ms| > 1 && forall k :: 0 <= k < |done| ==> Less(done[k].key, ms[0].key)
    requires var next := [COMMA] + (MembersText(ms[1..], i) + end);
      ParseValue(Text(ms[0].value, i) + next, d) == Reparsed(ms[0].value, next, d)
    ensures ParseMembers(MembersText(ms, i) + end, d, done)
         == if Fits(ms[0].value, d) then ParseMembers(MembersText(ms[1..], i) + end, d, done + [ms[0]]) else Err(Syntax)
  {
    MemberFront(ms, i, end, d, done);
    AfterMemberMore(done, ms[0], MembersText(ms[1..], i) + end, d);
  }

  lemma JoinMembers(done: seq<Member>, ms: seq<Member>, rest: bytes, d: nat, r: Parsed<seq<Member>>)
    requires ms != []
    requires r == if AllMembersFit(ms[1..], d) then Ok((done + [ms[0]] + ms[1..], rest)) else Err(Syntax)
    ensures (if Fits(ms[0].value, d) then r else Err(Syntax))
         == if AllMembersFit(ms, d) then Ok((done + ms, rest)) else Err(Syntax)
  {
    assert done + [ms[0]] + ms[1..] == done + ms;
  }

  lemma SortedAround(done: seq<Member>, ms: seq<Member>)
    requires ms != [] && SortedKeys(done + ms)
    ensures forall k :: 0 <= k < |done| ==> Less(done[k].key, ms[0].key)
    ensures SortedKeys((done + [ms[0]]) + ms[1..])
  {
    assert forall k :: 0 <= k < |done| ==> (done + ms)[k] == done[k];
    assert (done + ms)[|done|] == ms[0];
    assert (done + [ms[0]]) + ms[1..] == done + ms;
  }

  lemma {:induction false} MembersRoundTrip(
    ms: seq<Member>, i: Indent, w: bytes, rest: bytes, d: nat, done: seq<Member>)
    requires ms != [] && AllWs(w) && SortedKeys(done + ms) && forall k :: 0 <= k < |ms| ==> WellFormed(ms[k].value)
    ensures ParseMembers(MembersText(ms, i) + (w + ([CLOSE_BRACE] + rest)), d, done)
         == if AllMembersFit(ms, d) then Ok((done + ms, rest)) else Err(Syntax)
    decreases ms, 3
  {
    var end := w + ([CLOSE_BRACE] + rest);
    SortedAround(done, ms);
    if |ms| == 1 {
      WsEndsNumber(ms[0].value, w, [CLOSE_BRACE] + rest);
      ValueRoundTrip(ms[0].value, i, end, d);
      LastMember(ms[0], i, w, rest, d, done);
      assert ms == [ms[0]];
    } else {
      var more := MembersText(ms[1..], i) + end;
      ValueRoundTrip(ms[0].value, i, [COMMA] + more, d);
      FrontMember(ms, i, end, d, done);
      MembersRoundTrip(ms[1..], i, w, rest, d, done + [ms[0]]);
      JoinMembers(done, ms, rest, d, ParseMembers(more, d, done + [ms[0]]));
    }
  }

  // ----- the printers and the parser -----

  /** parse(serialize(v)) is v when v fits a depth of 100, and fails otherwise, for compact and pretty text alike. */
  lemma ParseSerialize(v: Value, pretty: bool)
    requires WellFormed(v)
    ensures Parse(Serialize(v, pretty)) == if Fits(v, MAX_DEPTH) then Ok(v) else Err(Syntax)
  {
    var rest: bytes := if pretty then [NEWLINE] else [];
    ValueRoundTrip(v, if pretty then 0 else -1, rest, MAX_DEPTH);
    assert Text(v, -1) + [] == Text(v, -1);
  }

  /** The white space of the pretty printer changes nothing for the parser. */
  lemma PrettyReadsAsCompact(v: Value)
    requires WellFormed(v)
    ensures Parse(Serialize(v, true)) == Parse(Serialize(v, false))
  {
    ParseSerialize(v, true);
    ParseSerialize(v, false);
  }

  /** The depth a value needs. */
  function Depth(v: Value): nat
    decreases v, 1
  {
    match v
    case Arr(items) => 1 + ItemsDepth(items)
    case Obj(ms) => 1 + MembersDepth(ms)
    case _ => 0
  }

  function ItemsDepth(items: seq<Value>): nat
    decreases items, 0
  {
    if items == [] then 0
    else if Depth(items[0]) > ItemsDepth(items[1..]) then Depth(items[0]) else ItemsDepth(items[1..])
  }

  function MembersDepth(ms: seq<Member>): nat
    decreases ms, 0
  {
    if ms == [] then 0
    else if Depth(ms[0].value) > MembersDepth(ms[1..]) then Depth(ms[0].value) else MembersDepth(ms[1..])
  }

  lemma {:induction false} DepthFits(v: Value, d: nat)
    requires Depth(v) <= d
    ensures Fits(v, d)
    decreases v
  {
    match v {
      case Arr(items) =>
        forall k | 0 <= k < |items| ensures Fits(items[k], d - 1) {
          ItemDepth(items, k);
          DepthFits(items[k], d - 1);
        }
      case Obj(ms) =>
        forall k | 0 <= k < |ms| ensures Fits(ms[k].value, d) {
          MemberDepth(ms, k);
          DepthFits(ms[k].value, d);
        }
      case _ =>
    }
  }

  lemma {:induction false} ItemDepth(items: seq<Value>, k: nat)
    requires k < |items|
    ensures Depth(items[k]) <= ItemsDepth(items)
  {
    if k > 0 {
      ItemDepth(items[1..], k - 1);
    }
  }

  lemma {:induction false} MemberDepth(ms: seq<Member>, k: nat)
    requires k < |ms|
    ensures Depth(ms[k].value) <= MembersDepth(ms)
  {
    if k > 0 {
      MemberDepth(ms[1..], k - 1);
    }
  }

  /** Different values have different texts, however deep they are: comparing serialized text compares values. */
  lemma TextIsInjective(v: Value, w: Value)
    requires WellFormed(v) && WellFormed(w) && Serialize(v, false) == Serialize(w, false)
    ensures v == w
  {
    var d := if Depth(v) > Depth(w) then Depth(v) else Depth(w);
    DepthFits(v, d);
    DepthFits(w, d);
    ValueRoundTrip(v, -1, [], d);
    ValueRoundTrip(w, -1, [], d);
    assert Text(v, -1) + [] == Text(v, -1) && Text(w, -1) + [] == Text(w, -1);
  }
}
