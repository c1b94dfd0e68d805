/** UTF-8 (section 4 of RFC 3629), and what the JSON parser does to it. */
module Utf8 {
  import opened Bytes
  import opened Json
  import opened JsonGrammar
  import opened Wrappers

  // ----- the grammar of section 4 -----

  predicate Tail(c: byte) { 0x80 <= c <= 0xBF }

  /** The length of the well-formed character at the front, 0 if there is none. */
  function CharLength(s: bytes): (n: nat)
    ensures n <= |s|
  {
    if s == [] then 0
    else if s[0] <= 0x7F then 1
    else if 0xC2 <= s[0] <= 0xDF then if |s| >= 2 && Tail(s[1]) then 2 else 0
    else if 0xE0 <= s[0] <= 0xEF then
      if |s| >= 3 && Tail(s[1]) && Tail(s[2]) && (s[0] == 0xE0 ==> s[1] >= 0xA0) && (s[0] == 0xED ==> s[1] <= 0x9F)
      then 3 else 0
    else if 0xF0 <= s[0] <= 0xF4 then
      if |s| >= 4 && Tail(s[1]) && Tail(s[2]) && Tail(s[3])
         && (s[0] == 0xF0 ==> s[1] >= 0x90) && (s[0] == 0xF4 ==> s[1] <= 0x8F)
      then 4 else 0
    else 0
  }

  /** A text that is a sequence of well-formed characters. */
  predicate WellEncoded(s: bytes) {
    s == [] || (CharLength(s) > 0 && WellEncoded(s[CharLength(s)..]))
  }

  /** The scalar value of one character, section 3. */
  function CharValue(c: bytes): int
    requires c != [] && CharLength(c) == |c|
  {
    if |c| == 1 then c[0]
    else if |c| == 2 then (c[0] as int - 0xC0) * 0x40 + (c[1] as int - 0x80)
    else if |c| == 3 then (c[0] as int - 0xE0) * 0x1000 + (c[1] as int - 0x80) * 0x40 + (c[2] as int - 0x80)
    else
      (c[0] as int - 0xF0) * 0x4_0000 + (c[1] as int - 0x80) * 0x1000 + (c[2] as int - 0x80) * 0x40
      + (c[3] as int - 0x80)
  }

  // ----- what _parse_codepoint writes -----

  /** The digits of u to the base 64. */
  lemma Base64Digits(u: nat)
    requires u < 0x11_0000
    ensures u == u / 0x4_0000 * 0x4_0000 + u / 0x1000 % 0x40 * 0x1000 + u / 0x40 % 0x40 * 0x40 + u % 0x40
    ensures u / 0x1000 == u / 0x4_0000 * 0x40 + u / 0x1000 % 0x40
    ensures u / 0x40 == u / 0x1000 * 0x40 + u / 0x40 % 0x40
  {
  }

  /** A scalar value is written as one well-formed character with that value. */
  lemma Utf8BytesEncode(u: nat)
    requires Scalar(u)
    ensures CharLength(Utf8Bytes(u)) == |Utf8Bytes(u)| && CharValue(Utf8Bytes(u)) == u
  {
    Base64Digits(u);
  }

  /** A well-formed character is the only encoding of its scalar value, the one _parse_codepoint writes. */
  lemma EncodingIsUnique(c: bytes)
    requires c != [] && CharLength(c) == |c|
    ensures Scalar(CharValue(c)) && Utf8Bytes(CharValue(c)) == c
  {
    var u := CharValue(c);
    var lead: int, first: int := c[0], if |c| > 1 then c[1] - 0x80 else 0;
    var second: int, third: int := if |c| > 2 then c[2] - 0x80 else 0, if |c| > 3 then c[3] - 0x80 else 0;
    if |c| == 2 {
      Quotient(u, lead - 0xC0, first);
    } else if |c| == 3 {
      Quotient(u, (lead - 0xE0) * 0x40 + first, second);
      Quotient(u / 0x40, lead - 0xE0, first);
    } else if |c| == 4 {
      Quotient(u, ((lead - 0xF0) * 0x40 + first) * 0x40 + second, third);
      Quotient(u / 0x40, (lead - 0xF0) * 0x40 + first, second);
      Quotient(u / 0x1000, lead - 0xF0, first);
    }
  }

  lemma Quotient(u: int, q: int, r: int)
    requires u == q * 0x40 + r && 0 <= r < 0x40
    ensures u / 0x40 == q && u % 0x40 == r
  {
  }

  /** An escape, or a surrogate pair of escapes, stands for exactly the encoding of its scalar value. */
  lemma EscapeEncodes(s: bytes)
    requires |s| >= 2 && s[0] == BACKSLASH && s[1] == LETTER_U && ParseChar(s).Some?
    ensures ParseScalar(s[2..]).Some?
    ensures var u, c := ParseScalar(s[2..]).value.0, ParseChar(s).value.0;
      CharLength(c) == |c| > 0 && CharValue(c) == u
  {
    Utf8BytesEncode(ParseScalar(s[2..]).value.0);
  }

  // ----- joining and cutting texts -----

  lemma CharLengthLocal(c: bytes, t: bytes)
    requires c != [] && CharLength(c) == |c|
    ensures CharLength(c + t) == |c|
  {
  }

  lemma {:induction false} WellEncodedConcat(a: bytes, b: bytes)
    requires WellEncoded(a) && WellEncoded(b)
    ensures WellEncoded(a + b)
  {
    if a == [] {
      assert a + b == b;
    } else {
      var n := CharLength(a);
      assert a == a[..n] + a[n..] && a + b == a[..n] + (a[n..] + b);
      CharPrefix(a);
      CharLengthLocal(a[..n], a[n..] + b);
      WellEncodedConcat(a[n..], b);
      assert (a + b)[n..] == a[n..] + b;
    }
  }

  lemma CharPrefix(s: bytes)
    requires CharLength(s) > 0
    ensures CharLength(s[..CharLength(s)]) == CharLength(s)
  {
  }

  predicate AllAscii(s: bytes) {
    forall c :: c in s ==> c <= 0x7F
  }

  /** Cutting ASCII off the front leaves a well-formed text. */
  lemma {:induction false} CutAscii(a: bytes, t: bytes)
    requires WellEncoded(a + t) && AllAscii(a)
    ensures WellEncoded(t)
  {
    if a == [] {
      assert a + t == t;
    } else {
      assert (a + t)[0] == a[0] && a[0] in a;
      assert (a + t)[1..] == a[1..] + t;
      assert forall c :: c in a[1..] ==> c in a;
      CutAscii(a[1..], t);
    }
  }

  lemma CutAsciiAt(s: bytes, n: nat)
    requires WellEncoded(s) && n <= |s| && AllAscii(s[..n])
    ensures WellEncoded(s[n..])
  {
    assert s == s[..n] + s[n..];
    CutAscii(s[..n], s[n..]);
  }

  // ----- strings -----

  lemma HexIsAscii(s: bytes)
    requires ParseHex4(s).Some?
    ensures |s| >= 4 && AllAscii(s[..4]) && ParseHex4(s).value.1 == s[4..]
  {
    forall c | c in s[..4] ensures c <= 0x7F {
      var i :| 0 <= i < 4 && s[i] == c;
      assert HexValue(s[i]) >= 0;
    }
  }

  lemma ScalarLeavesWellEncoded(s: bytes)
    requires WellEncoded(s) && ParseScalar(s).Some?
    ensures WellEncoded(ParseScalar(s).value.1)
  {
    HexIsAscii(s);
    CutAsciiAt(s, 4);
    if HighSurrogate(ParseHex4(s).value.0) {
      var t := s[4..];
      assert t[..2] == [BACKSLASH, LETTER_U];
      CutAsciiAt(t, 2);
      HexIsAscii(t[2..]);
      CutAsciiAt(t[2..], 4);
    }
  }

  /** One character that is not copied from beyond ASCII: what it adds and what it leaves are well formed. */
  lemma CharWellEncoded(s: bytes)
    requires WellEncoded(s) && s != [] && s[0] <= 0x7F && ParseChar(s).Some?
    ensures WellEncoded(ParseChar(s).value.0) && WellEncoded(ParseChar(s).value.1)
  {
    var c := ParseChar(s).value.0;
    assert AllAscii(s[..1]);
    CutAsciiAt(s, 1);
    if s[0] == BACKSLASH {
      if s[1] == LETTER_U {
        EscapeEncodes(s);
        assert c[CharLength(c)..] == [];
        assert s[..2] == [BACKSLASH, LETTER_U];
        CutAsciiAt(s, 2);
        ScalarLeavesWellEncoded(s[2..]);
      } else {
        assert c[1..] == [];
        assert s[..2] == [BACKSLASH, s[1]];
        CutAsciiAt(s, 2);
      }
    } else {
      assert c[1..] == [];
    }
  }

  function Prepend(c: bytes, r: Option<(bytes, bytes)>): Option<(bytes, bytes)> {
    match r case None => None case Some(p) => Some((c + p.0, p.1))
  }

  lemma PrependNothing(r: Option<(bytes, bytes)>)
    ensures Prepend([], r) == r
  {
    if r.Some? {
      assert [] + r.value.0 == r.value.0;
    }
  }

  lemma PrependMore(c: bytes, r: Option<(bytes, bytes)>)
    requires c != []
    ensures Prepend([c[0]], Prepend(c[1..], r)) == Prepend(c, r)
  {
    if r.Some? {
      assert [c[0]] + (c[1..] + r.value.0) == c + r.value.0;
    }
  }

  lemma CopiesOne(b: byte, t: bytes)
    requires b >= 0x80
    ensures ParseString([b] + t) == Prepend([b], ParseString(t))
  {
    assert ([b] + t)[1..] == t;
  }

  /** Bytes beyond ASCII are copied one by one. */
  lemma {:induction false} CopiesBeyondAscii(c: bytes, t: bytes)
    requires forall b :: b in c ==> b >= 0x80
    ensures ParseString(c + t) == Prepend(c, ParseString(t))
  {
    if c == [] {
      assert c + t == t;
      PrependNothing(ParseString(t));
    } else {
      assert c[0] in c && forall b :: b in c[1..] ==> b in c;
      CopiesBeyondAscii(c[1..], t);
      CopiesOne(c[0], c[1..] + t);
      assert [c[0]] + (c[1..] + t) == c + t;
      PrependMore(c, ParseString(t));
    }
  }

  lemma MultiByteChar(s: bytes)
    requires s != [] && s[0] >= 0x80 && CharLength(s) > 0
    ensures forall b :: b in s[..CharLength(s)] ==> b >= 0x80
  {
  }

  lemma SingleChar(c: bytes)
    requires c != [] && CharLength(c) == |c|
    ensures WellEncoded(c)
  {
    assert c[|c|..] == [];
  }

  /** A string accepted from well-formed UTF-8 is well-formed UTF-8, and so is what follows it. */
  lemma {:induction false} StringWellEncoded(s: bytes)
    requires WellEncoded(s) && ParseString(s).Some?
    ensures WellEncoded(ParseString(s).value.0) && WellEncoded(ParseString(s).value.1)
    decreases |s|
  {
    if s[0] == QUOTE {
      assert AllAscii(s[..1]);
      CutAsciiAt(s, 1);
    } else if s[0] <= 0x7F {
      CharWellEncoded(s);
      var c, t := ParseChar(s).value.0, ParseChar(s).value.1;
      StringWellEncoded(t);
      WellEncodedConcat(c, ParseString(t).value.0);
    } else {
      var n := CharLength(s);
      var c, t := s[..n], s[n..];
      assert s == c + t;
      MultiByteChar(s);
      CopiesBeyondAscii(c, t);
      StringWellEncoded(t);
      CharPrefix(s);
      SingleChar(c);
      WellEncodedConcat(c, ParseString(t).value.0);
    }
  }

  // ----- whole values -----

  /** Every string and key in a value is well-formed UTF-8. */
  predicate StringsWellEncoded(v: Value) {
    match v
    case Str(s) => WellEncoded(s)
    case Arr(items) => forall i :: 0 <= i < |items| ==> StringsWellEncoded(items[i])
    case Obj(ms) => forall i :: 0 <= i < |ms| ==> WellEncoded(ms[i].key) && StringsWellEncoded(ms[i].value)
    case _ => true
  }

  predicate MembersWellEncoded(ms: seq<Member>) {
    forall i :: 0 <= i < |ms| ==> WellEncoded(ms[i].key) && StringsWellEncoded(ms[i].value)
  }

  predicate ItemsWellEncoded(items: seq<Value>) {
    forall i :: 0 <= i < |items| ==> StringsWellEncoded(items[i])
  }

  lemma {:induction false} SkipWsWellEncoded(s: bytes)
    requires WellEncoded(s)
    ensures WellEncoded(SkipWs(s))
  {
    if s != [] && IsWs(s[0]) {
      CutAsciiAt(s, 1);
      SkipWsWellEncoded(s[1..]);
    }
  }

  lemma ExpectWellEncoded(s: bytes, c: byte)
    requires WellEncoded(s) && c <= 0x7F
    ensures Expect(s, c).Some? ==> WellEncoded(Expect(s, c).value)
  {
    SkipWsWellEncoded(s);
    if Expect(s, c).Some? {
      CutAsciiAt(SkipWs(s), 1);
    }
  }

  lemma {:induction false} NumberCharsAreAscii(t: bytes)
    ensures AllAscii(t[..NumberSpan(t)])
  {
    if t != [] && IsNumberChar(t[0]) {
      NumberCharsAreAscii(t[1..]);
      assert t[..NumberSpan(t)] == [t[0]] + t[1..][..NumberSpan(t[1..])];
    }
  }

  lemma LiteralWellEncoded(t: bytes, text: bytes, v: Value)
    requires WellEncoded(t) && text != [] && AllAscii(text)
    ensures Literal(t, text, v).Ok? ==> WellEncoded(Literal(t, text, v).value.1)
  {
    if text <= t {
      assert t[..|text|] == text;
      CutAsciiAt(t, |text|);
    }
  }

  lemma {:induction false} StoreWellEncoded(ms: seq<Member>, key: bytes, v: Value)
    requires MembersWellEncoded(ms) && WellEncoded(key) && StringsWellEncoded(v)
    ensures MembersWellEncoded(Store(ms, key, v))
  {
    if ms != [] && ms[0].key != key && !Less(key, ms[0].key) {
      StoreWellEncoded(ms[1..], key, v);
    }
  }

  /** A value accepted from well-formed UTF-8 holds only well-formed UTF-8, and well-formed UTF-8 follows it. */
  lemma {:induction false} ValueWellEncoded(s: bytes, d: nat)
    requires WellEncoded(s) && ParseValue(s, d).Ok?
    ensures StringsWellEncoded(ParseValue(s, d).value.0) && WellEncoded(ParseValue(s, d).value.1)
    decreases |s|, 0
  {
    var t := SkipWs(s);
    SkipWsWellEncoded(s);
    if t[0] == NULL_TEXT[0] {
      LiteralWellEncoded(t, NULL_TEXT, Null);
    } else if t[0] == FALSE_TEXT[0] {
      LiteralWellEncoded(t, FALSE_TEXT, Bool(false));
    } else if t[0] == TRUE_TEXT[0] {
      LiteralWellEncoded(t, TRUE_TEXT, Bool(true));
    } else if IsDigit(t[0]) || t[0] == MINUS {
      NumberCharsAreAscii(t);
      CutAsciiAt(t, NumberSpan(t));
    } else {
      CutAsciiAt(t, 1);
      if t[0] == QUOTE {
        StringWellEncoded(t[1..]);
      } else if t[0] == OPEN_BRACKET {
        ExpectWellEncoded(t[1..], CLOSE_BRACKET);
        if Expect(t[1..], CLOSE_BRACKET).None? {
          ItemsParsedWellEncoded(t[1..], d - 1, []);
        }
      } else {
        ExpectWellEncoded(t[1..], CLOSE_BRACE);
        if Expect(t[1..], CLOSE_BRACE).None? {
          MembersParsedWellEncoded(t[1..], d, []);
        }
      }
    }
  }

  lemma {:induction false} ItemsParsedWellEncoded(s: bytes, d: nat, done: seq<Value>)
    requires WellEncoded(s) && ItemsWellEncoded(done) && ParseItems(s, d, done).Ok?
    ensures ItemsWellEncoded(ParseItems(s, d, done).value.0) && WellEncoded(ParseItems(s, d, done).value.1)
    decreases |s|, 1
  {
    ValueWellEncoded(s, d);
    var v, t := ParseValue(s, d).value.0, ParseValue(s, d).value.1;
    ExpectWellEncoded(t, COMMA);
    ExpectWellEncoded(t, CLOSE_BRACKET);
    if Expect(t, COMMA).Some? {
      ItemsParsedWellEncoded(Expect(t, COMMA).value, d, done + [v]);
    }
  }

  lemma KeyWellEncoded(s: bytes)
    requires WellEncoded(s) && ParseKey(s).Some?
    ensures WellEncoded(ParseKey(s).value.0) && WellEncoded(ParseKey(s).value.1)
  {
    ExpectWellEncoded(s, QUOTE);
    var t := Expect(s, QUOTE).value;
    StringWellEncoded(t);
    ExpectWellEncoded(ParseString(t).value.1, COLON);
  }

  lemma {:induction false} MembersParsedWellEncoded(s: bytes, d: nat, done: seq<Member>)
    requires WellEncoded(s) && MembersWellEncoded(done) && ParseMembers(s, d, done).Ok?
    ensures MembersWellEncoded(ParseMembers(s, d, done).value.0) && WellEncoded(ParseMembers(s, d, done).value.1)
    decreases |s|, 1
  {
    KeyWellEncoded(s);
    var key, w := ParseKey(s).value.0, ParseKey(s).value.1;
    ValueWellEncoded(w, d);
    var v, t := ParseValue(w, d).value.0, ParseValue(w, d).value.1;
    StoreWellEncoded(done, key, v);
    ExpectWellEncoded(t, COMMA);
    ExpectWellEncoded(t, CLOSE_BRACE);
    if Expect(t, COMMA).Some? {
      MembersParsedWellEncoded(Expect(t, COMMA).value, d, Store(done, key, v));
    }
  }
}
