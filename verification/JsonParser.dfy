/** picojson's recursive-descent parser over the pushback reader, and the context it writes through. */
module JsonParser {
  import opened Bytes
  import opened Json
  import opened JsonGrammar
  import opened JsonReader
  import opened Wrappers

  // ----- strings -----

  lemma HexSnoc(s: bytes, c: byte, rest: bytes)
    requires (forall h :: h in s ==> IsHexDigit(h)) && IsHexDigit(c)
    ensures forall h :: h in s + [c] ==> IsHexDigit(h)
    ensures HexNumber(s + [c]) == HexNumber(s) * 16 + HexValue(c)
    ensures s + ([c] + rest) == (s + [c]) + rest
  {
    assert (s + [c])[..|s|] == s;
  }

  lemma Hex4(s: bytes, t: bytes)
    requires |s| == 4 && forall c :: c in s ==> IsHexDigit(c)
    ensures ParseHex4(s + t) == Some((HexNumber(s), t))
  {
    assert s[0] in s && s[1] in s && s[2] in s && s[3] in s;
    assert (s + t)[4..] == t;
    assert s[..3][..2] == s[..2] && s[..2][..1] == s[..1] && s[..1][..0] == [];
    assert HexNumber(s[..1]) == HexValue(s[0]);
    assert HexNumber(s[..2]) == HexValue(s[0]) * 16 + HexValue(s[1]);
    assert HexNumber(s[..3]) == HexNumber(s[..2]) * 16 + HexValue(s[2]);
  }

  lemma Hex4Fails(s: bytes, t: bytes)
    requires |s| < 4 && (t == [] || !IsHexDigit(t[0]))
    ensures ParseHex4(s + t) == None
  {
    if |s + t| >= 4 {
      assert (s + t)[|s|] == t[0];
      assert HexValue((s + t)[|s|]) < 0;
    }
  }

  /** _parse_quadhex: the value of four hexadecimal digits, or -1. */
  method ReadQuadHex(inp: Input) returns (n: int)
    requires inp.Valid()
    modifies inp
    ensures inp.Valid()
    ensures match ParseHex4(old(inp.Rest())) case Some(r) => n == r.0 && inp.Rest() == r.1 case None => n == -1
  {
    n := 0;
    ghost var digits: bytes := [];
    for i := 0 to 4
      invariant inp.Valid() && |digits| == i && (forall c :: c in digits ==> IsHexDigit(c))
      invariant n == HexNumber(digits) && old(inp.Rest()) == digits + inp.Rest()
    {
      ghost var before := inp.Rest();
      var hex := inp.Getc();
      if hex == -1 {
        Hex4Fails(digits, before);
        return -1;
      }
      var value := HexValue(hex);
      if value < 0 {
        inp.Ungetc();
        Hex4Fails(digits, before);
        return -1;
      }
      n := n * 16 + value;
      HexSnoc(digits, hex, inp.Rest());
      digits := digits + [hex];
    }
    Hex4(digits, inp.Rest());
  }

  /** The bytes _parse_codepoint pushes for a scalar value. */
  method PushScalar(out: bytes, u: nat) returns (r: bytes)
    requires u < 0x11_0000
    ensures r == out + Utf8Bytes(u)
  {
    if u < 0x80 {
      return out + [u];
    }
    r := out;
    if u < 0x800 {
      r := r + [0xC0 + u / 0x40];
    } else {
      if u < 0x1_0000 {
        r := r + [0xE0 + u / 0x1000];
      } else {
        r := r + [0xF0 + u / 0x4_0000];
        r := r + [0x80 + u / 0x1000 % 0x40];
      }
      r := r + [0x80 + u / 0x40 % 0x40];
    }
    r := r + [0x80 + u % 0x40];
  }

  /** The "\\u" that must follow a high surrogate. */
  method ReadEscapeMark(inp: Input) returns (ok: bool)
    requires inp.Valid()
    modifies inp
    ensures inp.Valid()
    ensures ok <==> [BACKSLASH, LETTER_U] <= old(inp.Rest())
    ensures ok ==> inp.Rest() == old(inp.Rest())[2..]
  {
    ghost var t := inp.Rest();
    var c := inp.Getc();
    if c == BACKSLASH {
      c := inp.Getc();
    } else {
      c := -1;
    }
    if c != LETTER_U {
      inp.Ungetc();
      return false;
    }
    assert t == [BACKSLASH, LETTER_U] + inp.Rest();
    ok := true;
  }

  lemma EscapeMarkIs(t: bytes)
    ensures ([BACKSLASH, LETTER_U] <= t) <==> |t| >= 2 && t[0] == BACKSLASH && t[1] == LETTER_U
  {
    if |t| >= 2 {
      assert t[..2] == [t[0], t[1]];
    }
  }

  method ReadPair(inp: Input, high: nat) returns (ok: bool, u: nat)
    requires inp.Valid() && HighSurrogate(high)
    modifies inp
    ensures inp.Valid()
    ensures match PairRest(high, old(inp.Rest())) case Some(p) => ok && u == p.0 && inp.Rest() == p.1 case None => !ok
  {
    EscapeMarkIs(inp.Rest());
    var marked := ReadEscapeMark(inp);
    if !marked {
      return false, 0;
    }
    var second := ReadQuadHex(inp);
    if !(0xDC00 <= second <= 0xDFFF) {
      return false, 0;
    }
    u := (high - 0xD800) * 0x400 + (second - 0xDC00);
    u := u + 0x1_0000;
    ok := true;
  }

  lemma ScalarCases(s: bytes)
    ensures match ParseHex4(s)
      case None => ParseScalar(s) == None
      case Some(p) =>
        && (LowSurrogate(p.0) ==> ParseScalar(s) == None)
        && (HighSurrogate(p.0) ==> ParseScalar(s) == PairRest(p.0, p.1))
        && (!LowSurrogate(p.0) && !HighSurrogate(p.0) ==> ParseScalar(s) == Some(p))
  {
  }

  /** _parse_codepoint. */
  method ReadCodepoint(inp: Input, out: bytes) returns (ok: bool, r: bytes)
    requires inp.Valid()
    modifies inp
    ensures inp.Valid()
    ensures match ParseScalar(old(inp.Rest()))
      case Some(p) => ok && r == out + Utf8Bytes(p.0) && inp.Rest() == p.1
      case None => !ok
  {
    r := out;
    ScalarCases(inp.Rest());
    var u := ReadQuadHex(inp);
    if u == -1 {
      return false, r;
    }
    if 0xD800 <= u <= 0xDFFF {
      if 0xDC00 <= u {
        return false, r;
      }
      ok, u := ReadPair(inp, u);
      if !ok {
        return false, r;
      }
    }
    r := PushScalar(out, u);
    ok := true;
  }

  /** The escapes of one letter in _parse_string. */
  method ReadEscape(inp: Input, out: bytes) returns (ok: bool, r: bytes)
    requires inp.Valid()
    modifies inp
    ensures inp.Valid()
    ensures match ParseChar([BACKSLASH] + old(inp.Rest()))
      case Some(p) => ok && r == out + p.0 && inp.Rest() == p.1
      case None => !ok
  {
    r := out;
    ghost var s := [BACKSLASH] + inp.Rest();
    var ch := inp.Getc();
    if ch == -1 {
      return false, r;
    }
    assert s[2..] == inp.Rest();
    if ch == LETTER_U {
      ok, r := ReadCodepoint(inp, r);
    } else {
      match Unescaped(ch)
      case None => ok := false;
      case Some(c) => ok, r := true, r + [c];
    }
  }

  /** What the loop of _parse_string returns when it has pushed `out` and `rest` is left. */
  ghost predicate StringGoal(goal: Option<(bytes, bytes)>, out: bytes, rest: bytes) {
    goal == match ParseString(rest) case None => None case Some(p) => Some((out + p.0, p.1))
  }

  lemma StringTurn(goal: Option<(bytes, bytes)>, out: bytes, rest: bytes, c: bytes, next: bytes)
    requires StringGoal(goal, out, rest) && rest != [] && rest[0] != QUOTE && ParseChar(rest) == Some((c, next))
    ensures StringGoal(goal, out + c, next)
  {
    if ParseString(next).Some? {
      assert out + (c + ParseString(next).value.0) == (out + c) + ParseString(next).value.0;
    }
  }

  /** _parse_string: the rest of a string literal behind its opening quote. */
  method ReadString(inp: Input) returns (ok: bool, out: bytes)
    requires inp.Valid()
    modifies inp
    ensures inp.Valid()
    ensures match ParseString(old(inp.Rest())) case Some(p) => ok && out == p.0 && inp.Rest() == p.1 case None => !ok
  {
    out := [];
    ghost var goal := ParseString(inp.Rest());
    assert forall p: bytes :: [] + p == p;
    while true
      invariant inp.Valid() && StringGoal(goal, out, inp.Rest())
      decreases |inp.Rest()|
    {
      ghost var rest := inp.Rest();
      ghost var before := out;
      var ch := inp.Getc();
      if ch < 0x20 {
        inp.Ungetc();
        return false, out;
      } else if ch == QUOTE {
        assert rest[1..] == inp.Rest() && out + [] == out;
        return true, out;
      } else if ch == BACKSLASH {
        ok, out := ReadEscape(inp, out);
        if !ok {
          return;
        }
        StringTurn(goal, before, rest, ParseChar(rest).value.0, inp.Rest());
      } else {
        assert rest[1..] == inp.Rest();
        out := out + [ch];
        StringTurn(goal, before, rest, [ch], inp.Rest());
      }
    }
  }

  // ----- numbers -----

  lemma NumberSnoc(num: bytes, c: byte, rest: bytes)
    requires (forall d :: d in num ==> IsNumberChar(d)) && IsNumberChar(c)
    ensures forall d :: d in num + [c] ==> IsNumberChar(d)
    ensures num + ([c] + rest) == (num + [c]) + rest
  {
  }

  /** One turn of _parse_number: another character, or the byte behind the number given back. */
  method ReadNumberChar(inp: Input, num: bytes, ghost start: bytes) returns (next: bytes, more: bool)
    requires inp.Valid() && start == num + inp.Rest() && forall c :: c in num ==> IsNumberChar(c)
    modifies inp
    ensures inp.Valid() && start == next + inp.Rest() && forall c :: c in next ==> IsNumberChar(c)
    ensures if more then |inp.Rest()| < |old(inp.Rest())|
            else inp.Rest() == old(inp.Rest()) && |next| == NumberSpan(start)
  {
    ghost var before := inp.Rest();
    var ch := inp.Getc();
    if ch != -1 && IsNumberChar(ch) {
      NumberSnoc(num, ch, inp.Rest());
      return num + [ch], true;
    }
    inp.Ungetc();
    assert inp.Rest() == before;
    NumberSpanIs(num, before);
    return num, false;
  }

  /** _parse_number: the longest run of number characters. */
  method ReadNumber(inp: Input) returns (num: bytes)
    requires inp.Valid()
    modifies inp
    ensures inp.Valid()
    ensures old(inp.Rest()) == num + inp.Rest() && |num| == NumberSpan(old(inp.Rest()))
  {
    num := [];
    ghost var start := inp.Rest();
    assert start == num + start;
    var more := true;
    while more
      invariant inp.Valid() && start == num + inp.Rest() && forall c :: c in num ==> IsNumberChar(c)
      invariant more || |num| == NumberSpan(start)
      decreases |inp.Rest()|, more
    {
      num, more := ReadNumberChar(inp, num, start);
    }
  }

  // ----- values -----

  /** default_parse_context; the value is handed to the parent when the nested parse returns. */
  class Context {
    var out: Value
    var depths: nat

    constructor (d: nat)
      ensures out == Null && depths == d
    {
      out, depths := Null, d;
    }

    method ArrayStart() returns (ok: bool)
      modifies this
      ensures ok <==> old(depths) > 0
      ensures ok ==> depths == old(depths) - 1 && out == Arr([])
    {
      if depths == 0 {
        return false;
      }
      depths := depths - 1;
      out := Arr([]);
      ok := true;
    }

    method ArrayStop()
      modifies this
      ensures depths == old(depths) + 1 && out == old(out)
    {
      depths := depths + 1;
    }

    /** Unlike ArrayStart, nothing is taken from the budget. */
    method ObjectStart() returns (ok: bool)
      modifies this
      ensures ok <==> old(depths) > 0
      ensures ok ==> depths == old(depths) && out == Obj([])
    {
      if depths == 0 {
        return false;
      }
      out := Obj([]);
      ok := true;
    }

    method ObjectStop()
      modifies this
      ensures depths == old(depths) + 1 && out == old(out)
    {
      depths := depths + 1;
    }
  }

  /** What a parse function did, against the grammar: None is true, Some is false or a number left to strtod. */
  predicate Agrees(r: Parsed<Value>, failure: Option<Failure>, out: Value, rest: bytes) {
    match r
    case Ok(p) => failure == None && out == p.0 && rest == p.1
    case Err(f) => failure == Some(f)
  }

  lemma {:induction false} SkipWsTwice(s: bytes)
    ensures SkipWs(SkipWs(s)) == SkipWs(s)
  {
    if s != [] && IsWs(s[0]) {
      SkipWsTwice(s[1..]);
    }
  }

  lemma ExpectSkipped(s: bytes, c: byte)
    ensures Expect(SkipWs(s), c) == Expect(s, c)
  {
    SkipWsTwice(s);
  }

  lemma MatchTail(t: bytes, text: bytes, v: Value)
    requires t != [] && text != [] && t[0] == text[0]
    ensures (text[1..] <= t[1..]) <==> Literal(t, text, v).Ok?
    ensures forall r :: t[1..] == text[1..] + r ==> Literal(t, text, v) == Ok((v, r))
  {
    if text <= t {
      assert t[1..][..|text| - 1] == text[1..];
    }
    if text[1..] <= t[1..] {
      assert t[..|text|] == [t[0]] + t[1..][..|text| - 1];
      assert t[..|text|] == text;
    }
    forall r | t[1..] == text[1..] + r ensures Literal(t, text, v) == Ok((v, r)) {
      assert t == text + r;
      assert t[|text|..] == r;
    }
  }

  method ReadLiteral(ctx: Context, inp: Input, text: bytes, v: Value, ghost t: bytes) returns (failure: Option<Failure>)
    requires inp.Valid() && t != [] && text != [] && t[0] == text[0] && t[1..] == inp.Rest()
    modifies ctx, inp
    ensures inp.Valid() && Agrees(Literal(t, text, v), failure, ctx.out, inp.Rest())
  {
    MatchTail(t, text, v);
    var ok := inp.MatchText(text[1..]);
    if !ok {
      return Some(Syntax);
    }
    ctx.out := v;
    failure := None;
  }

  /** The default case of _parse, up to the point where strtod would take over. */
  method ReadInteger(ctx: Context, inp: Input, ghost d: nat) returns (failure: Option<Failure>)
    requires inp.Valid() && inp.Rest() != [] && (IsDigit(inp.Rest()[0]) || inp.Rest()[0] == MINUS)
    modifies ctx, inp
    ensures inp.Valid() && Agrees(ParseValue(old(inp.Rest()), d), failure, ctx.out, inp.Rest())
  {
    ghost var t := inp.Rest();
    var num := ReadNumber(inp);
    assert t[..|num|] == num && t[|num|..] == inp.Rest();
    assert SkipWs(t) == t;
    match IntegerOf(num)
    case Some(n) =>
      ctx.out := Int(n);
      failure := None;
    case None =>
      failure := Some(NotInteger);
  }

  /** The grammar behind white space, by the first byte. */
  function ValueFrom(t: bytes, d: nat): Parsed<Value>
    requires t != []
  {
    if t[0] == NULL_TEXT[0] then Literal(t, NULL_TEXT, Null)
    else if t[0] == FALSE_TEXT[0] then Literal(t, FALSE_TEXT, Bool(false))
    else if t[0] == TRUE_TEXT[0] then Literal(t, TRUE_TEXT, Bool(true))
    else if t[0] == QUOTE then StringRest(t[1..])
    else if t[0] == OPEN_BRACKET then ArrayRest(t[1..], d)
    else if t[0] == OPEN_BRACE then ObjectRest(t[1..], d)
    else if IsDigit(t[0]) || t[0] == MINUS then ParseValue(t, d)
    else Err(Syntax)
  }

  lemma ValueIs(s: bytes, d: nat)
    ensures ParseValue(s, d) == if SkipWs(s) == [] then Err(Syntax) else ValueFrom(SkipWs(s), d)
  {
    ParseValueSkip(s, d);
  }

  /** _parse. */
  method ReadValue(ctx: Context, inp: Input) returns (failure: Option<Failure>)
    requires inp.Valid()
    modifies ctx, inp
    ensures inp.Valid()
    ensures Agrees(ParseValue(old(inp.Rest()), old(ctx.depths)), failure, ctx.out, inp.Rest())
    decreases |inp.Rest()|, 2
  {
    ghost var s := inp.Rest();
    ValueIs(s, ctx.depths);
    SkipWsShrinks(s);
    inp.SkipSpace();
    ghost var t := inp.Rest();
    var ch := inp.Getc();
    if ch == -1 {
      inp.Ungetc();
      return Some(Syntax);
    }
    assert t[1..] == inp.Rest();
    failure := ReadFrom(ctx, inp, ch, t);
  }

  /** The switch of _parse, after the byte ch at the front of t has been read. */
  method ReadFrom(ctx: Context, inp: Input, ch: byte, ghost t: bytes) returns (failure: Option<Failure>)
    requires inp.Valid() && t != [] && t[0] == ch && t[1..] == inp.Rest()
    requires inp.State().undoable && inp.State().pos > 0 && inp.text[inp.State().pos - 1..] == t
    modifies ctx, inp
    ensures inp.Valid()
    ensures Agrees(ValueFrom(t, old(ctx.depths)), failure, ctx.out, inp.Rest())
    decreases |inp.Rest()|, 6
  {
    ghost var d := ctx.depths;
    if ch == NULL_TEXT[0] {
      failure := ReadLiteral(ctx, inp, NULL_TEXT, Null, t);
    } else if ch == FALSE_TEXT[0] {
      failure := ReadLiteral(ctx, inp, FALSE_TEXT, Bool(false), t);
    } else if ch == TRUE_TEXT[0] {
      failure := ReadLiteral(ctx, inp, TRUE_TEXT, Bool(true), t);
    } else if ch == QUOTE {
      var ok, x := ReadString(inp);
      ctx.out := Str(x);
      failure := if ok then None else Some(Syntax);
    } else if ch == OPEN_BRACKET {
      failure := ReadArray(ctx, inp);
    } else if ch == OPEN_BRACE {
      failure := ReadObject(ctx, inp);
    } else if IsDigit(ch) || ch == MINUS {
      inp.Ungetc();
      assert inp.Rest() == t;
      failure := ReadInteger(ctx, inp, d);
    } else {
      inp.Ungetc();
      failure := Some(Syntax);
    }
  }

  /** The arms of the grammar for a string, an array and an object, behind the opening byte. */
  function StringRest(s: bytes): Parsed<Value> {
    match ParseString(s) case None => Err(Syntax) case Some(p) => Ok((Str(p.0), p.1))
  }

  function ArrayRest(s: bytes, d: nat): (r: Parsed<Value>)
  {
    if d == 0 then Err(Syntax)
    else match Expect(s, CLOSE_BRACKET)
      case Some(r) => Ok((Arr([]), r))
      case None => var (items, r) :- ParseItems(s, d - 1, []); Ok((Arr(items), r))
  }

  function ObjectRest(s: bytes, d: nat): (r: Parsed<Value>)
  {
    if d == 0 then Err(Syntax)
    else match Expect(s, CLOSE_BRACE)
      case Some(r) => Ok((Obj([]), r))
      case None => var (ms, r) :- ParseMembers(s, d, []); Ok((Obj(ms), r))
  }

  /** What is left of the item loop. */
  ghost predicate ItemsGoal(goal: Parsed<seq<Value>>, out: Value, rest: bytes, d: nat) {
    out.Arr? && goal == ParseItems(rest, d, out.items)
  }

  /** What is left once no comma followed an item. */
  ghost predicate ItemsEnd(goal: Parsed<seq<Value>>, out: Value, rest: bytes) {
    out.Arr? && goal == match Expect(rest, CLOSE_BRACKET) case Some(r) => Ok((out.items, r)) case None => Err(Syntax)
  }

  /** _parse_array. */
  method ReadArray(ctx: Context, inp: Input) returns (failure: Option<Failure>)
    requires inp.Valid()
    modifies ctx, inp
    ensures inp.Valid()
    ensures Agrees(ArrayRest(old(inp.Rest()), old(ctx.depths)), failure, ctx.out, inp.Rest())
    decreases |inp.Rest()|, 5
  {
    ghost var s := inp.Rest();
    var ok := ctx.ArrayStart();
    if !ok {
      return Some(Syntax);
    }
    var closed := inp.ExpectByte(CLOSE_BRACKET);
    if closed {
      ctx.ArrayStop();
      return None;
    }
    ghost var goal := ParseItems(s, ctx.depths, []);
    ParseItemsSkip(s, ctx.depths, []);
    SkipWsShrinks(s);
    failure := ReadItems(ctx, inp, goal);
    if failure != None {
      return;
    }
    closed := inp.ExpectByte(CLOSE_BRACKET);
    if !closed {
      return Some(Syntax);
    }
    ctx.ArrayStop();
  }

  /** The loop of _parse_array. */
  method ReadItems(ctx: Context, inp: Input, ghost goal: Parsed<seq<Value>>) returns (failure: Option<Failure>)
    requires inp.Valid() && ItemsGoal(goal, ctx.out, inp.Rest(), ctx.depths)
    modifies ctx, inp
    ensures inp.Valid()
    ensures match failure case Some(f) => goal == Err(f) case None => ItemsEnd(goal, ctx.out, inp.Rest())
    decreases |inp.Rest()|, 4
  {
    var more := true;
    while more
      invariant inp.Valid() && |inp.Rest()| <= |old(inp.Rest())|
      invariant if more then ItemsGoal(goal, ctx.out, inp.Rest(), ctx.depths) else ItemsEnd(goal, ctx.out, inp.Rest())
      decreases |inp.Rest()|, more
    {
      failure, more := ReadItem(ctx, inp, goal);
      if failure != None {
        return;
      }
    }
    failure := None;
  }

  lemma ParseValueSkip(s: bytes, d: nat)
    ensures ParseValue(SkipWs(s), d) == ParseValue(s, d)
  {
    SkipWsTwice(s);
  }

  lemma ParseItemsSkip(s: bytes, d: nat, done: seq<Value>)
    ensures ParseItems(SkipWs(s), d, done) == ParseItems(s, d, done)
  {
    ParseValueSkip(s, d);
  }

  lemma ParseMembersSkip(s: bytes, d: nat, done: seq<Member>)
    ensures ParseMembers(SkipWs(s), d, done) == ParseMembers(s, d, done)
  {
    ExpectSkipped(s, QUOTE);
  }

  lemma SkipWsShrinks(s: bytes)
    ensures |SkipWs(s)| <= |s|
  {
  }

  /** One turn of the array loop: parse_array_item, then the test for a comma. */
  method ReadItem(ctx: Context, inp: Input, ghost goal: Parsed<seq<Value>>)
    returns (failure: Option<Failure>, more: bool)
    requires inp.Valid() && ItemsGoal(goal, ctx.out, inp.Rest(), ctx.depths)
    modifies ctx, inp
    ensures inp.Valid() && ctx.depths == old(ctx.depths)
    ensures match failure
      case Some(f) => goal == Err(f)
      case None =>
        && |inp.Rest()| < |old(inp.Rest())|
        && if more then ItemsGoal(goal, ctx.out, inp.Rest(), ctx.depths) else ItemsEnd(goal, ctx.out, inp.Rest())
    decreases |inp.Rest()|, 3
  {
    more := false;
    var items := ctx.out.items;
    var child := new Context(ctx.depths);
    failure := ReadValue(child, inp);
    ctx.out := Arr(items + [child.out]);
    if failure != None {
      return;
    }
    ExpectSkipped(inp.Rest(), CLOSE_BRACKET);
    SkipWsShrinks(inp.Rest());
    more := inp.ExpectByte(COMMA);
  }

  ghost predicate MembersGoal(goal: Parsed<seq<Member>>, out: Value, rest: bytes, d: nat) {
    out.Obj? && goal == ParseMembers(rest, d, out.members)
  }

  ghost predicate MembersEnd(goal: Parsed<seq<Member>>, out: Value, rest: bytes) {
    out.Obj? && goal == match Expect(rest, CLOSE_BRACE) case Some(r) => Ok((out.members, r)) case None => Err(Syntax)
  }

  /** _parse_object. */
  method ReadObject(ctx: Context, inp: Input) returns (failure: Option<Failure>)
    requires inp.Valid()
    modifies ctx, inp
    ensures inp.Valid()
    ensures Agrees(ObjectRest(old(inp.Rest()), old(ctx.depths)), failure, ctx.out, inp.Rest())
    decreases |inp.Rest()|, 5
  {
    ghost var s := inp.Rest();
    var ok := ctx.ObjectStart();
    if !ok {
      return Some(Syntax);
    }
    var closed := inp.ExpectByte(CLOSE_BRACE);
    if closed {
      ctx.ObjectStop();
      return None;
    }
    ghost var goal := ParseMembers(s, ctx.depths, []);
    ParseMembersSkip(s, ctx.depths, []);
    SkipWsShrinks(s);
    failure := ReadMembers(ctx, inp, goal);
    if failure != None {
      return;
    }
    closed := inp.ExpectByte(CLOSE_BRACE);
    if !closed {
      return Some(Syntax);
    }
    ctx.ObjectStop();
  }

  /** The loop of _parse_object. */
  method ReadMembers(ctx: Context, inp: Input, ghost goal: Parsed<seq<Member>>) returns (failure: Option<Failure>)
    requires inp.Valid() && MembersGoal(goal, ctx.out, inp.Rest(), ctx.depths)
    modifies ctx, inp
    ensures inp.Valid()
    ensures match failure case Some(f) => goal == Err(f) case None => MembersEnd(goal, ctx.out, inp.Rest())
    decreases |inp.Rest()|, 4
  {
    var more := true;
    while more
      invariant inp.Valid() && |inp.Rest()| <= |old(inp.Rest())|
      invariant if more then MembersGoal(goal, ctx.out, inp.Rest(), ctx.depths)
                else MembersEnd(goal, ctx.out, inp.Rest())
      decreases |inp.Rest()|, more
    {
      failure, more := ReadMember(ctx, inp, goal);
      if failure != None {
        return;
      }
    }
    failure := None;
  }

  /** A key with its quotes and colon. */
  method ReadKey(inp: Input) returns (ok: bool, key: bytes)
    requires inp.Valid()
    modifies inp
    ensures inp.Valid()
    ensures match ParseKey(old(inp.Rest())) case Some(p) => ok && key == p.0 && inp.Rest() == p.1 case None => !ok
  {
    key := [];
    ok := inp.ExpectByte(QUOTE);
    if !ok {
      return;
    }
    ok, key := ReadString(inp);
    if !ok {
      return;
    }
    ok := inp.ExpectByte(COLON);
  }

  /** One turn of the object loop: the key, parse_object_item, then the test for a comma. */
  method ReadMember(ctx: Context, inp: Input, ghost goal: Parsed<seq<Member>>)
    returns (failure: Option<Failure>, more: bool)
    requires inp.Valid() && MembersGoal(goal, ctx.out, inp.Rest(), ctx.depths)
    modifies ctx, inp
    ensures inp.Valid() && ctx.depths == old(ctx.depths)
    ensures match failure
      case Some(f) => goal == Err(f)
      case None =>
        && |inp.Rest()| < |old(inp.Rest())|
        && if more then MembersGoal(goal, ctx.out, inp.Rest(), ctx.depths) else MembersEnd(goal, ctx.out, inp.Rest())
    decreases |inp.Rest()|, 3
  {
    more := false;
    var ok, key := ReadKey(inp);
    if !ok {
      return Some(Syntax), false;
    }
    var ms := ctx.out.members;
    var child := new Context(ctx.depths);
    failure := ReadValue(child, inp);
    ctx.out := Obj(Store(ms, key, child.out));
    if failure != None {
      return;
    }
    ExpectSkipped(inp.Rest(), CLOSE_BRACE);
    SkipWsShrinks(inp.Rest());
    more := inp.ExpectByte(COMMA);
  }

  /** parse on a whole text. */
  method ParseText(text: bytes) returns (r: Result<Value, Failure>)
    ensures r == Parse(text)
  {
    var inp := new Input(text);
    var ctx := new Context(MAX_DEPTH);
    var failure := ReadValue(ctx, inp);
    if failure != None {
      return Err(failure.value);
    }
    r := Ok(ctx.out);
  }
}
