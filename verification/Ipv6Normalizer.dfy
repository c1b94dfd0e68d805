/** normalize_IPv6: the token and field arrays, shifted and printed in place. */
module Ipv6Normalizer {
  import opened Arithmetic
  import opened Bytes
  import opened Segments
  import opened Ipv6Text
  import opened Ipv6Normal

  /** is_ipv6: the right length and nothing but hexadecimal digits, colons and periods. */
  predicate Ipv6Chars(s: bytes) {
    2 <= |s| <= 254 && forall c :: c in s ==> c == COLON || c == PERIOD || IsHexDigit(c)
  }

  /** What the printer makes of eight fields: the canonical text, but a lone ':' when all are zero. */
  function Printed(f: FieldList): bytes
    requires |f| == 8
  {
    if f == Zeros(8) then [COLON] else Canonical(f)
  }

  /** The text normalize_IPv6 returns for a valid period-free text. */
  ghost function NormalText(s: bytes): bytes
    requires Rfc4291(s)
  {
    if s == DOUBLE_COLON then s else Printed(Denote(s))
  }

  // ----- the shape of a valid text -----

  /** The pieces of a text: all groups, or groups around one empty piece. */
  function Laid(left: Elements, elided: bool, right: Elements): Elements {
    if elided then left + ([[]] + right) else left
  }

  /** The range of s that is cut: a colon at either end is dropped. */
  function CutFrom(s: bytes): nat {
    if s != [] && s[0] == COLON then 1 else 0
  }

  function CutTo(s: bytes): nat {
    if s != [] && s[|s| - 1] == COLON then |s| - 1 else |s|
  }

  ghost predicate Shaped(s: bytes, left: Elements, elided: bool, right: Elements)
    requires Rfc4291(s)
  {
    CutFrom(s) < CutTo(s)
    && AllGroups(left) && AllGroups(right)
    && Split(s[CutFrom(s)..CutTo(s)], COLON) == Laid(left, elided, right)
    && (if elided then |left| + |right| <= 7 && Denote(s) == Spread(left, right)
        else |left| == 8 && right == [] && Denote(s) == Values(left))
  }

  lemma GroupEnds(x: bytes)
    requires GroupText(x) && x != []
    ensures x[0] != COLON && x[|x| - 1] != COLON
  {
    var n := FieldExists(x, 0);
    GroupTextStep(x, 0, n, |x|);
    assert x[0..|x|] == x;
    NoColonInField(x, 0, n, 0);
    var h := x[..|x| - 1];
    assert x == h + [x[|x| - 1]];
    TrailingColon(h);
  }

  lemma TrailingColon(h: bytes)
    ensures !GroupText(h + [COLON])
  {
    var x := h + [COLON];
    assert x == h + [COLON] + [];
    SplitConcat(h, [], COLON);
    SplitWhole([], COLON);
    var none: bytes := [];
    assert Split(x, COLON)[|Split(h, COLON)|] == none;
    assert !IsGroup(none);
  }

  lemma Shape(s: bytes) returns (left: Elements, elided: bool, right: Elements)
    requires Rfc4291(s) && s != DOUBLE_COLON
    ensures Shaped(s, left, elided, right)
  {
    if GroupText(s) && |Pieces(s)| == 8 {
      GroupEnds(s);
      assert s[0..|s|] == s;
      return Pieces(s), false, [];
    }
    var k: nat :| ElidedAt(s, k);
    ElidedUnique(s, k);
    SplitElided(s, k);
    left, elided, right := Pieces(s[..k]), true, Pieces(s[k + 2..]);
    ShapeElided(s, k);
  }

  lemma ShapeElided(s: bytes, k: nat)
    requires ElidedAt(s, k) && s != DOUBLE_COLON
    ensures CutFrom(s) < CutTo(s)
    ensures Split(s[CutFrom(s)..CutTo(s)], COLON) == Laid(Pieces(s[..k]), true, Pieces(s[k + 2..]))
  {
    var a, b := s[..k], s[k + 2..];
    if a != [] {
      GroupEnds(a);
    }
    if b != [] {
      GroupEnds(b);
    }
    var x := s[CutFrom(s)..CutTo(s)];
    if a == [] {
      assert x == [] + [COLON] + b;
      SplitAt([], b, COLON);
    } else if b == [] {
      assert x == a + [COLON] + [];
      SplitConcat(a, [], COLON);
      SplitWhole([], COLON);
    } else {
      assert x == s;
      SplitElided(s, k);
    }
  }

  // ----- the array program -----

  /** The piece g starts at b and ends at a colon or at the limit e. */
  predicate TokenIs(s: bytes, b: nat, e: nat, g: bytes) {
    b + |g| <= e <= |s| && s[b..b + |g|] == g && Free(g, [COLON]) && (b + |g| == e || s[b + |g|] == COLON)
  }

  /** t holds where each piece of es starts in s, b where the next one does. */
  predicate Started(s: bytes, t: seq<nat>, es: Elements, b: nat) {
    |es| <= |t| && forall j :: 0 <= j < |es| ==> TokenAt(s, t, es, b, j)
  }

  predicate TokenAt(s: bytes, t: seq<nat>, es: Elements, b: nat, j: nat)
    requires j < |es| <= |t|
  {
    TokenIs(s, t[j], if j + 1 < |es| then t[j + 1] else b, es[j])
  }

  /** tokens[i++] = b, where the piece g starts at b and the next one at e. */
  method StoreToken(s: bytes, tokens: array<nat>, i: nat, b: nat, ghost e: nat, ghost es: Elements, ghost g: bytes)
    requires i == |es| < tokens.Length && Started(s, tokens[..], es, b) && TokenIs(s, b, e, g)
    modifies tokens
    ensures Started(s, tokens[..], es + [g], e) && tokens[i] == b
  {
    ghost var t := tokens[..];
    tokens[i] := b;
    StartedMore(s, t, tokens[..], es, b, e, g);
  }

  lemma StartedMore(s: bytes, t: seq<nat>, u: seq<nat>, es: Elements, b: nat, e: nat, g: bytes)
    requires |es| < |t| == |u| && u == t[|es| := b] && Started(s, t, es, b) && TokenIs(s, b, e, g)
    ensures Started(s, u, es + [g], e)
  {
    forall j | 0 <= j < |es| + 1
      ensures TokenAt(s, u, es + [g], e, j)
    {
      if j < |es| {
        assert TokenAt(s, t, es, b, j);
      }
    }
  }

  /** The splitting loop: the start of every piece of s[b0..e) goes into tokens, its end behind the last. */
  method SplitTokens(s: bytes, b0: nat, e: nat, tokens: array<nat>) returns (n: nat)
    requires b0 <= e <= |s| && |Split(s[b0..e], COLON)| <= 8 && tokens.Length == 10
    modifies tokens
    ensures n == |Split(s[b0..e], COLON)| && tokens[n] == e && tokens[n - 1] + |Split(s[b0..e], COLON)[n - 1]| == e
    ensures Started(s, tokens[..], Split(s[b0..e], COLON), e)
  {
    ghost var done: Elements := [];
    ghost var all := Split(s[b0..e], COLON);
    var p: nat, b: nat, i: nat := b0, b0, 0;
    assert done + all == all;
    while p != e
      invariant b0 <= b <= p <= e && i == |done|
      invariant all == done + Split(s[b..e], COLON)
      invariant Free(s[b..p], [COLON])
      invariant Started(s, tokens[..], done, b)
    {
      p := p + 1;
      if s[p - 1] == COLON {
        StorePiece(s, tokens, i, b, p, e, done, all);
        done := done + [s[b..p - 1]];
        i, b := i + 1, p;
      } else {
        FreeSnoc(s, b, p - 1, [COLON]);
      }
    }
    PieceAt(s, b, e, e, done);
    n := LastToken(s, tokens, i, b, e, done);
    assert all == done + [s[b..e]];
  }

  /** One turn of the splitting loop at a colon: the piece before it is recorded. */
  method StorePiece(s: bytes, tokens: array<nat>, i: nat, b: nat, p: nat, e: nat,
                    ghost done: Elements, ghost all: Elements)
    requires b < p <= e <= |s| && Free(s[b..p - 1], [COLON]) && s[p - 1] == COLON
    requires i == |done| && tokens.Length == 10 && |all| <= 8
    requires all == done + Split(s[b..e], COLON) && Started(s, tokens[..], done, b)
    modifies tokens
    ensures all == (done + [s[b..p - 1]]) + Split(s[p..e], COLON)
    ensures Started(s, tokens[..], done + [s[b..p - 1]], p)
  {
    PieceAt(s, b, p - 1, e, done);
    StoreToken(s, tokens, i, b, p, done, s[b..p - 1]);
  }

  /** The last piece and the end of the text behind it. */
  method LastToken(s: bytes, tokens: array<nat>, i: nat, b: nat, e: nat, ghost done: Elements) returns (n: nat)
    requires tokens.Length == 10 && i == |done| < 8 && b <= e <= |s|
    requires Started(s, tokens[..], done, b) && TokenIs(s, b, e, s[b..e])
    modifies tokens
    ensures n == i + 1 && tokens[n] == e && tokens[n - 1] == b
    ensures Started(s, tokens[..], done + [s[b..e]], e)
  {
    n := i;
    if i < 8 {
      StoreToken(s, tokens, i, b, e, done, s[b..e]);
      n := i + 1;
    }
    ghost var t := tokens[..];
    tokens[n] := e;
    assert tokens[..][..n] == t[..n];
    StartedKeeps(s, t, tokens[..], done + [s[b..e]], e);
  }

  lemma StartedKeeps(s: bytes, t: seq<nat>, u: seq<nat>, es: Elements, e: nat)
    requires Started(s, t, es, e) && |t| == |u| && t[..|es|] == u[..|es|]
    ensures Started(s, u, es, e)
  {
    assert forall j :: 0 <= j < |es| ==> u[j] == u[..|es|][j] == t[..|es|][j] == t[j];
    forall j | 0 <= j < |es|
      ensures TokenAt(s, u, es, e, j)
    {
      assert TokenAt(s, t, es, e, j);
    }
  }

  lemma PieceAt(s: bytes, b: nat, q: nat, e: nat, done: Elements)
    requires b <= q <= e <= |s| && Free(s[b..q], [COLON]) && (q < e ==> s[q] == COLON)
    ensures done + Split(s[b..e], COLON) == (done + [s[b..q]]) + if q == e then [] else Split(s[q + 1..e], COLON)
    ensures TokenIs(s, b, if q == e then e else q + 1, s[b..q])
  {
    if q == e {
      SplitWhole(s[b..q], COLON);
    } else {
      SliceAround(s, b, q, e);
      SplitAt(s[b..q], s[q + 1..e], COLON);
      SplitAfter(done, s[b..q], Split(s[q + 1..e], COLON));
    }
  }

  lemma SplitAfter(done: Elements, g: bytes, more: Elements)
    ensures done + ([g] + more) == (done + [g]) + more
  {
  }

  lemma HexNumberStep(g: bytes, k: nat)
    requires IsGroup(g) && k < |g|
    ensures HexNumber(g[..k + 1]) == HexNumber(g[..k]) * 16 + HexValue(g[k])
    ensures HexNumber(g[..k + 1]) < 0x1_0000
    ensures HexNumber(g[..k]) * 16 % 0x1_0000 == HexNumber(g[..k]) * 16
  {
    assert g[..k + 1][..k] == g[..k];
    assert g[k] in g;
    HexNumberBound(g[..k + 1]);
    DivMod(HexNumber(g[..k]) * 16, 0x1_0000, 0, HexNumber(g[..k]) * 16);
  }

  /** One field: its hexadecimal digits shifted into sixteen bits. */
  method DecodeField(s: bytes, b: nat, e: nat, ghost g: bytes) returns (field: Field)
    requires TokenIs(s, b, e, g) && IsGroup(g)
    ensures field == HexNumber(g)
  {
    TokenDigits(s, b, e, g);
    HexNumberStep(g, 0);
    assert g[..0] == [];
    var p := b + 1;
    field := HexValue(s[b]);
    while p != e && s[p] != COLON
      invariant b < p <= b + |g|
      invariant field == HexNumber(g[..p - b])
    {
      HexNumberStep(g, p - b);
      field := (field * 16) % 0x1_0000 + HexValue(s[p]);
      p := p + 1;
    }
    assert g[..|g|] == g;
  }

  lemma TokenDigits(s: bytes, b: nat, e: nat, g: bytes)
    requires TokenIs(s, b, e, g) && IsGroup(g)
    ensures forall i :: 0 <= i < |g| ==> g[i] == s[b + i] && s[b + i] != COLON && IsHexDigit(s[b + i])
    ensures b + |g| == e || s[b + |g|] == COLON
  {
    assert forall i :: 0 <= i < |g| ==> g[i] == s[b + i] && g[i] in g;
  }

  /** One turn of the decoding loop: an empty piece, or a group that becomes the next field. */
  method DecodeToken(s: bytes, p: nat, next: nat, fields: array<Field>, count: nat, ghost g: bytes)
    returns (empty: bool)
    requires TokenIs(s, p, next, g) && (g == [] || IsGroup(g)) && count < fields.Length
    modifies fields
    ensures empty <==> g == []
    ensures empty ==> fields[..] == old(fields[..])
    ensures !empty ==> fields[..count + 1] == old(fields[..count]) + [GroupValue(g)]
  {
    if p == next || s[p] == COLON {
      EmptyToken(s, p, next, g);
      return true;
    }
    assert g != [];
    var field := DecodeField(s, p, next, g);
    fields[count] := field;
    empty := false;
  }

  lemma LaidAt(left: Elements, elided: bool, right: Elements, i: nat)
    requires AllGroups(left) && AllGroups(right) && (!elided ==> right == [])
    requires i < |Laid(left, elided, right)|
    ensures elided && i == |left| ==> Laid(left, elided, right)[i] == []
    ensures !(elided && i == |left|) ==>
      var k := if i < |left| then i else i - 1;
      k < |left + right| && Laid(left, elided, right)[i] == (left + right)[k]
      && IsGroup((left + right)[k]) && Values(left + right)[k] == HexNumber((left + right)[k])
  {
    var k := if i < |left| then i else i - 1;
    if !(elided && i == |left|) {
      assert (left + right)[k] in left + right;
    }
  }

  /** The decoding loop: the groups in order, and the index of the empty piece (8 when there is none). */
  method DecodeFields(s: bytes, tokens: array<nat>, n: nat, fields: array<Field>,
                      ghost left: Elements, ghost elided: bool, ghost right: Elements)
    returns (count: nat, gap: nat)
    requires tokens.Length == 10 && fields.Length == 8 && n == |Laid(left, elided, right)| <= 8
    requires AllGroups(left) && AllGroups(right) && (!elided ==> right == []) && tokens[n] <= |s|
    requires Started(s, tokens[..], Laid(left, elided, right), tokens[n])
    modifies fields
    ensures count == |left| + |right| && gap == if elided then |left| else 8
    ensures fields[..count] == Values(left + right)
  {
    ghost var f := Values(left + right);
    count, gap := 0, 8;
    var i := 0;
    while i != n
      invariant 0 <= i <= n
      invariant count == if elided && i > |left| then i - 1 else i
      invariant gap == if elided && i > |left| then |left| else 8
      invariant count <= |f| && fields[..count] == f[..count]
    {
      LaidAt(left, elided, right, i);
      ghost var g := Laid(left, elided, right)[i];
      assert TokenAt(s, tokens[..], Laid(left, elided, right), tokens[n], i);
      ghost var was := fields[..];
      var empty := DecodeToken(s, tokens[i], tokens[i + 1], fields, count, g);
      if empty {
        gap := i;
      } else {
        FieldsStep(f, fields[..], was, count);
        count := count + 1;
      }
      i := i + 1;
    }
  }

  lemma FieldsStep(f: FieldList, now: FieldList, was: FieldList, n: nat)
    requires n < |f| && n < |now| == |was| && was[..n] == f[..n] && now[..n + 1] == was[..n] + [f[n]]
    ensures now[..n + 1] == f[..n + 1]
  {
  }

  lemma EmptyToken(s: bytes, b: nat, e: nat, g: bytes)
    requires TokenIs(s, b, e, g) && (b == e || s[b] == COLON)
    ensures g == []
  {
    if g != [] {
      TokenHead(s, b, e, g);
    }
  }

  lemma TokenHead(s: bytes, b: nat, e: nat, g: bytes)
    requires TokenIs(s, b, e, g) && g != []
    ensures b < e && s[b] != COLON
  {
    assert g[0] in g;
  }

  /** The first loop of the expansion: the groups behind the gap move to the end. */
  method MoveGroups(fields: array<Field>, count: nat, gap: nat, ghost f: FieldList) returns (last: nat)
    requires fields.Length == 8 && gap <= count == |f| <= 8 && fields[..count] == f
    modifies fields
    ensures last == 8 - count + gap && fields[..gap] == f[..gap] && fields[last..] == f[gap..]
  {
    last := 8;
    var i := count;
    while i != gap
      invariant gap <= i <= count && last == 8 - count + i
      invariant fields[..i] == f[..i] && fields[last..] == f[i..]
    {
      ghost var was := fields[..];
      last, i := last - 1, i - 1;
      fields[last] := fields[i];
      assert fields[last] == f[..i + 1][i] && was[last + 1..] == f[i + 1..];
      assert fields[last..] == [f[i]] + was[last + 1..];
      assert fields[..i] == was[..i + 1][..i];
    }
  }

  /** The second loop: zeros fill the room. */
  method FillRoom(fields: array<Field>, gap: nat, end: nat)
    requires gap <= end <= fields.Length == 8
    modifies fields
    ensures fields[..] == old(fields[..gap]) + Zeros(end - gap) + old(fields[end..])
  {
    var last := end;
    while last != gap
      invariant gap <= last <= end
      invariant fields[..last] == old(fields[..last]) && fields[end..] == old(fields[end..])
      invariant forall j :: last <= j < end ==> fields[j] == 0
    {
      last := last - 1;
      fields[last] := 0;
    }
    assert fields[gap..end] == Zeros(end - gap);
    assert fields[..] == fields[..gap] + fields[gap..end] + fields[end..];
  }

  /** The expansion in place: the groups behind the gap move to the end, zeros fill the room between. */
  method SpreadFields(fields: array<Field>, count: nat, gap: nat, ghost left: FieldList, ghost right: FieldList)
    requires fields.Length == 8 && count == |left| + |right| <= 8 && fields[..count] == left + right
    requires count < 8 ==> gap == |left|
    modifies fields
    ensures fields[..] == left + Zeros(8 - count) + right
  {
    if count < 8 {
      var last := MoveGroups(fields, count, gap, left + right);
      FillRoom(fields, gap, last);
    } else {
      assert fields[..] == fields[..count];
      assert left + Zeros(0) + right == left + right;
    }
  }

  /** The better of two runs, the left one on a tie. */
  function Better(a: (nat, nat), b: (nat, nat)): (nat, nat) {
    if a.1 > 0 && a.1 >= b.1 then a else b
  }

  lemma {:induction false} RunThenRest(f: FieldList, i: nat, n: nat)
    requires n > 0 && i + n <= |f| && ZeroCount(f, i) == n
    ensures LongestRun(f, i) == Better((i, n), LongestRun(f, i + n))
    decreases n
  {
    if n > 1 {
      RunThenRest(f, i + 1, n - 1);
    }
  }

  /** The search for the leftmost longest zero run. */
  method FindZeroRun(fields: array<Field>) returns (pos: nat, len: nat)
    requires fields.Length == 8
    ensures (pos, len) == LongestRun(fields[..], 0)
  {
    ghost var f := fields[..];
    var i := 0;
    len, pos := 0, 8;
    while i < 8
      invariant 0 <= i <= 8 && f == fields[..]
      invariant len == 0 ==> pos == 8
      invariant LongestRun(f, 0) == Better((pos, len), LongestRun(f, i))
    {
      if fields[i] != 0 {
        i := i + 1;
      } else {
        var first := i;
        ZeroCountIsMax(f, first);
        while i < 8 && fields[i] == 0
          invariant first <= i <= first + ZeroCount(f, first) && f == fields[..]
        {
          i := i + 1;
        }
        RunThenRest(f, first, i - first);
        if i - first > len {
          pos, len := first, i - first;
        }
      }
    }
  }

  /** std::hex output of a number. */
  method WriteHex(v: nat) returns (t: bytes)
    ensures t == HexText(v)
  {
    var n := v;
    t := [];
    assert HexText(v) + [] == HexText(v);
    while n >= 16
      invariant HexText(v) == HexText(n) + t
      decreases n
    {
      t := [HexLower(n % 16)] + t;
      n := n / 16;
    }
    t := [HexLower(n)] + t;
  }

  /** The loops that write ':' and a field, for every field of a range. */
  method WriteFields(fields: array<Field>, from: nat, to: nat) returns (t: bytes)
    requires from <= to <= fields.Length == 8
    ensures t == JoinTail(HexTexts(fields[..][from..to]), COLON)
  {
    ghost var f := fields[..];
    t := [];
    var i := from;
    while i < to
      invariant from <= i <= to
      invariant JoinTail(HexTexts(f[from..to]), COLON) == t + JoinTail(HexTexts(f[i..to]), COLON)
    {
      var h := WriteHex(fields[i]);
      TailStep(f, i, to, t);
      t := t + [COLON] + h;
      i := i + 1;
    }
    assert HexTexts(f[to..to]) == [];
  }

  lemma TailStep(f: FieldList, i: nat, to: nat, t: bytes)
    requires i < to <= |f|
    ensures t + JoinTail(HexTexts(f[i..to]), COLON)
         == t + [COLON] + HexText(f[i]) + JoinTail(HexTexts(f[i + 1..to]), COLON)
  {
    assert HexTexts(f[i..to])[1..] == HexTexts(f[i + 1..to]);
  }

  lemma JoinHead(f: FieldList)
    requires f != []
    ensures Join(HexTexts(f), COLON) == HexText(f[0]) + JoinTail(HexTexts(f[1..]), COLON)
  {
    JoinIsHeadThenTail(HexTexts(f), COLON);
    assert HexTexts(f)[1..] == HexTexts(f[1..]);
  }

  /** What follows a "::": the remaining fields, each behind a colon, or a second colon when there are none. */
  lemma ColonTail(f: FieldList)
    ensures [COLON] + Join(HexTexts(f), COLON) == if f == [] then [COLON] else JoinTail(HexTexts(f), COLON)
  {
    if f != [] {
      JoinIsHeadThenTail(HexTexts(f), COLON);
    }
  }

  lemma AllZeroRun(f: FieldList)
    requires |f| == 8
    ensures f == Zeros(8) <==> LongestRun(f, 0) == (0, 8)
  {
    LongestRunIsBest(f, 0);
    assert f == Zeros(8) ==> ZeroRun(f, 0, 8);
  }

  /** The output before the chosen run: its fields, the first colon of a "::" and, at the very end, the second. */
  method PrintHead(fields: array<Field>, pos: nat, len: nat) returns (str: bytes)
    requires fields.Length == 8 && pos + len <= 8 && pos > 0
    ensures str == Join(HexTexts(fields[..][..pos]), COLON)
                   + (if pos < 8 then [COLON] else []) + (if pos + len == 8 && len != 0 then [COLON] else [])
  {
    ghost var f := fields[..];
    str := WriteHex(fields[0]);
    var head := WriteFields(fields, 1, pos);
    JoinHead(f[..pos]);
    assert f[..pos][1..] == f[1..pos];
    str := str + head;
    if pos < 8 {
      str := str + [COLON];
    }
    if pos + len == 8 && len != 0 {
      str := str + [COLON];
    }
  }

  /** The text the encoding step lays out around the run (pos, len). */
  function Layout(f: FieldList, pos: nat, len: nat): bytes
    requires |f| == 8 && pos + len <= 8
  {
    if len < 2 then Join(HexTexts(f[..8]), COLON)
    else if pos == 0 then [COLON] + JoinTail(HexTexts(f[len..8]), COLON)
    else Join(HexTexts(f[..pos]), COLON) + [COLON]
         + if pos + len == 8 then [COLON] else JoinTail(HexTexts(f[pos + len..8]), COLON)
  }

  /** The layout as its head and what follows a "::" inside. */
  lemma LayoutParts(f: FieldList, pos0: nat, len: nat)
    requires |f| == 8 && pos0 + len <= 8
    ensures var pos := if len < 2 then 8 else pos0;
      var head := Join(HexTexts(f[..pos]), COLON)
        + (if pos < 8 then [COLON] else [])
        + (if pos + (if pos == 8 then 0 else len) == 8 && pos < 8 then [COLON] else []);
      Layout(f, pos0, len) == if pos == 0 then [COLON] + JoinTail(HexTexts(f[len..8]), COLON)
        else if pos < 8 && pos + len < 8 then head + JoinTail(HexTexts(f[pos + len..8]), COLON) else head
  {
    var head := Join(HexTexts(f[..if len < 2 then 8 else pos0]), COLON);
    assert head + [] + [] == head && head + [COLON] + [] == head + [COLON];
  }

  /** The encoding step: the fields around the chosen run. */
  method PrintAround(fields: array<Field>, pos0: nat, len: nat) returns (str: bytes)
    requires fields.Length == 8 && pos0 + len <= 8
    ensures str == Layout(fields[..], pos0, len)
  {
    ghost var f := fields[..];
    var pos := if len < 2 then 8 else pos0;
    LayoutParts(f, pos0, len);
    if pos == 0 {
      var tail := WriteFields(fields, len, 8);
      return [COLON] + tail;
    }
    str := PrintHead(fields, pos, if pos == 8 then 0 else len);
    if pos < 8 && pos + len < 8 {
      var tail := WriteFields(fields, pos + len, 8);
      str := str + tail;
    }
  }

  method PrintFields(fields: array<Field>) returns (str: bytes)
    requires fields.Length == 8
    ensures str == Printed(fields[..])
  {
    var pos, len := FindZeroRun(fields);
    PrintedParts(fields[..]);
    str := PrintAround(fields, pos, len);
  }

  lemma PrintedParts(f: FieldList)
    requires |f| == 8
    ensures var (pos, len) := LongestRun(f, 0); Printed(f) == Layout(f, pos, len)
  {
    var (pos, len) := LongestRun(f, 0);
    AllZeroRun(f);
    LayoutIsAround(f, pos, len);
  }

  lemma LayoutIsAround(f: FieldList, pos: nat, len: nat)
    requires |f| == 8 && pos + len <= 8
    ensures Layout(f, pos, len) == if len == 8 then [COLON] else Around(f, pos, len)
  {
    var rest := f[pos + len..];
    assert f[..8] == f && f[pos + len..8] == rest;
    ColonTail(rest);
    if len >= 2 {
      assert HexTexts(f[..0]) == [];
      TwoColons(Join(HexTexts(f[..pos]), COLON), Join(HexTexts(rest), COLON));
    }
  }

  lemma TwoColons(a: bytes, r: bytes)
    ensures a + DOUBLE_COLON + r == a + [COLON] + ([COLON] + r)
    ensures [] + DOUBLE_COLON + r == [COLON] + ([COLON] + r)
  {
  }

  /** Cutting and decoding the range [b, e) of s, whose pieces are known. */
  method ReadFields(s: bytes, b: nat, e: nat, fields: array<Field>,
                    ghost left: Elements, ghost elided: bool, ghost right: Elements)
    returns (count: nat, gap: nat)
    requires b <= e <= |s| && AllGroups(left) && AllGroups(right) && fields.Length == 8
    requires Split(s[b..e], COLON) == Laid(left, elided, right)
    requires if elided then |left| + |right| <= 7 else |left| == 8 && right == []
    modifies fields
    ensures count == |left| + |right| && gap == if elided then |left| else 8
    ensures fields[..count] == Values(left) + Values(right)
  {
    var tokens := new nat[10](_ => 0);
    var n := SplitTokens(s, b, e, tokens);
    LaidAt(left, elided, right, n - 1);
    assert tokens[n] - tokens[n - 1] <= 5;  // no IPv4 tail without a period
    count, gap := DecodeFields(s, tokens, n, fields, left, elided, right);
    assert Values(left + right) == Values(left) + Values(right);
  }

  /** The steps of normalize_IPv6 behind the cutting of the ends. */
  method NormalizeRange(s: bytes, b: nat, e: nat, ghost left: Elements, ghost elided: bool, ghost right: Elements)
    returns (r: bytes)
    requires b <= e <= |s| && AllGroups(left) && AllGroups(right)
    requires Split(s[b..e], COLON) == Laid(left, elided, right)
    requires if elided then |left| + |right| <= 7 else |left| == 8 && right == []
    ensures r == Printed(Spread(left, right))
  {
    var fields := new Field[8](_ => 0);
    var count, gap := ReadFields(s, b, e, fields, left, elided, right);
    SpreadFields(fields, count, gap, Values(left), Values(right));
    assert fields[..] == Spread(left, right);
    r := PrintFields(fields);
  }

  /** normalize_IPv6 on a valid text without a period. */
  method NormalizeIpv6(s: bytes) returns (r: bytes)
    requires Rfc4291(s) && PERIOD !in s
    ensures r == NormalText(s)
  {
    if s == [COLON, COLON] {
      return s;
    }
    ghost var left, elided, right := NormalShape(s);
    r := NormalizeCut(s, left, elided, right);
  }

  /** The steps of normalize_IPv6 from the cutting of the ends on. */
  method NormalizeCut(s: bytes, ghost left: Elements, ghost elided: bool, ghost right: Elements) returns (r: bytes)
    requires s != [] && CutFrom(s) <= CutTo(s) && AllGroups(left) && AllGroups(right)
    requires Split(s[CutFrom(s)..CutTo(s)], COLON) == Laid(left, elided, right)
    requires if elided then |left| + |right| <= 7 else |left| == 8 && right == []
    ensures r == Printed(Spread(left, right))
  {
    var b, e := 0, |s|;
    if s[0] == COLON {
      b := 1;
    }
    if s[|s| - 1] == COLON {
      e := |s| - 1;
    }
    r := NormalizeRange(s, b, e, left, elided, right);
  }

  /** The pieces the array program works on, and what they mean for the result. */
  lemma NormalShape(s: bytes) returns (left: Elements, elided: bool, right: Elements)
    requires Rfc4291(s) && PERIOD !in s && s != DOUBLE_COLON
    ensures s != [] && CutFrom(s) <= CutTo(s) && AllGroups(left) && AllGroups(right)
    ensures Split(s[CutFrom(s)..CutTo(s)], COLON) == Laid(left, elided, right)
    ensures if elided then |left| + |right| <= 7 else |left| == 8 && right == []
    ensures NormalText(s) == Printed(Spread(left, right))
  {
    left, elided, right := Shape(s);
    assert !elided ==> Values(left) == Spread(left, right);
  }

  // ----- what normalisation guarantees -----

  /** The texts on which normalisation yields a valid text: all but the long spellings of the zero address. */
  ghost predicate Normalizable(s: bytes)
    requires Rfc4291(s)
  {
    s == DOUBLE_COLON || Denote(s) != Zeros(8)
  }

  lemma DoubleColonDenotes()
    ensures Rfc4291(DOUBLE_COLON) && Denote(DOUBLE_COLON) == Zeros(8) && PERIOD !in DOUBLE_COLON
    ensures Canonical(Zeros(8)) == DOUBLE_COLON
  {
    assert ElidedAt(DOUBLE_COLON, 0) by {
      assert DOUBLE_COLON[..0] == [] && DOUBLE_COLON[2..] == [];
    }
    ElidedUnique(DOUBLE_COLON, 0);
    AllZeroRun(Zeros(8));
    assert HexTexts(Zeros(8)[..0]) == [] && HexTexts(Zeros(8)[8..]) == [];
  }

  /**
   * Normalisation yields the RFC 5952 text of the same address exactly when the text is normalizable;
   * otherwise it yields a lone ':', which is no address at all.
   */
  lemma NormalTextIsCanonical(s: bytes)
    requires Rfc4291(s)
    ensures Normalizable(s) <==> Rfc4291(NormalText(s))
    ensures Normalizable(s) <==> NormalText(s) == Canonical(Denote(s))
    ensures Normalizable(s) ==> Denote(NormalText(s)) == Denote(s)
    ensures Normalizable(s) ==> PERIOD !in NormalText(s) && IsLower(NormalText(s))
    ensures !Normalizable(s) ==> NormalText(s) == [COLON]
  {
    DoubleColonDenotes();
    CanonicalDenotes(Denote(s));
    CanonicalChars(Denote(s));
    if Rfc4291([COLON]) {
      RfcLength([COLON]);
    }
  }

  /** Normalising twice is normalising once, and two texts normalise alike exactly when they name the same address. */
  lemma NormalTextIdentifies(s: bytes, t: bytes)
    requires Rfc4291(s) && Rfc4291(t) && Normalizable(s) && Normalizable(t)
    ensures Rfc4291(NormalText(s)) && NormalText(NormalText(s)) == NormalText(s)
    ensures NormalText(s) == NormalText(t) <==> Denote(s) == Denote(t)
  {
    NormalTextIsCanonical(s);
    NormalTextIsCanonical(t);
    DoubleColonDenotes();
  }
}
