/**
 * The IPv6 canonicaliser: what address a text denotes, the canonical text of an address,
 * and the array program that turns one into the other.
 */
module Ipv6Normal {
  import opened Bytes
  import opened Segments
  import opened Ipv6Text

  /** A 16-bit field. */
  type Field = n: nat | n < 0x1_0000

  type FieldList = seq<Field>

  const DOUBLE_COLON: bytes := [COLON, COLON]

  // ----- the address a text denotes -----

  lemma {:induction false} HexNumberBound(g: bytes)
    ensures |g| <= 1 ==> HexNumber(g) < 0x10
    ensures |g| <= 2 ==> HexNumber(g) < 0x100
    ensures |g| <= 3 ==> HexNumber(g) < 0x1000
    ensures |g| <= 4 ==> HexNumber(g) < 0x1_0000
  {
    if g != [] {
      HexNumberBound(g[..|g| - 1]);
    }
  }

  predicate AllGroups(es: Elements) {
    forall g :: g in es ==> IsGroup(g)
  }

  function GroupValue(g: bytes): Field
    requires IsGroup(g)
  {
    HexNumberBound(g);
    HexNumber(g)
  }

  function Values(es: Elements): (f: FieldList)
    requires AllGroups(es)
    ensures |f| == |es|
    ensures forall i :: 0 <= i < |es| ==> f[i] == HexNumber(es[i])
  {
    seq(|es|, i requires 0 <= i < |es| => assert es[i] in es; GroupValue(es[i]))
  }

  function Zeros(n: nat): (f: FieldList)
    ensures |f| == n && forall i :: 0 <= i < n ==> f[i] == 0
  {
    seq(n, _ => 0)
  }

  /** The eight groups a valid text stands for. */
  ghost function Denote(s: bytes): (f: FieldList)
    requires Rfc4291(s)
    ensures |f| == 8
  {
    if GroupText(s) && |Pieces(s)| == 8 then Values(Pieces(s))
    else
      var k: nat :| ElidedAt(s, k);
      Spread(Pieces(s[..k]), Pieces(s[k + 2..]))
  }

  /** The groups before and after a "::", with as many zero fields between as are missing. */
  function Spread(left: Elements, right: Elements): (f: FieldList)
    requires AllGroups(left) && AllGroups(right) && |left| + |right| <= 8
    ensures |f| == 8
  {
    Values(left) + Zeros(8 - |left| - |right|) + Values(right)
  }

  /** A text with "::" at k cut at the colons. */
  lemma SplitElided(s: bytes, k: nat)
    requires ColonsAt(s, k)
    ensures Split(s, COLON) == Split(s[..k], COLON) + ([[]] + Split(s[k + 2..], COLON))
  {
    var a, b := s[..k], s[k + 2..];
    assert s == a + [COLON] + ([] + [COLON] + b);
    SplitConcat(a, [] + [COLON] + b, COLON);
    SplitAt([], b, COLON);
  }

  lemma NoColonsBefore(s: bytes, k: nat, e: nat)
    requires ColonsAt(s, k) && k < e <= |s|
    ensures !GroupText(s[..e])
  {
    var x, h, y := s[..e], s[..k], s[k + 1..e];
    assert x == h + [COLON] + y;
    SplitConcat(h, y, COLON);
    EmptyPieceInFront(y);
    assert (Split(h, COLON) + Split(y, COLON))[|Split(h, COLON)|] == [];
    var none: bytes := [];
    assert none in Pieces(x) && !IsGroup(none);
  }

  lemma EmptyPieceInFront(y: bytes)
    requires y == [] || y[0] == COLON
    ensures Split(y, COLON)[0] == []
  {
    if y == [] {
      SplitWhole([], COLON);
    } else {
      assert y == [] + [COLON] + y[1..];
      SplitAt([], y[1..], COLON);
    }
  }

  lemma ElidedUnique(s: bytes, k: nat)
    requires ElidedAt(s, k)
    ensures !GroupText(s)
    ensures forall j: nat :: ElidedAt(s, j) ==> j == k
    ensures Rfc4291(s) && Denote(s) == Spread(Pieces(s[..k]), Pieces(s[k + 2..]))
  {
    assert s[..|s|] == s;
    NoColonsBefore(s, k, |s|);
    forall j: nat | ElidedAt(s, j) ensures j == k {
      if j < k {
        NoColonsBefore(s, j, k);
      } else if k < j {
        NoColonsBefore(s, k, j);
      }
    }
  }

  // ----- the canonical text of an address -----

  /** Lower-case hexadecimal without leading zeros. */
  function HexText(v: nat): (t: bytes)
    ensures |t| >= 1
  {
    if v < 16 then [HexLower(v)] else HexText(v / 16) + [HexLower(v % 16)]
  }

  lemma {:induction false} HexTextShape(v: nat)
    ensures HexNumber(HexText(v)) == v
    ensures forall c :: c in HexText(v) ==> IsHexDigit(c) && !IsUpperAlpha(c)
    ensures v < 0x10 ==> |HexText(v)| == 1
    ensures v < 0x100 ==> |HexText(v)| <= 2
    ensures v < 0x1000 ==> |HexText(v)| <= 3
    ensures v < 0x1_0000 ==> |HexText(v)| <= 4
    ensures HexText(v)[0] == '0' as int ==> v == 0
  {
    var t := HexText(v);
    if v < 16 {
      assert t[..0] == [];
    } else {
      HexTextShape(v / 16);
      assert t[..|t| - 1] == HexText(v / 16);
    }
  }

  function HexTexts(f: FieldList): (es: Elements)
    ensures |es| == |f|
    ensures forall i :: 0 <= i < |f| ==> es[i] == HexText(f[i])
  {
    seq(|f|, i requires 0 <= i < |f| => HexText(f[i]))
  }

  lemma HexTextsAreGroups(f: FieldList)
    ensures AllGroups(HexTexts(f)) && Values(HexTexts(f)) == f
    ensures SepFree(HexTexts(f), COLON)
    ensures Pieces(Join(HexTexts(f), COLON)) == HexTexts(f)
  {
    var es := HexTexts(f);
    forall g | g in es ensures IsGroup(g) && Free(g, [COLON]) {
      var i :| 0 <= i < |es| && g == es[i];
      HexTextShape(f[i]);
    }
    forall i | 0 <= i < |f| ensures HexNumber(es[i]) == f[i] {
      HexTextShape(f[i]);
    }
    if f != [] {
      SplitJoin(es, COLON);
      GroupTextLength(es);
    }
  }

  /** How many zero fields start at i. */
  function ZeroCount(f: FieldList, i: nat): (n: nat)
    requires i <= |f|
    ensures i + n <= |f|
    decreases |f| - i
  {
    if i == |f| || f[i] != 0 then 0 else 1 + ZeroCount(f, i + 1)
  }

  /** The leftmost of the longest zero runs at or after i, and its length; (|f|, 0) when there is none. */
  function LongestRun(f: FieldList, i: nat): (r: (nat, nat))
    requires i <= |f|
    ensures i <= r.0 && r.0 + r.1 <= |f|
    ensures r.1 == 0 ==> r.0 == |f|
    decreases |f| - i
  {
    if i == |f| then (|f|, 0)
    else
      var rest := LongestRun(f, i + 1);
      var here := ZeroCount(f, i);
      if here > 0 && here >= rest.1 then (i, here) else rest
  }

  predicate ZeroRun(f: FieldList, i: nat, n: nat) {
    i + n <= |f| && forall j :: i <= j < i + n ==> f[j] == 0
  }

  lemma {:induction false} ZeroCountIsMax(f: FieldList, i: nat)
    requires i <= |f|
    ensures ZeroRun(f, i, ZeroCount(f, i))
    ensures i + ZeroCount(f, i) < |f| ==> f[i + ZeroCount(f, i)] != 0
    decreases |f| - i
  {
    if i < |f| && f[i] == 0 {
      ZeroCountIsMax(f, i + 1);
    }
  }

  lemma {:induction false} RunWithinCount(f: FieldList, i: nat, n: nat)
    requires ZeroRun(f, i, n)
    ensures n <= ZeroCount(f, i)
    decreases n
  {
    if n > 0 {
      assert f[i] == 0;
      RunWithinCount(f, i + 1, n - 1);
    }
  }

  /** Section 4.2.3 of RFC 5952: no zero run is longer, and none as long starts further left. */
  lemma {:induction false} LongestRunIsBest(f: FieldList, i: nat)
    requires i <= |f|
    ensures var (pos, len) := LongestRun(f, i);
      ZeroRun(f, pos, len)
      && forall j, n {:trigger ZeroRun(f, j, n)} ::
           i <= j && 0 < n && ZeroRun(f, j, n) ==> n < len || (n == len && pos <= j)
    decreases |f| - i
  {
    if i < |f| {
      LongestRunIsBest(f, i + 1);
      ZeroCountIsMax(f, i);
      forall j, n | i <= j && 0 < n && ZeroRun(f, j, n)
        ensures j == i ==> n <= ZeroCount(f, i)
      {
        RunWithinCount(f, j, n);
      }
    }
  }

  /** The canonical text of section 4 of RFC 5952. */
  function Canonical(f: FieldList): bytes {
    var (pos, len) := LongestRun(f, 0);
    Around(f, pos, len)
  }

  /** The text of f with the zero run (pos, len) written "::", unless it is a single field. */
  function Around(f: FieldList, pos: nat, len: nat): bytes
    requires pos + len <= |f|
  {
    if len < 2 then Join(HexTexts(f), COLON)
    else Join(HexTexts(f[..pos]), COLON) + DOUBLE_COLON + Join(HexTexts(f[pos + len..]), COLON)
  }

  lemma GroupTextsHaveNoPeriod(f: FieldList)
    ensures PERIOD !in Join(HexTexts(f), COLON) && IsLower(Join(HexTexts(f), COLON))
  {
    forall i | 0 <= i < |f| ensures PERIOD !in HexTexts(f)[i] && IsLower(HexTexts(f)[i]) {
      HexTextShape(f[i]);
    }
    JoinKeeps(HexTexts(f));
  }

  lemma {:induction false} JoinKeeps(es: Elements)
    requires forall i :: 0 <= i < |es| ==> PERIOD !in es[i] && IsLower(es[i])
    ensures PERIOD !in Join(es, COLON) && IsLower(Join(es, COLON))
  {
    if |es| > 1 {
      JoinKeeps(es[1..]);
    }
  }

  lemma ElidedTextDenotes(l: FieldList, r: FieldList)
    requires |l| + |r| <= 7
    ensures var s := Join(HexTexts(l), COLON) + DOUBLE_COLON + Join(HexTexts(r), COLON);
      Rfc4291(s) && Denote(s) == l + Zeros(8 - |l| - |r|) + r
  {
    HexTextsAreGroups(l);
    HexTextsAreGroups(r);
    ElidedTextSpreads(Join(HexTexts(l), COLON), Join(HexTexts(r), COLON));
  }

  lemma ElidedTextSpreads(a: bytes, b: bytes)
    requires GroupText(a) && GroupText(b) && |Pieces(a)| + |Pieces(b)| <= 7
    ensures Rfc4291(a + DOUBLE_COLON + b) && Denote(a + DOUBLE_COLON + b) == Spread(Pieces(a), Pieces(b))
  {
    var s := a + DOUBLE_COLON + b;
    assert s[..|a|] == a && s[|a| + 2..] == b;
    assert ElidedAt(s, |a|);
    ElidedUnique(s, |a|);
  }

  /** The canonical text is a valid lower-case text and denotes the address it was made from. */
  lemma CanonicalDenotes(f: FieldList)
    requires |f| == 8
    ensures Rfc4291(Canonical(f)) && Denote(Canonical(f)) == f
  {
    var (pos, len) := LongestRun(f, 0);
    if len < 2 {
      HexTextsAreGroups(f);
    } else {
      LongestRunIsBest(f, 0);
      ElidedTextDenotes(f[..pos], f[pos + len..]);
      assert f == f[..pos] + Zeros(len) + f[pos + len..];
    }
  }

  lemma CanonicalChars(f: FieldList)
    ensures PERIOD !in Canonical(f) && IsLower(Canonical(f))
  {
    var (pos, len) := LongestRun(f, 0);
    GroupTextsHaveNoPeriod(f);
    GroupTextsHaveNoPeriod(f[..pos]);
    GroupTextsHaveNoPeriod(f[pos + len..]);
  }
}
