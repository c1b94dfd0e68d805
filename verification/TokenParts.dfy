/** What a token with two dots looks like when it is a substring of another token. */
module TokenParts {
  import opened Base64
  import opened Base64Laws
  import opened Bytes
  import opened Jwt
  import opened Wrappers

  /** in.find(token) != npos. */
  predicate Finds(s: bytes, t: bytes) {
    (|t| <= |s| && s[..|t|] == t) || (s != [] && Finds(s[1..], t))
  }

  lemma {:induction false} FindsIsContains(s: bytes, t: bytes)
    ensures Finds(s, t) <==> Contains(s, t)
  {
    if s == [] {
      assert OccursAt(s, t, 0) <==> t == [];
    } else {
      FindsIsContains(s[1..], t);
      ContainsStep(s, t);
    }
  }

  lemma ContainsStep(s: bytes, t: bytes)
    requires s != []
    ensures Contains(s, t) <==> OccursAt(s, t, 0) || Contains(s[1..], t)
  {
    forall i: nat | i > 0 && OccursAt(s, t, i) ensures OccursAt(s[1..], t, i - 1) {
      assert s[1..][i - 1..i - 1 + |t|] == s[i..i + |t|];
    }
    forall i: nat | OccursAt(s[1..], t, i) ensures OccursAt(s, t, i + 1) {
      assert s[1..][i..i + |t|] == s[i + 1..i + 1 + |t|];
    }
  }

  function Joined(h: bytes, p: bytes, s: bytes): bytes {
    h + [PERIOD] + p + [PERIOD] + s
  }

  /** Where the dots of a token are. */
  lemma DotPositions(h: bytes, p: bytes, s: bytes, k: nat)
    requires Free(h, [PERIOD]) && Free(p, [PERIOD]) && Free(s, [PERIOD])
    requires k < |Joined(h, p, s)| && Joined(h, p, s)[k] == PERIOD
    ensures k == |h| || k == |h| + 1 + |p|
  {
    NoDotAt(h);
    NoDotAt(p);
    NoDotAt(s);
  }

  lemma NoDotAt(x: bytes)
    requires Free(x, [PERIOD])
    ensures forall i :: 0 <= i < |x| ==> x[i] != PERIOD
  {
    assert forall i :: 0 <= i < |x| ==> x[i] in x;
  }

  lemma CutOnce(t: bytes, a: nat)
    requires a < |t|
    ensures t == t[..a] + [t[a]] + t[a + 1..]
  {
  }

  lemma JoinTwice(h: bytes, p: bytes, s: bytes)
    ensures h + [PERIOD] + (p + [PERIOD] + s) == Joined(h, p, s)
  {
  }

  /** Cutting finds the parts, and they make up the text. */
  lemma CutParts(t: bytes)
    requires Cut(t).Some?
    ensures var c := Cut(t).value; t == Joined(c.header, c.payload, c.signature)
    ensures Free(Cut(t).value.header, [PERIOD]) && Free(Cut(t).value.payload, [PERIOD])
  {
    var a := Span(t, [PERIOD]);
    var rest := t[a + 1..];
    var b := Span(rest, [PERIOD]);
    SpanStops(t, [PERIOD]);
    SpanStops(rest, [PERIOD]);
    CutOnce(t, a);
    CutOnce(rest, b);
    JoinTwice(t[..a], rest[..b], rest[b + 1..]);
  }

  /** The dots of a text inside a token are the token's own. */
  lemma SubstringDots(h: bytes, p: bytes, s: bytes, t: bytes, i: nat, c: Parts)
    requires Free(h, [PERIOD]) && Free(p, [PERIOD]) && Free(s, [PERIOD])
    requires OccursAt(Joined(h, p, s), t, i) && t == Joined(c.header, c.payload, c.signature)
    ensures i + |c.header| == |h| && |c.payload| == |p|
  {
    var a := |c.header|;
    var b := a + 1 + |c.payload|;
    Positions(c.header, c.payload, c.signature);
    assert Joined(h, p, s)[i + a] == t[a] && Joined(h, p, s)[i + b] == t[b];
    DotPositions(h, p, s, i + a);
    DotPositions(h, p, s, i + b);
  }

  /** A text with two dots inside a token has its payload, the end of its header and the start of its signature. */
  lemma SubstringParts(h: bytes, p: bytes, s: bytes, t: bytes, i: nat)
    requires Free(h, [PERIOD]) && Free(p, [PERIOD]) && Free(s, [PERIOD])
    requires OccursAt(Joined(h, p, s), t, i) && Cut(t).Some?
    ensures var c := Cut(t).value; i <= |h| && c.header == h[i..] && c.payload == p && c.signature <= s
  {
    var c := Cut(t).value;
    CutParts(t);
    SubstringDots(h, p, s, t, i, c);
    Slices(Joined(h, p, s), t, i, |h|, |h| + 1 + |p|);
    Positions(h, p, s);
    Positions(c.header, c.payload, c.signature);
    assert s[..|c.signature|] == c.signature;
  }

  /** The slices of a substring around two positions. */
  lemma Slices(full: bytes, t: bytes, i: nat, a: nat, b: nat)
    requires OccursAt(full, t, i) && i <= a < b < i + |t|
    ensures t[..a - i] == full[..a][i..]
    ensures t[a - i + 1..b - i] == full[a + 1..b]
    ensures t[b - i + 1..] == full[b + 1..][..|t| - (b - i + 1)]
  {
    var u := full[i..i + |t|];
    assert u[..a - i] == full[..a][i..];
    var x, y := u[a - i + 1..b - i], full[a + 1..b];
    assert forall j :: 0 <= j < |x| ==> x[j] == u[a - i + 1 + j] == full[a + 1 + j] == y[j];
    assert x == y;
    assert u[b - i + 1..] == full[b + 1..][..|t| - (b - i + 1)];
  }

  lemma Positions(h: bytes, p: bytes, s: bytes)
    ensures var t := Joined(h, p, s);
      && t[|h|] == PERIOD && t[|h| + 1 + |p|] == PERIOD
      && t[..|h|] == h && t[|h| + 1..|h| + 1 + |p|] == p && t[|h| + |p| + 2..] == s
  {
  }

  // ----- decoding part of an armoured text -----

  /** The fill for k digits: three are needed only where no text has this length. */
  predicate FillFits(k: nat, n: nat) {
    if n == 3 then k > 0 else n <= 2 && (k + n) % 4 == 0
  }

  lemma MissingIsFit(k: nat)
    ensures FillFits(k, Missing(k)) && (Missing(k) == 3 <==> k % 4 == 1)
  {
  }

  lemma FilledDecode(t: bytes, n: nat)
    requires AllDigits(t, UrlSafe) && FillFits(|t|, n)
    ensures Decode(t + Repeat(Fill(UrlSafe), n), UrlSafe) == if n == 3 then None else Some(Undigits(t, UrlSafe))
  {
    if n == 3 {
      FillsOfText(t, n, UrlSafe);
      TooManyFills(t + Repeat(Fill(UrlSafe), n), UrlSafe);
    } else {
      DecodeOfDigits(t, n, UrlSafe);
    }
  }

  lemma UnarmorFilled(t: bytes, n: nat)
    requires AllDigits(t, UrlSafe) && n == Missing(|t|) && FillFits(|t|, n)
    ensures Unarmor(t) == if n == 3 then None else Some(Undigits(t, UrlSafe))
  {
    FilledDecode(t, n);
  }

  lemma TooManyFills(s: bytes, a: Alphabet)
    requires Fills(s, a) > 2
    ensures Decode(s, a) == None
  {
  }

  /** What base64url digits decode to, when they do. */
  lemma DecodedDigits(t: bytes)
    requires AllDigits(t, UrlSafe) && Unarmor(t).Some?
    ensures Missing(|t|) != 3 && Unarmor(t).value == Undigits(t, UrlSafe)
  {
    MissingIsFit(|t|);
    UnarmorFilled(t, Missing(|t|));
  }

  /** The number of bytes that base64url digits decode to, when they do. */
  lemma DecodedLength(t: bytes)
    requires AllDigits(t, UrlSafe) && Unarmor(t).Some?
    ensures |t| % 4 != 1 && |Unarmor(t).value| == |t| / 4 * 3 + (if |t| % 4 < 2 then 0 else |t| % 4 - 1)
  {
    DecodedDigits(t);
    MissingIsFit(|t|);
    UndigitsLength(t, UrlSafe);
  }

  lemma SameCount(a: nat, b: nat)
    requires a % 4 != 1 && b % 4 != 1
    requires a / 4 * 3 + (if a % 4 < 2 then 0 else a % 4 - 1) == b / 4 * 3 + (if b % 4 < 2 then 0 else b % 4 - 1)
    ensures a == b
  {
  }

  /** A prefix of base64url digits that decodes to as many bytes as the whole is the whole. */
  lemma PrefixDecodesShorter(t: bytes, whole: bytes)
    requires AllDigits(whole, UrlSafe) && t <= whole
    requires Unarmor(t).Some? && Unarmor(whole).Some? && |Unarmor(t).value| == |Unarmor(whole).value|
    ensures t == whole
  {
    assert whole == t + whole[|t|..];
    DigitsConcat(t, whole[|t|..], UrlSafe);
    DecodedLength(t);
    DecodedLength(whole);
    SameCount(|t|, |whole|);
  }
}
