/** Path normalisation against a definition that reads the segments from the right and knows no stack. */
module UrlPathLaws {
  import opened Bytes
  import opened Segments
  import opened UrlPath

  // ----- the definition from the right -----

  /**
   * The segments that remain of those followed by a '/', read from the right: empty ones and "." count for nothing,
   * each ".." cancels the nearest segment before it that is still there, and finds none at the front.
   */
  function Kept(segments: Elements, cancelled: nat): Elements {
    if segments == [] then []
    else
      var rest, e := segments[..|segments| - 1], segments[|segments| - 1];
      if e == [] || e == ['.' as int] then Kept(rest, cancelled)
      else if e == ['.' as int, '.' as int] then Kept(rest, cancelled + 1)
      else if cancelled > 0 then Kept(rest, cancelled - 1)
      else Kept(rest, 0) + [e]
  }

  /** All segments: a last ".." cancels one more, a last "." leaves a slash at the end, any other stays. */
  function KeptOf(segments: Elements): Elements
    requires segments != []
  {
    var rest, e := segments[..|segments| - 1], segments[|segments| - 1];
    if e == ['.' as int, '.' as int] then Kept(rest, 1)
    else if e == ['.' as int] then Kept(rest, 0) + [[]]
    else Kept(rest, 0) + [e]
  }

  function PushAll(stack: Elements, segments: Elements): Elements
    decreases |segments|
  {
    if segments == [] then stack else PushAll(Push(stack, segments[0]), segments[1..])
  }

  lemma {:induction false} PushAllSnoc(stack: Elements, segments: Elements, e: bytes)
    ensures PushAll(stack, segments + [e]) == Push(PushAll(stack, segments), e)
    decreases |segments|
  {
    if segments == [] {
      assert [] + [e] == [e] && [e][1..] == [];
    } else {
      PushAllSnoc(Push(stack, segments[0]), segments[1..], e);
      assert (segments + [e])[1..] == segments[1..] + [e];
    }
  }

  lemma {:induction false} RunIsPushAll(stack: Elements, segments: Elements)
    requires segments != []
    ensures Run(stack, segments) == PushLast(PushAll(stack, segments[..|segments| - 1]), segments[|segments| - 1])
    decreases |segments|
  {
    if |segments| > 1 {
      RunIsPushAll(Push(stack, segments[0]), segments[1..]);
      assert segments[..|segments| - 1][1..] == segments[1..][..|segments| - 2];
    }
  }

  function Dropped(stack: Elements, n: nat): Elements {
    if n >= |stack| then [] else stack[..|stack| - n]
  }

  lemma {:induction false} KeptIsDropped(segments: Elements, n: nat)
    ensures Kept(segments, n) == Dropped(PushAll([], segments), n)
  {
    if segments != [] {
      var rest, e := segments[..|segments| - 1], segments[|segments| - 1];
      assert segments == rest + [e];
      PushAllSnoc([], rest, e);
      KeptIsDropped(rest, n);
      KeptIsDropped(rest, n + 1);
      KeptIsDropped(rest, 0);
      if n > 0 {
        KeptIsDropped(rest, n - 1);
      }
    }
  }

  lemma RunIsKept(segments: Elements)
    requires segments != []
    ensures Run([], segments) == KeptOf(segments)
  {
    var rest := segments[..|segments| - 1];
    RunIsPushAll([], segments);
    KeptIsDropped(rest, 0);
    KeptIsDropped(rest, 1);
  }

  /** normalize_path keeps the leading '/' and joins the segments that remain. */
  lemma NormalizeIsKept(s: bytes)
    ensures Normalize(s)
         == if s == [] then []
            else (if s[0] == '/' as int then ['/' as int] else []) + Join(KeptOf(Split(s, '/' as int)), '/' as int)
  {
    if s != [] {
      RunIsKept(Split(s, SLASH));
    }
  }

  // ----- laws of whole paths -----

  /** Whole paths are alike when they begin alike and the same segments remain of them. */
  lemma SameKept(s: bytes, t: bytes)
    requires s != [] && t != [] && (s[0] == SLASH <==> t[0] == SLASH)
    requires KeptOf(Split(s, SLASH)) == KeptOf(Split(t, SLASH))
    ensures Normalize(s) == Normalize(t)
  {
    NormalizeIsKept(s);
    NormalizeIsKept(t);
  }

  lemma KeptOfSnoc(segments: Elements, e: bytes)
    ensures KeptOf(segments + [e])
         == if e == DOTDOT then Kept(segments, 1) else if e == DOT then Kept(segments, 0) + [[]]
            else Kept(segments, 0) + [e]
  {
    assert (segments + [e])[..|segments|] == segments;
  }

  lemma KeptSnoc(segments: Elements, e: bytes, n: nat)
    ensures Kept(segments + [e], n)
         == if e == [] || e == DOT then Kept(segments, n)
            else if e == DOTDOT then Kept(segments, n + 1)
            else if n > 0 then Kept(segments, n - 1)
            else Kept(segments, 0) + [e]
  {
    assert (segments + [e])[..|segments|] == segments;
  }

  /** The last segment of a path, and those before it. */
  function LastSegment(p: bytes): bytes {
    var es := Split(p, SLASH); es[|es| - 1]
  }

  lemma SplitLast(p: bytes, x: bytes)
    requires Free(x, [SLASH])
    ensures Split(p + [SLASH] + x, SLASH) == Split(p, SLASH) + [x]
  {
    SplitConcat(p, x, SLASH);
    SplitWhole(x, SLASH);
  }

  lemma DotsAreFree()
    ensures Free(DOT, [SLASH]) && Free(DOTDOT, [SLASH]) && Free([], [SLASH])
  {
  }

  lemma KeptOfUp(es: Elements, x: bytes)
    requires es != [] && Ordinary(x) && Ordinary(es[|es| - 1])
    ensures KeptOf(es + [x] + [DOTDOT]) == KeptOf(es)
  {
    KeptOfSnoc(es + [x], DOTDOT);
    KeptSnoc(es, x, 1);
    var rest, e := es[..|es| - 1], es[|es| - 1];
    assert es == rest + [e];
    KeptOfSnoc(rest, e);
    KeptSnoc(rest, e, 0);
  }

  /** "p/x/.." is p, for ordinary x and the last segment of p ordinary too. */
  lemma TrailingUpCancels(p: bytes, x: bytes)
    requires Ordinary(x) && Ordinary(LastSegment(p))
    ensures Normalize(p + [SLASH] + x + [SLASH] + DOTDOT) == Normalize(p)
  {
    var q := p + [SLASH] + x;
    DotsAreFree();
    SplitLast(p, x);
    SplitLast(q, DOTDOT);
    KeptOfUp(Split(p, SLASH), x);
    NotEmpty(p);
    SameKept(q + [SLASH] + DOTDOT, p);
  }

  lemma NotEmpty(p: bytes)
    requires Ordinary(LastSegment(p))
    ensures p != []
  {
    if p == [] {
      SplitWhole([], SLASH);
    }
  }

  /** "p/.", "p/./" and "p/" are the same path. */
  lemma TrailingDot(p: bytes)
    ensures Normalize(p + [SLASH] + DOT) == Normalize(p + [SLASH])
  {
    var es := Split(p, SLASH);
    DotsAreFree();
    SplitLast(p, DOT);
    SplitLast(p, []);
    assert p + [SLASH] + [] == p + [SLASH];
    KeptOfSnoc(es, DOT);
    KeptOfSnoc(es, []);
    SameKept(p + [SLASH] + DOT, p + [SLASH]);
  }

  /** With no segment left before it, a trailing ".." leaves the root, or nothing of a relative path. */
  lemma TrailingUpAtFront(p: bytes)
    requires Kept(Split(p, SLASH), 1) == []
    ensures Normalize(p + [SLASH] + DOTDOT) == if p == [] || p[0] == SLASH then [SLASH] else []
  {
    DotsAreFree();
    SplitLast(p, DOTDOT);
    KeptOfSnoc(Split(p, SLASH), DOTDOT);
    NormalizeIsKept(p + [SLASH] + DOTDOT);
  }

  lemma NothingAtRoot()
    ensures Normalize([SLASH] + DOTDOT) == [SLASH] && Normalize([SLASH] + DOT) == [SLASH]
  {
    SplitWhole([], SLASH);
    TrailingUpAtFront([]);
    TrailingDot([]);
    assert [] + [SLASH] + DOTDOT == [SLASH] + DOTDOT && [] + [SLASH] + DOT == [SLASH] + DOT && [] + [SLASH] == [SLASH];
    SplitAbsolute([SLASH]);
    assert [SLASH][1..] == [];
    CleanIsFixed([SLASH]);
  }

  lemma NothingRelative()
    ensures Normalize(DOTDOT) == [] && Normalize(DOT) == []
  {
    DotsAreFree();
    SplitWhole(DOTDOT, SLASH);
    SplitWhole(DOT, SLASH);
    NormalizeIsKept(DOTDOT);
    NormalizeIsKept(DOT);
  }

  /** "/..", "/.", "..", "." and "x/..". */
  lemma NothingLeft(x: bytes)
    requires Ordinary(x)
    ensures Normalize([SLASH] + DOTDOT) == [SLASH] && Normalize([SLASH] + DOT) == [SLASH]
    ensures Normalize(DOTDOT) == [] && Normalize(DOT) == []
    ensures Normalize(x + [SLASH] + DOTDOT) == []
  {
    NothingAtRoot();
    NothingRelative();
    SplitWhole(x, SLASH);
    KeptSnoc([], x, 1);
    assert [] + [x] == [x] && x[0] in x;
    TrailingUpAtFront(x);
  }

  lemma SplitGap(p: bytes, q: bytes)
    ensures Split(p + [SLASH] + ([SLASH] + q), SLASH) == Split(p, SLASH) + [[]] + Split(q, SLASH)
    ensures Split(p + [SLASH] + q, SLASH) == Split(p, SLASH) + Split(q, SLASH)
  {
    SplitConcat(p, [SLASH] + q, SLASH);
    SplitConcat(p, q, SLASH);
    SplitAt([], q, SLASH);
    assert [] + [SLASH] + q == [SLASH] + q;
    assert Split(p, SLASH) + ([[]] + Split(q, SLASH)) == Split(p, SLASH) + [[]] + Split(q, SLASH);
  }

  /** Two slashes are one. */
  lemma EmptySegment(p: bytes, q: bytes)
    ensures Normalize(p + [SLASH] + ([SLASH] + q)) == Normalize(p + [SLASH] + q)
  {
    SplitGap(p, q);
    KeptInside(Split(p, SLASH), [], Split(q, SLASH));
    SameKept(p + [SLASH] + ([SLASH] + q), p + [SLASH] + q);
  }

  /** An empty segment or a "." counts for nothing wherever a slash follows it. */
  lemma {:induction false} KeptSkips(before: Elements, e: bytes, after: Elements, n: nat)
    requires e == [] || e == DOT
    ensures Kept(before + [e] + after, n) == Kept(before + after, n)
    decreases |after|
  {
    if after == [] {
      assert before + [e] + [] == before + [e] && before + [] == before;
      KeptSnoc(before, e, n);
    } else {
      var rest, x := after[..|after| - 1], after[|after| - 1];
      assert before + [e] + after == (before + [e] + rest) + [x] && before + after == (before + rest) + [x];
      KeptSnoc(before + [e] + rest, x, n);
      KeptSnoc(before + rest, x, n);
      KeptSkips(before, e, rest, n);
      KeptSkips(before, e, rest, n + 1);
      KeptSkips(before, e, rest, 0);
      if n > 0 {
        KeptSkips(before, e, rest, n - 1);
      }
    }
  }

  lemma KeptInside(before: Elements, e: bytes, after: Elements)
    requires (e == [] || e == DOT) && after != []
    ensures KeptOf(before + [e] + after) == KeptOf(before + after)
  {
    var rest, x := after[..|after| - 1], after[|after| - 1];
    assert before + [e] + after == (before + [e] + rest) + [x] && before + after == (before + rest) + [x];
    KeptOfSnoc(before + [e] + rest, x);
    KeptOfSnoc(before + rest, x);
    KeptSkips(before, e, rest, 0);
    KeptSkips(before, e, rest, 1);
  }

  lemma {:induction false} KeptSkipsUp(after: Elements, n: nat)
    ensures Kept([DOTDOT] + after, n) == Kept(after, n)
    decreases |after|
  {
    if after == [] {
      assert [DOTDOT] + [] == [] + [DOTDOT];
      KeptSnoc([], DOTDOT, n);
    } else {
      var rest, x := after[..|after| - 1], after[|after| - 1];
      assert [DOTDOT] + after == ([DOTDOT] + rest) + [x] && after == rest + [x];
      KeptSnoc([DOTDOT] + rest, x, n);
      KeptSnoc(rest, x, n);
      KeptSkipsUp(rest, n);
      KeptSkipsUp(rest, n + 1);
      KeptSkipsUp(rest, 0);
      if n > 0 {
        KeptSkipsUp(rest, n - 1);
      }
    }
  }

  lemma KeptOfSkipsUp(after: Elements)
    requires after != []
    ensures KeptOf([DOTDOT] + after) == KeptOf(after)
  {
    var rest, x := after[..|after| - 1], after[|after| - 1];
    assert [DOTDOT] + after == ([DOTDOT] + rest) + [x] && after == rest + [x];
    KeptOfSnoc([DOTDOT] + rest, x);
    KeptOfSnoc(rest, x);
    KeptSkipsUp(rest, 0);
    KeptSkipsUp(rest, 1);
  }

  lemma LeadingDot(q: bytes)
    requires q == [] || q[0] != SLASH
    ensures Normalize(DOT + [SLASH] + q) == Normalize(q)
  {
    var es := Split(q, SLASH);
    DotsAreFree();
    SplitAt(DOT, q, SLASH);
    assert [] + [DOT] + es == [DOT] + es && [] + es == es;
    KeptInside([], DOT, es);
    SameRelative(DOT + [SLASH] + q, q);
  }

  lemma LeadingUp(q: bytes)
    requires q == [] || q[0] != SLASH
    ensures Normalize(DOTDOT + [SLASH] + q) == Normalize(q)
  {
    DotsAreFree();
    SplitAt(DOTDOT, q, SLASH);
    KeptOfSkipsUp(Split(q, SLASH));
    SameRelative(DOTDOT + [SLASH] + q, q);
  }

  lemma SameRelative(s: bytes, t: bytes)
    requires s != [] && s[0] != SLASH && (t == [] || t[0] != SLASH)
    requires KeptOf(Split(s, SLASH)) == KeptOf(Split(t, SLASH))
    ensures Normalize(s) == Normalize(t)
  {
    NormalizeIsKept(s);
    NormalizeIsKept(t);
    if t == [] {
      SplitWhole([], SLASH);
    }
  }

  /** A leading "./" or "../" of a relative path goes away; "/../" at the root is "/". */
  lemma LeadingDots(q: bytes)
    ensures q == [] || q[0] != SLASH ==> Normalize(DOT + [SLASH] + q) == Normalize(q)
    ensures q == [] || q[0] != SLASH ==> Normalize(DOTDOT + [SLASH] + q) == Normalize(q)
    ensures Normalize([SLASH] + (DOTDOT + [SLASH] + q)) == Normalize([SLASH] + q)
  {
    if q == [] || q[0] != SLASH {
      LeadingDot(q);
      LeadingUp(q);
    }
    RootUp(q);
  }

  lemma RootUp(q: bytes)
    ensures Normalize([SLASH] + (DOTDOT + [SLASH] + q)) == Normalize([SLASH] + q)
  {
    var es := Split(q, SLASH);
    var y := DOTDOT + [SLASH] + q;
    DotsAreFree();
    SplitAt([], q, SLASH);
    SplitAt([], y, SLASH);
    SplitAt(DOTDOT, q, SLASH);
    assert [] + [SLASH] + q == [SLASH] + q && [] + [SLASH] + y == [SLASH] + y;
    assert [] + [[]] + es == [[]] + es && [] + es == es;
    KeptInside([], [], es);
    assert [] + [[]] + ([DOTDOT] + es) == [[]] + ([DOTDOT] + es) && [] + ([DOTDOT] + es) == [DOTDOT] + es;
    KeptInside([], [], [DOTDOT] + es);
    KeptOfSkipsUp(es);
    SameKept([SLASH] + y, [SLASH] + q);
  }
}
