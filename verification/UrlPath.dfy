/** Path normalisation: dot-segment removal over an element stack. */
module UrlPath {
  import opened Bytes
  import opened Segments

  const DOT: bytes := [0x2E]
  const DOTDOT: bytes := [0x2E, 0x2E]

  // ----- the element stack -----

  /** An element followed by a '/'. */
  function Push(stack: Elements, e: bytes): Elements {
    if e == [] || e == DOT then stack
    else if e == DOTDOT then (if stack == [] then stack else stack[..|stack| - 1])
    else stack + [e]
  }

  /** The element after the last '/': a trailing "." leaves an empty element behind. */
  function PushLast(stack: Elements, e: bytes): Elements {
    if e == DOT then stack + [[]]
    else if e == DOTDOT then (if stack == [] then stack else stack[..|stack| - 1])
    else stack + [e]
  }

  function Run(stack: Elements, segments: Elements): Elements
    requires |segments| >= 1
    decreases |segments|
  {
    if |segments| == 1 then PushLast(stack, segments[0])
    else Run(Push(stack, segments[0]), segments[1..])
  }

  function Render(absolute: bool, es: Elements): bytes {
    (if absolute then [SLASH] else []) + Join(es, SLASH)
  }

  predicate Absolute(s: bytes) {
    s != [] && s[0] == SLASH
  }

  function Normalize(s: bytes): bytes {
    if s == [] then s else Render(Absolute(s), Run([], Split(s, SLASH)))
  }

  /** getline: the bytes from i up to the next '/', and whether the stream hit its end instead of a '/'. */
  method GetLine(s: bytes, i: nat) returns (elem: bytes, next: nat, eof: bool)
    requires i <= |s|
    ensures eof ==> next == |s| && Split(s[i..], SLASH) == [elem]
    ensures !eof ==> i < next <= |s| && Split(s[i..], SLASH) == [elem] + Split(s[next..], SLASH)
  {
    next := i;
    while next != |s| && s[next] != SLASH
      invariant i <= next <= |s|
      invariant Free(s[i..next], [SLASH])
    {
      assert s[i..next + 1] == s[i..next] + [s[next]];
      next := next + 1;
    }
    elem := s[i..next];
    eof := next == |s|;
    SplitFirst(s, i, next, SLASH);
    next := if eof then next else next + 1;
  }

  /** The getline loop of normalize_path: the element stack of s. */
  method ReadElements(s: bytes) returns (elems: Elements)
    ensures elems == Run([], Split(s, SLASH))
  {
    elems := [];
    assert s[0..] == s;
    var elem, i, eof := GetLine(s, 0);
    while !eof
      invariant i <= |s|
      invariant Run([], Split(s, SLASH)) == Run(elems, [elem] + if eof then [] else Split(s[i..], SLASH))
      decreases !eof, |s| - i
    {
      assert ([elem] + Split(s[i..], SLASH))[1..] == Split(s[i..], SLASH);
      if elem == [] || elem == DOT {
      } else if elem == DOTDOT {
        if elems != [] {
          elems := elems[..|elems| - 1];
        }
      } else {
        elems := elems + [elem];
      }
      elem, i, eof := GetLine(s, i);
    }
    if elem == DOT {
      elems := elems + [[]];
    } else if elem == DOTDOT {
      if elems != [] {
        elems := elems[..|elems| - 1];
      }
    } else {
      elems := elems + [elem];
    }
  }

  /** The output loop of normalize_path. */
  method WriteElements(elems: Elements) returns (r: bytes)
    ensures r == Join(elems, SLASH)
  {
    if elems == [] {
      return [];
    }
    JoinIsHeadThenTail(elems, SLASH);
    r := elems[0];
    var k := 1;
    while k != |elems|
      invariant 1 <= k <= |elems|
      invariant Join(elems, SLASH) == r + JoinTail(elems[k..], SLASH)
    {
      assert elems[k..][1..] == elems[k + 1..];
      r := r + [SLASH] + elems[k];
      k := k + 1;
    }
  }

  /** normalize_path. */
  method NormalizePath(s: bytes) returns (r: bytes)
    ensures r == Normalize(s)
  {
    if s == [] {
      return s;
    }
    var elems := ReadElements(s);
    var body := WriteElements(elems);
    r := (if s[0] == SLASH then [SLASH] else []) + body;
  }

  // ----- what normalisation guarantees -----

  predicate Ordinary(e: bytes) {
    Free(e, [SLASH]) && e != [] && e != DOT && e != DOTDOT
  }

  /** Ordinary segments, the last of which may be empty. */
  predicate CleanElements(es: Elements) {
    (forall i :: 0 <= i < |es| - 1 ==> Ordinary(es[i]))
    && (es != [] ==> es[|es| - 1] == [] || Ordinary(es[|es| - 1]))
  }

  /** No ".", no ".." and no empty segment, but for the one before a leading '/' and the one after a trailing '/'. */
  predicate Clean(s: bytes) {
    s != [] ==> CleanElements(if Absolute(s) then Split(s, SLASH)[1..] else Split(s, SLASH))
  }

  lemma {:induction false} RunIsClean(stack: Elements, segments: Elements)
    requires |segments| >= 1 && SepFree(segments, SLASH) && forall e :: e in stack ==> Ordinary(e)
    ensures CleanElements(Run(stack, segments))
    decreases |segments|
  {
    if |segments| > 1 {
      RunIsClean(Push(stack, segments[0]), segments[1..]);
    }
  }

  lemma {:induction false} RunKeepsClean(stack: Elements, es: Elements)
    requires es != [] && CleanElements(es)
    ensures Run(stack, es) == stack + es
    decreases |es|
  {
    if |es| > 1 {
      RunKeepsClean(stack + [es[0]], es[1..]);
      assert (stack + [es[0]]) + es[1..] == stack + es;
    }
  }

  lemma SplitAbsolute(s: bytes)
    requires Absolute(s)
    ensures Split(s, SLASH) == [[]] + Split(s[1..], SLASH)
  {
    assert s == [] + [SLASH] + s[1..];
    SplitAt([], s[1..], SLASH);
  }

  lemma RunSplitFixed(t: bytes)
    requires CleanElements(Split(t, SLASH))
    ensures Join(Run([], Split(t, SLASH)), SLASH) == t
  {
    RunKeepsClean([], Split(t, SLASH));
    JoinSplit(t, SLASH);
    assert [] + Split(t, SLASH) == Split(t, SLASH);
  }

  lemma RunAbsolute(s: bytes)
    requires Absolute(s)
    ensures Split(s, SLASH)[1..] == Split(s[1..], SLASH) && Run([], Split(s, SLASH)) == Run([], Split(s[1..], SLASH))
  {
    SplitAbsolute(s);
    assert ([[]] + Split(s[1..], SLASH))[1..] == Split(s[1..], SLASH);
  }

  lemma CleanIsFixed(s: bytes)
    requires Clean(s)
    ensures Normalize(s) == s
  {
    if Absolute(s) {
      CleanAbsoluteIsFixed(s);
    } else if s != [] {
      RunSplitFixed(s);
      assert [] + s == s;
    }
  }

  lemma CleanAbsoluteIsFixed(s: bytes)
    requires Clean(s) && Absolute(s)
    ensures Normalize(s) == s
  {
    RunAbsolute(s);
    RunSplitFixed(s[1..]);
    assert s == [SLASH] + s[1..];
  }

  lemma RenderIsClean(absolute: bool, es: Elements)
    requires CleanElements(es) && SepFree(es, SLASH)
    ensures Clean(Render(absolute, es))
    ensures Absolute(Render(absolute, es)) <==> absolute
  {
    var r := Render(absolute, es);
    if absolute {
      SplitAbsolute(r);
      assert r[1..] == Join(es, SLASH);
      assert Split(r, SLASH)[1..] == Split(Join(es, SLASH), SLASH);
      if es != [] {
        SplitJoin(es, SLASH);
      } else {
        SplitWhole([], SLASH);
      }
    } else {
      assert r == Join(es, SLASH);
      if es != [] {
        SplitJoin(es, SLASH);
        assert |es| > 1 || es[0] != [] ==> es[0] != [] && r[0] == es[0][0] && es[0][0] in es[0];
      }
    }
  }

  /** Normalisation yields a clean path of the same kind, and changes nothing exactly when the path is clean. */
  lemma NormalizeIsClean(s: bytes)
    ensures Clean(Normalize(s))
    ensures Absolute(Normalize(s)) <==> Absolute(s)
    ensures Normalize(s) == s <==> Clean(s)
  {
    if s != [] {
      SplitSepFree(s, SLASH);
      RunIsClean([], Split(s, SLASH));
      var es := Run([], Split(s, SLASH));
      assert SepFree(es, SLASH) by {
        forall e | e in es ensures Free(e, [SLASH]) {
          var i :| 0 <= i < |es| && es[i] == e;
        }
      }
      RenderIsClean(Absolute(s), es);
    }
    if Clean(s) {
      CleanIsFixed(s);
    }
  }

  lemma NormalizeIdempotent(s: bytes)
    ensures Normalize(Normalize(s)) == Normalize(s)
  {
    NormalizeIsClean(s);
    NormalizeIsClean(Normalize(s));
  }

  lemma SplitHead(t: bytes)
    requires t != []
    ensures t[0] == SLASH <==> Split(t, SLASH)[0] == []
    ensures t[0] == SLASH ==> |Split(t, SLASH)| >= 2
  {
    if t[0] == SLASH {
      SplitAbsolute(t);
    }
  }

  /** A clean path never starts with "//". */
  lemma CleanStart(s: bytes)
    requires Clean(s) && |s| >= 2 && s[0] == SLASH
    ensures s[1] != SLASH
  {
    SplitAbsolute(s);
    assert Split(s, SLASH)[1..] == Split(s[1..], SLASH);
    SplitHead(s[1..]);
  }

  lemma RunSkipsGap(stack: Elements, gap: Elements, after: Elements)
    requires after != []
    requires gap == [DOT] || (|gap| == 2 && Ordinary(gap[0]) && gap[1] == DOTDOT)
    ensures Run(stack, gap + after) == Run(stack, after)
  {
    assert (gap + after)[1..] == gap[1..] + after;
    if |gap| == 2 {
      assert gap[1..] == [DOTDOT];
      assert ([DOTDOT] + after)[1..] == after;
      assert (stack + [gap[0]])[..|stack|] == stack;
    }
  }

  lemma {:induction false} RunSkips(stack: Elements, before: Elements, gap: Elements, after: Elements)
    requires after != []
    requires gap == [DOT] || (|gap| == 2 && Ordinary(gap[0]) && gap[1] == DOTDOT)
    ensures Run(stack, before + gap + after) == Run(stack, before + after)
    decreases |before|
  {
    if before == [] {
      assert before + gap + after == gap + after && before + after == after;
      RunSkipsGap(stack, gap, after);
    } else {
      RunSkips(Push(stack, before[0]), before[1..], gap, after);
      assert (before + gap + after)[1..] == before[1..] + gap + after;
      assert (before + after)[1..] == before[1..] + after;
    }
  }

  lemma NormalizeDepends(s: bytes, t: bytes)
    requires s != [] && t != [] && s[0] == t[0]
    requires Run([], Split(s, SLASH)) == Run([], Split(t, SLASH))
    ensures Normalize(s) == Normalize(t)
  {
  }

  lemma NormalizeInsert(p: bytes, r: bytes, q: bytes, gap: Elements)
    requires gap == [DOT] || (|gap| == 2 && Ordinary(gap[0]) && gap[1] == DOTDOT)
    requires Split(r, SLASH) == gap + Split(q, SLASH)
    ensures Normalize(p + [SLASH] + r) == Normalize(p + [SLASH] + q)
  {
    var s, t := p + [SLASH] + r, p + [SLASH] + q;
    assert Run([], Split(s, SLASH)) == Run([], Split(t, SLASH)) by {
      SplitConcat(p, q, SLASH);
      SplitConcat(p, r, SLASH);
      assert Split(p, SLASH) + (gap + Split(q, SLASH)) == Split(p, SLASH) + gap + Split(q, SLASH);
      RunSkips([], Split(p, SLASH), gap, Split(q, SLASH));
    }
    NormalizeDepends(s, t);
  }

  /** Inserting "./" behind any '/' changes nothing. */
  lemma NormalizeSkipsDot(p: bytes, q: bytes)
    ensures Normalize(p + [SLASH] + (DOT + [SLASH] + q)) == Normalize(p + [SLASH] + q)
  {
    SplitAt(DOT, q, SLASH);
    NormalizeInsert(p, DOT + [SLASH] + q, q, [DOT]);
  }

  /** Inserting "x/../", x an ordinary segment, behind any '/' changes nothing. */
  lemma NormalizeSkipsUp(p: bytes, x: bytes, q: bytes)
    requires Ordinary(x)
    ensures Normalize(p + [SLASH] + (x + [SLASH] + (DOTDOT + [SLASH] + q))) == Normalize(p + [SLASH] + q)
  {
    var y := DOTDOT + [SLASH] + q;
    SplitAt(x, y, SLASH);
    SplitAt(DOTDOT, q, SLASH);
    assert [x] + ([DOTDOT] + Split(q, SLASH)) == [x, DOTDOT] + Split(q, SLASH);
    NormalizeInsert(p, x + [SLASH] + y, q, [x, DOTDOT]);
  }
}
