/** Texts cut at a separator byte, and the pieces joined again. */
module Segments {
  import opened Bytes

  type Elements = seq<bytes>

  function Split(s: bytes, sep: byte): (r: Elements)
    ensures |r| >= 1
    decreases |s|
  {
    var n := Span(s, [sep]);
    if n == |s| then [s] else [s[..n]] + Split(s[n + 1..], sep)
  }

  function Join(es: Elements, sep: byte): bytes {
    if es == [] then [] else if |es| == 1 then es[0] else es[0] + [sep] + Join(es[1..], sep)
  }

  predicate SepFree(es: Elements, sep: byte) {
    forall e :: e in es ==> Free(e, [sep])
  }

  lemma {:induction false} SplitSepFree(s: bytes, sep: byte)
    ensures SepFree(Split(s, sep), sep)
    decreases |s|
  {
    var n := Span(s, [sep]);
    SpanStops(s, [sep]);
    if n < |s| {
      SplitSepFree(s[n + 1..], sep);
    } else {
      assert s[..n] == s;
    }
  }

  lemma SplitAt(x: bytes, y: bytes, sep: byte)
    requires Free(x, [sep])
    ensures Split(x + [sep] + y, sep) == [x] + Split(y, sep)
  {
    var s := x + [sep] + y;
    assert s == x + ([sep] + y);
    SpanAppend(x, [sep] + y, [sep]);
    assert s[..|x|] == x && s[|x| + 1..] == y;
  }

  lemma SplitWhole(x: bytes, sep: byte)
    requires Free(x, [sep])
    ensures Split(x, sep) == [x]
  {
    assert x + [] == x;
    SpanAppend(x, [], [sep]);
  }

  lemma {:induction false} SplitConcat(x: bytes, y: bytes, sep: byte)
    ensures Split(x + [sep] + y, sep) == Split(x, sep) + Split(y, sep)
    decreases |x|
  {
    var n := Span(x, [sep]);
    SpanStops(x, [sep]);
    if n == |x| {
      assert x[..n] == x;
      SplitAt(x, y, sep);
    } else {
      var h, t := x[..n], x[n + 1..];
      assert x == h + [sep] + t;
      SplitConcat(t, y, sep);
      assert x + [sep] + y == h + [sep] + (t + [sep] + y);
      SplitAt(h, t + [sep] + y, sep);
      assert [h] + (Split(t, sep) + Split(y, sep)) == ([h] + Split(t, sep)) + Split(y, sep);
    }
  }

  lemma {:induction false} SplitJoin(es: Elements, sep: byte)
    requires es != [] && SepFree(es, sep)
    ensures Split(Join(es, sep), sep) == es
  {
    if |es| == 1 {
      SplitWhole(es[0], sep);
    } else {
      SplitJoin(es[1..], sep);
      SplitAt(es[0], Join(es[1..], sep), sep);
      assert [es[0]] + es[1..] == es;
    }
  }

  lemma {:induction false} JoinSplit(s: bytes, sep: byte)
    ensures Join(Split(s, sep), sep) == s
    decreases |s|
  {
    var n := Span(s, [sep]);
    SpanStops(s, [sep]);
    if n < |s| {
      JoinSplit(s[n + 1..], sep);
      assert ([s[..n]] + Split(s[n + 1..], sep))[1..] == Split(s[n + 1..], sep);
      assert s == s[..n] + [sep] + s[n + 1..];
    }
  }

  lemma SplitFirst(s: bytes, i: nat, n: nat, sep: byte)
    requires i <= n <= |s| && Free(s[i..n], [sep]) && (n < |s| ==> s[n] == sep)
    ensures Split(s[i..], sep) == if n == |s| then [s[i..n]] else [s[i..n]] + Split(s[n + 1..], sep)
  {
    if n == |s| {
      SplitWhole(s[i..n], sep);
      assert s[i..] == s[i..n];
    } else {
      SplitAt(s[i..n], s[n + 1..], sep);
      assert s[i..] == s[i..n] + [sep] + s[n + 1..];
    }
  }

  /** The elements still to be written, each behind its separator. */
  function JoinTail(es: Elements, sep: byte): bytes {
    if es == [] then [] else [sep] + es[0] + JoinTail(es[1..], sep)
  }

  lemma {:induction false} JoinIsHeadThenTail(es: Elements, sep: byte)
    requires es != []
    ensures Join(es, sep) == es[0] + JoinTail(es[1..], sep)
  {
    if |es| > 1 {
      JoinIsHeadThenTail(es[1..], sep);
    }
  }
}
