/** The one-pass recogniser of IPv6 texts and the grammar it is meant to accept. */
module Ipv6Text {
  import opened Bytes
  import opened Segments

  // ----- numbers in dotted text -----

  /** The value accumulated by is_uint, in 32-bit wrap-around arithmetic. */
  function WrappedValue(digits: bytes): nat {
    if digits == [] then 0
    else (WrappedValue(digits[..|digits| - 1]) * 10 + DigitValue(digits[|digits| - 1])) % 0x1_0000_0000
  }

  function DigitRun(s: bytes): (n: nat)
    ensures n <= |s|
  {
    if s == [] || !IsDigit(s[0]) then 0 else 1 + DigitRun(s[1..])
  }

  /** How many bytes is_uint consumes at the front of s; 0 when it refuses. */
  function TakeUint(s: bytes, max: nat): (n: nat)
    ensures n <= |s|
  {
    if s == [] || !IsDigit(s[0]) then 0
    else if s[0] == '0' as int then 1
    else if WrappedValue(s[..DigitRun(s)]) > max then 0
    else DigitRun(s)
  }

  /** is_uint on [b, e): where it leaves the cursor, b when it refuses. */
  method IsUint(s: bytes, b: nat, e: nat, max: nat) returns (t: nat)
    requires b <= e <= |s|
    ensures t == b + TakeUint(s[b..e], max)
  {
    if b == e || !IsDigit(s[b]) {
      return b;
    }
    var val := s[b] - '0' as int;
    t := b + 1;
    WrappedStep(s, b, b);
    assert s[b..b] == [];
    if val != 0 {
      while t != e && IsDigit(s[t])
        invariant b < t <= e
        invariant forall i :: b <= i < t ==> IsDigit(s[i])
        invariant val == WrappedValue(s[b..t])
      {
        WrappedStep(s, b, t);
        val := (val * 10 + (s[t] - '0' as int)) % 0x1_0000_0000;
        t := t + 1;
      }
      UintDigits(s, b, t, e);
      if val > max {
        return b;
      }
    }
  }

  lemma UintDigits(s: bytes, b: nat, t: nat, e: nat)
    requires b < t <= e <= |s| && (forall i :: b <= i < t ==> IsDigit(s[i])) && (t < e ==> !IsDigit(s[t]))
    ensures DigitRun(s[b..e]) == t - b && s[b..e][..t - b] == s[b..t]
  {
    SubSlice(s, b, e, 0, t - b);
    DigitRunIs(s[b..e], t - b);
  }

  lemma WrappedStep(s: bytes, b: nat, t: nat)
    requires b <= t < |s|
    ensures WrappedValue(s[b..t + 1]) == (WrappedValue(s[b..t]) * 10 + DigitValue(s[t])) % 0x1_0000_0000
  {
    assert s[b..t + 1][..t - b] == s[b..t];
  }

  lemma {:induction false} DigitRunIs(s: bytes, n: nat)
    requires n <= |s| && (forall i :: 0 <= i < n ==> IsDigit(s[i])) && (n < |s| ==> !IsDigit(s[n]))
    ensures DigitRun(s) == n
  {
    if n > 0 {
      DigitRunIs(s[1..], n - 1);
    }
  }

  /** k numbers whose 32-bit values are at most 255, with periods between them and nothing else. */
  predicate DottedNumbers(s: bytes, k: nat)
    decreases |s|
  {
    var n := TakeUint(s, 255);
    n > 0 && if k <= 1 then n == |s| else n < |s| && s[n] == PERIOD && DottedNumbers(s[n + 1..], k - 1)
  }

  /** Four of them; UrlEdges.Ipv4IsModulo says which texts these are. */
  predicate ValidIpv4(s: bytes) {
    DottedNumbers(s, 4)
  }

  /** is_valid_ipv4 on [b, |s|). */
  method IsValidIpv4(s: bytes, b: nat) returns (ok: bool)
    requires b <= |s|
    ensures ok <==> ValidIpv4(s[b..])
  {
    var k, p := 4, b;
    while k > 1
      invariant 1 <= k <= 4 && b <= p <= |s|
      invariant ValidIpv4(s[b..]) == DottedNumbers(s[p..], k)
    {
      DottedStep(s, p, k);
      var t := IsUint(s, p, |s|, 255);
      if t == p || t == |s| || s[t] != PERIOD {
        return false;
      }
      p, k := t + 1, k - 1;
    }
    DottedStep(s, p, 1);
    var t := IsUint(s, p, |s|, 255);
    ok := t != p && t == |s|;
  }

  lemma DottedStep(s: bytes, p: nat, k: nat)
    requires p <= |s| && k >= 1
    ensures var t := p + TakeUint(s[p..|s|], 255);
      DottedNumbers(s[p..], k) <==>
        t != p && if k == 1 then t == |s| else t < |s| && s[t] == PERIOD && DottedNumbers(s[t + 1..], k - 1)
  {
    assert s[p..|s|] == s[p..];
    var n := TakeUint(s[p..], 255);
    assert p + n < |s| ==> s[p..][n + 1..] == s[p + n + 1..];
  }

  // ----- the recogniser -----

  predicate Total(elided: bool, fields: nat) {
    if elided then fields < 8 else fields == 8
  }

  /** The recogniser's loop from position p: b starts the current field, which has `digits` digits so far. */
  predicate Scan(s: bytes, p: nat, b: nat, elided: bool, fields: nat, digits: nat)
    requires |s| >= 2 && b <= p <= |s|
    decreases |s| - p
  {
    if p == |s| then
      if digits > 0 then Total(elided, fields + 1)
      else if s[|s| - 1] == COLON then s[|s| - 2] == COLON && fields < 8
      else Total(elided, fields)
    else if s[p] == PERIOD then
      (if elided then fields < 7 else fields == 6) && ValidIpv4(s[b..])
    else if s[p] == COLON then
      if digits == 0 then !elided && Scan(s, p + 1, p + 1, true, fields, 0)
      else Scan(s, p + 1, p + 1, elided, fields + 1, 0)
    else
      digits < 4 && IsHexDigit(s[p]) && Scan(s, p + 1, b, elided, fields, digits + 1)
  }

  predicate ValidIpv6(s: bytes) {
    2 <= |s| <= 39
    && if s[0] == COLON then s[1] == COLON && (|s| == 2 || Scan(s, 2, 2, true, 0, 0))
       else Scan(s, 0, 0, false, 0, 0)
  }

  /** is_valid_ipv6. */
  method IsValidIpv6(s: bytes) returns (ok: bool)
    ensures ok <==> ValidIpv6(s)
  {
    if |s| > 39 || |s| < 2 {
      return false;
    }
    var elided, b, p, fields, digits := false, 0, 0, 0, 0;
    if s[0] == COLON {
      if s[1] != COLON {
        return false;
      }
      elided, b, p := true, 2, 2;
      if p == |s| {
        return true;
      }
    }
    while p != |s|
      invariant b <= p <= |s|
      invariant ValidIpv6(s) == Scan(s, p, b, elided, fields, digits)
    {
      if s[p] == PERIOD {
        var quad := IsValidIpv4(s, b);
        return ((!elided && fields == 6) || (elided && fields < 7)) && quad;
      } else if s[p] == COLON {
        if digits == 0 {
          if elided {
            return false;
          }
          elided := true;
        } else {
          fields, digits := fields + 1, 0;
        }
        p := p + 1;
        b := p;
      } else {
        digits := digits + 1;
        if digits > 4 || !IsHexDigit(s[p]) {
          return false;
        }
        p := p + 1;
      }
    }
    if digits > 0 {
      fields := fields + 1;
    } else if s[|s| - 1] == COLON {
      return s[|s| - 2] == COLON && fields < 8;
    }
    ok := (!elided && fields == 8) || (elided && fields < 8);
  }

  // ----- the grammar of section 2.2 of RFC 4291 -----

  predicate IsGroup(g: bytes) {
    1 <= |g| <= 4 && forall c :: c in g ==> IsHexDigit(c)
  }

  /** The colon-separated pieces of x; none when x is empty. */
  function Pieces(x: bytes): Elements {
    if x == [] then [] else Split(x, COLON)
  }

  predicate GroupText(x: bytes) {
    forall g :: g in Pieces(x) ==> IsGroup(g)
  }

  /** Groups on both sides of a "::" at offset k, at most seven in all. */
  predicate ElidedAt(s: bytes, k: nat) {
    k + 2 <= |s| && s[k] == COLON && s[k + 1] == COLON
    && GroupText(s[..k]) && GroupText(s[k + 2..])
    && |Pieces(s[..k])| + |Pieces(s[k + 2..])| <= 7
  }

  ghost predicate Rfc4291(s: bytes) {
    (GroupText(s) && |Pieces(s)| == 8) || exists k: nat :: ElidedAt(s, k)
  }

  // ----- the recogniser accepts exactly the grammar -----

  /** The bytes of a field up to its colon or the end of the text. */
  predicate FieldAt(s: bytes, p: nat, n: nat) {
    p + n <= |s| && Free(s[p..p + n], [COLON]) && (p + n < |s| ==> s[p + n] == COLON)
  }

  lemma {:induction false} ScanDigits(s: bytes, p: nat, b: nat, elided: bool, fields: nat, digits: nat, n: nat)
    requires |s| >= 2 && b <= p && PERIOD !in s && FieldAt(s, p, n) && n > 0
    ensures Scan(s, p, b, elided, fields, digits) <==>
      (digits + n <= 4 && (forall i :: p <= i < p + n ==> IsHexDigit(s[i]))
       && Scan(s, p + n, b, elided, fields, digits + n))
    decreases n
  {
    assert s[p] == s[p..p + n][0] && s[p..p + n][0] in s[p..p + n];
    if n > 1 {
      assert s[p + 1..p + 1 + (n - 1)] == s[p..p + n][1..];
      ScanDigits(s, p + 1, b, elided, fields, digits + 1, n - 1);
    }
  }

  /** A non-empty field is read whole, and refused unless it is a group. */
  lemma ScanField(s: bytes, p: nat, b: nat, elided: bool, fields: nat, n: nat)
    requires |s| >= 2 && b <= p && PERIOD !in s && FieldAt(s, p, n) && n > 0
    ensures Scan(s, p, b, elided, fields, 0) <==>
      (IsGroup(s[p..p + n])
       && if p + n == |s| then Total(elided, fields + 1)
          else Scan(s, p + n + 1, p + n + 1, elided, fields + 1, 0))
  {
    ScanDigits(s, p, b, elided, fields, 0, n);
    var g := s[p..p + n];
    assert forall i :: p <= i < p + n ==> s[i] == g[i - p];
    assert forall i :: 0 <= i < n ==> g[i] == s[p + i];
  }

  /** The pieces of a text that starts with the field g. */
  lemma PiecesOfField(s: bytes, p: nat, n: nat, e: nat)
    requires FieldAt(s, p, n) && p < e <= |s| && p + n <= e
    ensures Pieces(s[p..e]) == [s[p..p + n]] + if p + n == e then [] else Split(s[p + n + 1..e], COLON)
  {
    var x := s[p..e];
    assert x[0..n] == s[p..p + n];
    SplitFirst(x, 0, n, COLON);
    assert x[0..] == x;
    assert n < |x| ==> x[n + 1..] == s[p + n + 1..e];
  }

  /** A field and its colon before more text: groups throughout, or not. */
  lemma GroupTextStep(s: bytes, p: nat, n: nat, e: nat)
    requires FieldAt(s, p, n) && p < e <= |s| && p + n <= e
    ensures p + n == e ==> (GroupText(s[p..e]) <==> IsGroup(s[p..e])) && |Pieces(s[p..e])| == 1
    ensures p + n < e ==>
      (GroupText(s[p..e]) <==> IsGroup(s[p..p + n]) && p + n + 1 < e && GroupText(s[p + n + 1..e]))
    ensures p + n + 1 < e ==> |Pieces(s[p..e])| == 1 + |Pieces(s[p + n + 1..e])|
  {
    PiecesOfField(s, p, n, e);
    var g := s[p..p + n];
    if p + n < e {
      var t := s[p + n + 1..e];
      var es := Split(t, COLON);
      assert forall x :: x in [g] + es <==> x == g || x in es;
      assert g in [g] + es;
      if t == [] {
        SplitWhole([], COLON);
        assert [] in es;
      }
    }
  }

  lemma FieldExists(s: bytes, p: nat) returns (n: nat)
    requires p <= |s|
    ensures FieldAt(s, p, n)
  {
    n := Span(s[p..], [COLON]);
    SpanStops(s[p..], [COLON]);
    assert s[p..][..n] == s[p..p + n];
  }

  /** The rest of the text from p as a list of groups that, with those before, leaves room for a "::". */
  predicate ShortFrom(s: bytes, p: nat, fields: nat) {
    p <= |s| && GroupText(s[p..]) && fields + |Pieces(s[p..])| < 8
  }

  lemma ShortStep(s: bytes, p: nat, n: nat, fields: nat)
    requires FieldAt(s, p, n) && p < |s|
    ensures n == 0 || !IsGroup(s[p..p + n]) ==> !ShortFrom(s, p, fields)
    ensures IsGroup(s[p..p + n]) ==>
      (ShortFrom(s, p, fields) <==>
         if p + n == |s| then fields < 7 else p + n + 1 < |s| && ShortFrom(s, p + n + 1, fields + 1))
  {
    GroupTextStep(s, p, n, |s|);
    assert s[p..|s|] == s[p..];
    assert p + n < |s| ==> s[p + n + 1..|s|] == s[p + n + 1..];
  }

  /** After a "::", and at a field start behind a single colon once one has been seen. */
  lemma {:induction false} ScanElided(s: bytes, p: nat, fields: nat)
    requires |s| >= 2 && 2 <= p <= |s| && PERIOD !in s && s[p - 1] == COLON
    ensures Scan(s, p, p, true, fields, 0) <==> ((s[p - 2] == COLON || p < |s|) && ShortFrom(s, p, fields))
    decreases |s| - p
  {
    if p < |s| {
      var n := FieldExists(s, p);
      ShortStep(s, p, n, fields);
      if n > 0 {
        ScanField(s, p, p, true, fields, n);
        if p + n < |s| {
          NoColonInField(s, p, n, p + n - 1);
          ScanElided(s, p + n + 1, fields + 1);
        }
      }
    }
  }

  /** How many groups stand between the field start p and the "::" at k; -1 when anything else does. */
  function GroupsBefore(s: bytes, p: nat, k: nat): int
    requires p <= k + 1 <= |s|
  {
    if k < p then 0
    else if p < k && GroupText(s[p..k]) then |Pieces(s[p..k])|
    else -1
  }

  predicate ColonsAt(s: bytes, k: nat) {
    k + 2 <= |s| && s[k] == COLON && s[k + 1] == COLON
  }

  /** A "::" at offset k >= p - 1 that completes the text from the field start p, after `fields` groups. */
  predicate ElidedFrom(s: bytes, p: nat, fields: nat, k: nat) {
    p <= k + 1 && ColonsAt(s, k) && GroupText(s[k + 2..])
    && var before := GroupsBefore(s, p, k);
       before >= 0 && fields + before + |Pieces(s[k + 2..])| < 8
  }

  ghost predicate SomeElision(s: bytes, p: nat, fields: nat) {
    exists k: nat :: ElidedFrom(s, p, fields, k)
  }

  lemma NoColonInField(s: bytes, p: nat, n: nat, k: nat)
    requires FieldAt(s, p, n) && p <= k < p + n
    ensures s[k] != COLON
  {
    assert s[k] == s[p..p + n][k - p] && s[p..p + n][k - p] in s[p..p + n];
  }

  lemma BeforeStep(s: bytes, p: nat, n: nat, k: nat)
    requires FieldAt(s, p, n) && n > 0 && p + n <= k < |s|
    ensures !IsGroup(s[p..p + n]) ==> GroupsBefore(s, p, k) == -1
    ensures IsGroup(s[p..p + n]) ==>
      var rest := GroupsBefore(s, p + n + 1, k);
      GroupsBefore(s, p, k) == if rest < 0 then -1 else rest + 1
  {
    GroupTextStep(s, p, n, k);
  }

  lemma ElidedStep(s: bytes, p: nat, n: nat, fields: nat, k: nat)
    requires FieldAt(s, p, n) && n > 0 && p + n < |s| && IsGroup(s[p..p + n])
    ensures ElidedFrom(s, p, fields, k) <==> ElidedFrom(s, p + n + 1, fields + 1, k)
  {
    if p + n <= k < |s| {
      BeforeStep(s, p, n, k);
    } else if p <= k + 1 < |s| {
      NoColonInField(s, p, n, if k < p then p else k);
    }
  }

  lemma NotElided(s: bytes, p: nat, n: nat, fields: nat, k: nat)
    requires FieldAt(s, p, n) && n > 0 && (p + n == |s| || !IsGroup(s[p..p + n]))
    ensures !ElidedFrom(s, p, fields, k)
  {
    if p + n <= k < |s| {
      BeforeStep(s, p, n, k);
    } else if p <= k + 1 < |s| {
      NoColonInField(s, p, n, if k < p then p else k);
    }
  }

  lemma ElidedSteps(s: bytes, p: nat, n: nat, fields: nat)
    requires FieldAt(s, p, n) && n > 0
    ensures (p + n == |s| || !IsGroup(s[p..p + n])) ==> !SomeElision(s, p, fields)
    ensures p + n < |s| && IsGroup(s[p..p + n]) ==>
      (SomeElision(s, p, fields) <==> SomeElision(s, p + n + 1, fields + 1))
  {
    if p + n == |s| || !IsGroup(s[p..p + n]) {
      forall k: nat ensures !ElidedFrom(s, p, fields, k) {
        NotElided(s, p, n, fields, k);
      }
    } else {
      if SomeElision(s, p, fields) {
        var k: nat :| ElidedFrom(s, p, fields, k);
        ElidedStep(s, p, n, fields, k);
      }
      if SomeElision(s, p + n + 1, fields + 1) {
        var k: nat :| ElidedFrom(s, p + n + 1, fields + 1, k);
        ElidedStep(s, p, n, fields, k);
      }
    }
  }

  /** A "::" whose second colon is at p can only be completed right there. */
  lemma ElidedHere(s: bytes, p: nat, fields: nat)
    requires 0 < p < |s| && s[p] == COLON && s[p - 1] == COLON
    ensures SomeElision(s, p, fields) <==> ShortFrom(s, p + 1, fields)
  {
    assert ElidedFrom(s, p, fields, p - 1) <==> ShortFrom(s, p + 1, fields);
    forall k: nat | ElidedFrom(s, p, fields, k) ensures k == p - 1 {
      if p < k {
        assert FieldAt(s, p, 0);
        GroupTextStep(s, p, 0, k);
      }
    }
  }

  /** The rest of the text from p as a full list of eight groups, counting those before. */
  predicate FullFrom(s: bytes, p: nat, fields: nat) {
    p < |s| && GroupText(s[p..]) && fields + |Pieces(s[p..])| == 8
  }

  lemma FullStep(s: bytes, p: nat, n: nat, fields: nat)
    requires FieldAt(s, p, n) && p < |s|
    ensures n == 0 || !IsGroup(s[p..p + n]) ==> !FullFrom(s, p, fields)
    ensures IsGroup(s[p..p + n]) ==>
      (FullFrom(s, p, fields) <==> if p + n == |s| then fields == 7 else FullFrom(s, p + n + 1, fields + 1))
  {
    GroupTextStep(s, p, n, |s|);
    assert s[p..|s|] == s[p..];
    assert p + n < |s| ==> s[p + n + 1..|s|] == s[p + n + 1..];
  }

  ghost predicate Completes(s: bytes, p: nat, fields: nat) {
    FullFrom(s, p, fields) || SomeElision(s, p, fields)
  }

  lemma ScanOpenAtColon(s: bytes, p: nat, fields: nat)
    requires 2 <= p < |s| && PERIOD !in s && s[p - 1] == COLON && s[p] == COLON
    ensures Scan(s, p, p, false, fields, 0) <==> Completes(s, p, fields)
  {
    assert FieldAt(s, p, 0);
    FullStep(s, p, 0, fields);
    ScanElided(s, p + 1, fields);
    ElidedHere(s, p, fields);
  }

  lemma ScanOpenAtField(s: bytes, p: nat, fields: nat, n: nat)
    requires |s| >= 2 && PERIOD !in s && FieldAt(s, p, n) && n > 0
    ensures p + n == |s| || !IsGroup(s[p..p + n]) ==>
      (Scan(s, p, p, false, fields, 0) <==> Completes(s, p, fields))
    ensures p + n < |s| && IsGroup(s[p..p + n]) ==>
      (Scan(s, p, p, false, fields, 0) <==> Scan(s, p + n + 1, p + n + 1, false, fields + 1, 0))
      && (Completes(s, p, fields) <==> Completes(s, p + n + 1, fields + 1))
  {
    ScanField(s, p, p, false, fields, n);
    FullStep(s, p, n, fields);
    ElidedSteps(s, p, n, fields);
  }

  /** At the front of the text, and at a field start behind a single colon while no "::" has been seen. */
  lemma {:induction false} ScanOpen(s: bytes, p: nat, fields: nat)
    requires |s| >= 2 && p <= |s| && PERIOD !in s
    requires if p == 0 then s[0] != COLON else p >= 2 && s[p - 1] == COLON && s[p - 2] != COLON
    ensures Scan(s, p, p, false, fields, 0) <==> Completes(s, p, fields)
    decreases |s| - p
  {
    if p < |s| {
      var n := FieldExists(s, p);
      if n == 0 {
        ScanOpenAtColon(s, p, fields);
      } else {
        ScanOpenAtField(s, p, fields, n);
        if p + n < |s| && IsGroup(s[p..p + n]) {
          NoColonInField(s, p, n, p + n - 1);
          ScanOpen(s, p + n + 1, fields + 1);
        }
      }
    }
  }

  lemma {:induction false} GroupTextLength(es: Elements)
    requires es != [] && forall g :: g in es ==> IsGroup(g)
    ensures 2 * |es| - 1 <= |Join(es, COLON)| <= 5 * |es| - 1
  {
    assert es[0] in es;
    if |es| > 1 {
      assert forall g :: g in es[1..] ==> g in es;
      GroupTextLength(es[1..]);
    }
  }

  lemma PiecesLength(x: bytes)
    requires GroupText(x)
    ensures 2 * |Pieces(x)| - 1 <= |x| <= 5 * |Pieces(x)|
  {
    if x != [] {
      GroupTextLength(Pieces(x));
      JoinSplit(x, COLON);
    }
  }

  lemma RfcLength(s: bytes)
    requires Rfc4291(s)
    ensures 2 <= |s| <= 39
  {
    if GroupText(s) && |Pieces(s)| == 8 {
      GroupTextLength(Pieces(s));
      JoinSplit(s, COLON);
    } else {
      var k: nat :| ElidedAt(s, k);
      PiecesLength(s[..k]);
      PiecesLength(s[k + 2..]);
    }
  }

  lemma ElidedAtFront(s: bytes, k: nat)
    requires |s| >= 2 && s[0] == COLON
    ensures ElidedAt(s, k) <==> (s[1] == COLON && ElidedFrom(s, 1, 0, k))
  {
    if 0 < k <= |s| {
      assert FieldAt(s, 0, 0);
      GroupTextStep(s, 0, 0, k);
      assert s[0..k] == s[..k];
      if s[1] == COLON && 1 < k {
        assert FieldAt(s, 1, 0);
        GroupTextStep(s, 1, 0, k);
      }
    }
  }

  lemma ElidedAtOther(s: bytes, k: nat)
    requires |s| >= 2 && s[0] != COLON
    ensures ElidedAt(s, k) <==> ElidedFrom(s, 0, 0, k)
  {
    assert k <= |s| ==> s[0..k] == s[..k];
  }

  /** On text without a period the recogniser accepts exactly the texts of section 2.2 of RFC 4291. */
  lemma RecogniserIsGrammar(s: bytes)
    requires PERIOD !in s
    ensures ValidIpv6(s) <==> Rfc4291(s)
  {
    if Rfc4291(s) {
      RfcLength(s);
    }
    if 2 <= |s| {
      if s[0] == COLON {
        GrammarAtColon(s);
      } else {
        ScanOpen(s, 0, 0);
        assert s[0..] == s;
        assert |Pieces(s)| == 8 <==> 0 + |Pieces(s[0..])| == 8;
        forall k: nat ensures ElidedAt(s, k) <==> ElidedFrom(s, 0, 0, k) {
          ElidedAtOther(s, k);
        }
      }
    }
  }

  lemma GrammarAtColon(s: bytes)
    requires PERIOD !in s && |s| >= 2 && s[0] == COLON
    ensures Rfc4291(s) <==> (s[1] == COLON && (|s| == 2 || Scan(s, 2, 2, true, 0, 0)))
  {
    assert FieldAt(s, 0, 0);
    GroupTextStep(s, 0, 0, |s|);
    assert s[0..|s|] == s;
    forall k: nat ensures ElidedAt(s, k) <==> (s[1] == COLON && ElidedFrom(s, 1, 0, k)) {
      ElidedAtFront(s, k);
    }
    if s[1] == COLON {
      ScanElided(s, 2, 0);
      ElidedHere(s, 1, 0);
    }
  }
}
