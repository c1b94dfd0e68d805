/** Bytes, byte strings and the small text-scanning vocabulary shared by every codec. */
module Bytes {
  type byte = b: int | 0 <= b < 256
  type bytes = seq<byte>

  const PERIOD: byte := 0x2E
  const SLASH: byte := 0x2F
  const COLON: byte := 0x3A

  /** The bytes of an ASCII literal. */
  function Ascii(t: string): (b: bytes)
    ensures |b| == |t|
  {
    seq(|t|, i requires 0 <= i < |t| => if t[i] as int < 256 then t[i] as int else 0)
  }

  predicate IsUpperAlpha(c: byte) { 'A' as int <= c <= 'Z' as int }

  predicate IsLowerAlpha(c: byte) { 'a' as int <= c <= 'z' as int }

  predicate IsAlpha(c: byte) { IsUpperAlpha(c) || IsLowerAlpha(c) }

  predicate IsDigit(c: byte) { '0' as int <= c <= '9' as int }

  predicate IsAlnum(c: byte) { IsAlpha(c) || IsDigit(c) }

  predicate IsHexDigit(c: byte) {
    IsDigit(c) || 'A' as int <= c <= 'F' as int || 'a' as int <= c <= 'f' as int
  }

  /** The value of a hexadecimal digit, -1 for any other byte. */
  function HexValue(c: byte): (v: int)
    ensures IsHexDigit(c) <==> 0 <= v
    ensures -1 <= v < 16
  {
    if IsDigit(c) then c - '0' as int
    else if 'A' as int <= c <= 'F' as int then c - 'A' as int + 10
    else if 'a' as int <= c <= 'f' as int then c - 'a' as int + 10
    else -1
  }

  function DigitValue(c: byte): nat {
    if IsDigit(c) then c - '0' as int else 0
  }

  /** The value of decimal digits. */
  function Decimal(digits: bytes): nat {
    if digits == [] then 0 else Decimal(digits[..|digits| - 1]) * 10 + DigitValue(digits[|digits| - 1])
  }

  /** The value of hexadecimal digits. */
  function HexNumber(g: bytes): (v: nat) {
    if g == [] then 0
    else HexNumber(g[..|g| - 1]) * 16 + if HexValue(g[|g| - 1]) < 0 then 0 else HexValue(g[|g| - 1])
  }

  function HexUpper(n: nat): (c: byte)
    requires n < 16
    ensures HexValue(c) == n
  {
    if n < 10 then '0' as int + n else 'A' as int + (n - 10)
  }

  function HexLower(n: nat): (c: byte)
    requires n < 16
    ensures HexValue(c) == n && !IsUpperAlpha(c)
  {
    if n < 10 then '0' as int + n else 'a' as int + (n - 10)
  }

  function LowerByte(c: byte): byte {
    if IsUpperAlpha(c) then c + 32 else c
  }

  function Lower(s: bytes): (r: bytes)
    ensures |r| == |s| && forall i :: 0 <= i < |s| ==> r[i] == LowerByte(s[i])
  {
    seq(|s|, i requires 0 <= i < |s| => LowerByte(s[i]))
  }

  predicate IsLower(s: bytes) {
    forall c :: c in s ==> !IsUpperAlpha(c)
  }

  /** No byte of s is one of the stop bytes q. */
  predicate Free(s: bytes, q: bytes) {
    forall c :: c in s ==> c !in q
  }

  /** How many bytes come before the first stop byte. */
  function Span(s: bytes, q: bytes): (n: nat)
    ensures n <= |s|
  {
    if s == [] || s[0] in q then 0 else 1 + Span(s[1..], q)
  }

  lemma {:induction false} SpanStops(s: bytes, q: bytes)
    ensures Free(s[..Span(s, q)], q)
    ensures Span(s, q) < |s| ==> s[Span(s, q)] in q
  {
    if s != [] && s[0] !in q {
      var n := Span(s[1..], q);
      SpanStops(s[1..], q);
      assert s[..n + 1] == [s[0]] + s[1..][..n];
    }
  }

  lemma {:induction false} SpanUnique(s: bytes, q: bytes, n: nat)
    requires n <= |s| && Free(s[..n], q) && (n < |s| ==> s[n] in q)
    ensures Span(s, q) == n
  {
    if n > 0 {
      assert s[..n][0] == s[0];
      forall c | c in s[1..][..n - 1] ensures c in s[..n] {}
      SpanUnique(s[1..], q, n - 1);
    }
  }

  lemma SpanAppend(x: bytes, y: bytes, q: bytes)
    requires Free(x, q) && (y == [] || y[0] in q)
    ensures Span(x + y, q) == |x|
  {
    assert (x + y)[..|x|] == x;
    SpanUnique(x + y, q, |x|);
  }

  lemma FreeConcat(x: bytes, y: bytes, q: bytes)
    ensures Free(x + y, q) <==> Free(x, q) && Free(y, q)
  {
    forall c | c in x ensures c in x + y {}
    forall c | c in y ensures c in x + y {}
  }

  lemma Assoc(a: bytes, b: bytes, c: bytes)
    ensures (a + b) + c == a + (b + c)
  {
  }

  lemma SubSlice(s: bytes, b: nat, e: nat, i: nat, j: nat)
    requires b <= e <= |s| && i <= j <= e - b
    ensures s[b..e][i..j] == s[b + i..b + j]
  {
    var x, y := s[b..e][i..j], s[b + i..b + j];
    assert forall k :: 0 <= k < j - i ==> x[k] == s[b..e][i + k] == s[b + i + k] == y[k];
  }

  lemma SuffixSlices(s: bytes, b: nat, p: nat)
    requires b <= p <= |s|
    ensures s[b..|s|] == s[b..]
    ensures s[b..][..p - b] == s[b..p] && s[b..][p - b..] == s[p..]
  {
    assert s[b..] == s[b..p] + s[p..];
  }

  lemma RangeSlices(s: bytes, b: nat, p: nat, e: nat)
    requires b <= p <= e <= |s|
    ensures s[b..e][..p - b] == s[b..p] && s[b..e][p - b..] == s[p..e]
  {
    assert s[b..e] == s[b..p] + s[p..e];
  }

  lemma RangeSlicesAround(s: bytes, b: nat, p: nat, e: nat)
    requires b <= p < e <= |s|
    ensures s[b..e][..p - b] == s[b..p] && s[b..e][p - b + 1..] == s[p + 1..e]
  {
    RangeSlices(s, b, p, e);
    RangeSlices(s, b, p + 1, e);
  }

  lemma SuffixSlicesAround(s: bytes, b: nat, p: nat)
    requires b <= p < |s|
    ensures s[b..][..p - b] == s[b..p] && s[b..][p - b + 1..] == s[p + 1..]
  {
    SuffixSlices(s, b, p);
    SuffixSlices(s, b, p + 1);
  }

  lemma SliceAround(s: bytes, b: nat, q: nat, e: nat)
    requires b <= q < e <= |s|
    ensures s[b..e] == s[b..q] + [s[q]] + s[q + 1..e]
  {
  }

  lemma FreeSnoc(s: bytes, b: nat, p: nat, q: bytes)
    requires b <= p < |s|
    ensures Free(s[b..p + 1], q) <==> Free(s[b..p], q) && s[p] !in q
  {
    assert s[b..p + 1] == s[b..p] + [s[p]];
  }

  /** Whether t occurs in s at offset i. */
  predicate OccursAt(s: bytes, t: bytes, i: nat) {
    i + |t| <= |s| && s[i..i + |t|] == t
  }

  /** Whether t is a substring of s. */
  ghost predicate Contains(s: bytes, t: bytes) {
    exists i: nat :: OccursAt(s, t, i)
  }
}
