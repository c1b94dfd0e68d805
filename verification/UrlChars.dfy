/** The 256-entry character table of the URL parser and the scans over it. */
module UrlChars {
  import opened Bytes

  /** A set of table classes, one bit each. */
  type Mask = bv8

  const USER_CHARS: Mask := 0x05
  const REG_NAME_CHARS: Mask := 0x01
  const PATH_CHARS: Mask := 0x0F
  const RAW_PATH_CHARS: Mask := 0x2F
  const QUERY_CHARS: Mask := 0x1F
  const RAW_QUERY_CHARS: Mask := 0x3F

  /** The table: every byte belongs to at most one class. */
  function CharClass(c: byte): Mask {
    if IsAlnum(c) || c == 0x21 || c == 0x24 || 0x26 <= c <= 0x2E || c == 0x3B || c == 0x3D || c == 0x5F || c == 0x7E
    then 0x01                      // unreserved characters and sub-delims
    else if c == 0x40 then 0x02    // @
    else if c == 0x3A then 0x04    // :
    else if c == 0x2F then 0x08    // /
    else if c == 0x3F then 0x10    // ?
    else if c == 0x25 then 0x20    // %
    else 0x00
  }

  predicate IsChar(c: byte, mask: Mask) {
    CharClass(c) & mask != 0
  }

  predicate AllChars(s: bytes, mask: Mask) {
    forall c :: c in s ==> IsChar(c, mask)
  }

  /** is_chars: walks the range [b, e) and stops at the first byte outside the mask. */
  method IsChars(s: bytes, b: nat, e: nat, mask: Mask) returns (ok: bool)
    requires b <= e <= |s|
    ensures ok <==> AllChars(s[b..e], mask)
  {
    var i := b;
    while i != e
      invariant b <= i <= e
      invariant AllChars(s[b..i], mask)
    {
      if !IsChar(s[i], mask) {
        assert s[b..e][i - b] == s[i];
        return false;
      }
      assert s[b..i + 1] == s[b..i] + [s[i]];
      i := i + 1;
    }
    ok := true;
  }

  /** find_first_of: the first position in [b, e) holding one of q's bytes, e when there is none. */
  method FindFirstOf(s: bytes, b: nat, e: nat, q: bytes) returns (p: nat)
    requires b <= e <= |s|
    ensures p == b + Span(s[b..e], q)
  {
    p := b;
    while p != e
      invariant b <= p <= e
      invariant Free(s[b..p], q)
    {
      var t := 0;
      while t != |q|
        invariant 0 <= t <= |q|
        invariant s[p] !in q[..t]
      {
        if s[p] == q[t] {
          assert s[b..e][..p - b] == s[b..p];
          SpanUnique(s[b..e], q, p - b);
          return;
        }
        t := t + 1;
      }
      assert s[b..p + 1] == s[b..p] + [s[p]];
      p := p + 1;
    }
    assert s[b..e][..p - b] == s[b..p];
    SpanUnique(s[b..e], q, p - b);
  }

  /** find_char: the first position in [b, e) holding c, e when there is none. */
  method FindChar(s: bytes, b: nat, e: nat, c: byte) returns (p: nat)
    requires b <= e <= |s|
    ensures p == b + Span(s[b..e], [c])
  {
    p := b;
    while p != e && s[p] != c
      invariant b <= p <= e
      invariant Free(s[b..p], [c])
    {
      assert s[b..p + 1] == s[b..p] + [s[p]];
      p := p + 1;
    }
    assert s[b..e][..p - b] == s[b..p];
    SpanUnique(s[b..e], [c], p - b);
  }

  lemma AllCharsConcat(x: bytes, y: bytes, mask: Mask)
    ensures AllChars(x + y, mask) <==> AllChars(x, mask) && AllChars(y, mask)
  {
    forall c | c in x ensures c in x + y {}
    forall c | c in y ensures c in x + y {}
  }
}
