/** Percent and plus coding, and the query text built from it. */
module PercentCoding {
  import opened Bytes
  import opened UrlChars
  import opened Wrappers

  const PERCENT: byte := 0x25
  const PLUS: byte := 0x2B
  const SPACE: byte := 0x20
  const EQUALS: byte := 0x3D
  const AMPERSAND: byte := 0x26
  const SEMICOLON: byte := 0x3B

  // ----- decoding -----

  /** What the first escape or plain byte of s stands for and how long it is; None for a bad escape. */
  function DecodeUnit(s: bytes, plus: bool): (u: Option<(byte, nat)>)
    requires s != []
    ensures u.Some? ==> 1 <= u.value.1 <= |s|
  {
    if s[0] == PERCENT then
      if |s| < 3 || HexValue(s[1]) < 0 || HexValue(s[2]) < 0 then None
      else Some((16 * HexValue(s[1]) + HexValue(s[2]), 3))
    else if plus && s[0] == PLUS then Some((SPACE, 1))
    else Some((s[0], 1))
  }

  function Decode(s: bytes, plus: bool): Option<bytes>
    decreases |s|
  {
    if s == [] then Some([])
    else
      var (c, n) :- DecodeUnit(s, plus);
      var t :- Decode(s[n..], plus);
      Some([c] + t)
  }

  /** decode: percent escapes only. */
  method DecodePercent(s: bytes) returns (r: Option<bytes>)
    ensures r == Decode(s, false)
  {
    var o: bytes, i := [], 0;
    assert s[0..] == s;
    PrependNil(Decode(s, false));
    while i != |s|
      invariant 0 <= i <= |s|
      invariant Decode(s, false) == Prepend(o, Decode(s[i..], false))
    {
      var c := s[i];
      i := i + 1;
      assert s[i - 1..][1..] == s[i..];
      if c == PERCENT {
        if i == |s| || HexValue(s[i]) < 0 || i + 1 == |s| || HexValue(s[i + 1]) < 0 {
          return None;
        }
        assert s[i - 1..][3..] == s[i + 2..];
        c := 16 * HexValue(s[i]) + HexValue(s[i + 1]);
        i := i + 2;
      }
      PrependStep(o, c, Decode(s[i..], false));
      o := o + [c];
    }
    assert s[i..] == [] && o + [] == o;
    r := Some(o);
  }

  /** decode_plus: percent escapes, and '+' for a space. */
  method DecodePlus(s: bytes) returns (r: Option<bytes>)
    ensures r == Decode(s, true)
  {
    var o: bytes, i := [], 0;
    assert s[0..] == s;
    PrependNil(Decode(s, true));
    while i != |s|
      invariant 0 <= i <= |s|
      invariant Decode(s, true) == Prepend(o, Decode(s[i..], true))
    {
      var c := s[i];
      i := i + 1;
      assert s[i - 1..][1..] == s[i..];
      if c == PLUS {
        c := SPACE;
      } else if c == PERCENT {
        if i == |s| || HexValue(s[i]) < 0 || i + 1 == |s| || HexValue(s[i + 1]) < 0 {
          return None;
        }
        assert s[i - 1..][3..] == s[i + 2..];
        c := 16 * HexValue(s[i]) + HexValue(s[i + 1]);
        i := i + 2;
      }
      PrependStep(o, c, Decode(s[i..], true));
      o := o + [c];
    }
    assert s[i..] == [] && o + [] == o;
    r := Some(o);
  }

  function Prepend(o: bytes, r: Option<bytes>): Option<bytes> {
    match r
    case None => None
    case Some(t) => Some(o + t)
  }

  lemma PrependNil(r: Option<bytes>)
    ensures Prepend([], r) == r
  {
    if r.Some? {
      assert [] + r.value == r.value;
    }
  }

  lemma PrependStep(o: bytes, c: byte, r: Option<bytes>)
    ensures Prepend(o + [c], r) == Prepend(o, Prepend([c], r))
  {
    if r.Some? {
      assert (o + [c]) + r.value == o + ([c] + r.value);
    }
  }

  // ----- encoding -----

  function Escape(c: byte): bytes {
    [PERCENT, HexUpper(c / 16), HexUpper(c % 16)]
  }

  /** The three output flavours: plain text, query keys and query values. */
  datatype Flavour = Plain | Key | Val

  function EncodeByte(c: byte, mask: Mask, f: Flavour): (r: bytes)
    ensures 1 <= |r|
  {
    if f != Plain && c == SPACE then [PLUS]
    else if f != Plain && (c == PLUS || c == AMPERSAND || c == SEMICOLON) then Escape(c)
    else if f == Key && c == EQUALS then Escape(c)
    else if IsChar(c, mask) then [c]
    else Escape(c)
  }

  function Encode(s: bytes, mask: Mask, f: Flavour): (r: bytes)
    ensures r == [] <==> s == []
  {
    if s == [] then [] else EncodeByte(s[0], mask, f) + Encode(s[1..], mask, f)
  }

  /** The branches of the stream inserters encode, encode_query_key and encode_query_val for one byte. */
  method WriteByte(c: byte, mask: Mask, f: Flavour) returns (u: bytes)
    ensures u == EncodeByte(c, mask, f)
  {
    if f != Plain && c == SPACE {
      u := [PLUS];
    } else if f != Plain && c == PLUS {
      u := [PERCENT, '2' as int, 'B' as int];
    } else if f == Key && c == EQUALS {
      u := [PERCENT, '3' as int, 'D' as int];
    } else if f != Plain && c == AMPERSAND {
      u := [PERCENT, '2' as int, '6' as int];
    } else if f != Plain && c == SEMICOLON {
      u := [PERCENT, '3' as int, 'B' as int];
    } else if IsChar(c, mask) {
      u := [c];
    } else {
      u := [PERCENT, HexUpper(c / 16), HexUpper(c % 16)];
    }
  }

  /** Writing a whole string, one byte at a time. */
  method WriteEncoded(s: bytes, mask: Mask, f: Flavour) returns (o: bytes)
    ensures o == Encode(s, mask, f)
  {
    o := [];
    assert s[0..] == s;
    for i := 0 to |s|
      invariant Encode(s, mask, f) == o + Encode(s[i..], mask, f)
    {
      var u := WriteByte(s[i], mask, f);
      assert s[i..][1..] == s[i + 1..];
      assert (o + u) + Encode(s[i + 1..], mask, f) == o + Encode(s[i..], mask, f);
      o := o + u;
    }
    assert o + [] == o;
  }

  // ----- what coding preserves -----

  /** The bytes an encoder may emit: its mask, escapes, and '+' in queries. */
  lemma {:induction false} EncodedChars(s: bytes, mask: Mask, f: Flavour)
    requires mask & 0x01 != 0
    ensures AllChars(Encode(s, mask, f), mask | 0x20)
    ensures f != Plain ==> Free(Encode(s, mask, f), [SEMICOLON, AMPERSAND])
    ensures f == Key ==> Free(Encode(s, mask, f), [EQUALS, SEMICOLON, AMPERSAND])
  {
    if s != [] {
      var u := EncodeByte(s[0], mask, f);
      EncodedChars(s[1..], mask, f);
      AllCharsConcat(u, Encode(s[1..], mask, f), mask | 0x20);
    }
  }

  /** Decoding undoes encoding whenever the mask leaves '%' out. */
  lemma {:induction false} DecodeEncode(s: bytes, mask: Mask, f: Flavour)
    requires mask & 0x20 == 0
    ensures Decode(Encode(s, mask, f), f != Plain) == Some(s)
  {
    if s != [] {
      var u, t := EncodeByte(s[0], mask, f), Encode(s[1..], mask, f);
      DecodeEncode(s[1..], mask, f);
      UnitRoundTrip(s[0], t, mask, f);
      DecodeFront(u, t, s[0], f != Plain);
      assert [s[0]] + s[1..] == s;
    }
  }

  lemma UnitRoundTrip(c: byte, t: bytes, mask: Mask, f: Flavour)
    requires mask & 0x20 == 0
    ensures DecodeUnit(EncodeByte(c, mask, f) + t, f != Plain) == Some((c, |EncodeByte(c, mask, f)|))
  {
  }

  lemma DecodeFront(u: bytes, t: bytes, c: byte, plus: bool)
    requires u != [] && DecodeUnit(u + t, plus) == Some((c, |u|)) && Decode(t, plus).Some?
    ensures Decode(u + t, plus) == Some([c] + Decode(t, plus).value)
  {
    assert (u + t)[|u|..] == t;
  }
}
