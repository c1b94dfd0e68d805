/** The C codec of base64.c: moving pointers over caller-owned buffers, NUL-terminated texts. */
module CBase64 {
  import opened Arithmetic
  import opened Bytes
  import opened Base64
  import opened Base64Laws
  import opened Base64Tables
  import opened Wrappers

  const NUL: byte := 0
  const EQUALS_SIGN: byte := 0x3D

  const BASIS_64: string := "ABCDEFGHIJKLMNOPQRSTUVWXYZ" + "abcdefghijklmnopqrstuvwxyz" + "0123456789" + "+/"

  /** pr2six, in rows of sixteen; 64 stands for a byte that is no digit. */
  const PR2SIX: seq<seq<byte>> := [
    [64, 64, 64, 64, 64, 64, 64, 64, 64, 64, 64, 64, 64, 64, 64, 64],
    [64, 64, 64, 64, 64, 64, 64, 64, 64, 64, 64, 64, 64, 64, 64, 64],
    [64, 64, 64, 64, 64, 64, 64, 64, 64, 64, 64, 62, 64, 64, 64, 63],
    [52, 53, 54, 55, 56, 57, 58, 59, 60, 61, 64, 64, 64, 64, 64, 64],
    [64, 0, 1, 2, 3, 4, 5, 6, 7, 8, 9, 10, 11, 12, 13, 14],
    [15, 16, 17, 18, 19, 20, 21, 22, 23, 24, 25, 64, 64, 64, 64, 64],
    [64, 26, 27, 28, 29, 30, 31, 32, 33, 34, 35, 36, 37, 38, 39, 40],
    [41, 42, 43, 44, 45, 46, 47, 48, 49, 50, 51, 64, 64, 64, 64, 64],
    [64, 64, 64, 64, 64, 64, 64, 64, 64, 64, 64, 64, 64, 64, 64, 64],
    [64, 64, 64, 64, 64, 64, 64, 64, 64, 64, 64, 64, 64, 64, 64, 64],
    [64, 64, 64, 64, 64, 64, 64, 64, 64, 64, 64, 64, 64, 64, 64, 64],
    [64, 64, 64, 64, 64, 64, 64, 64, 64, 64, 64, 64, 64, 64, 64, 64],
    [64, 64, 64, 64, 64, 64, 64, 64, 64, 64, 64, 64, 64, 64, 64, 64],
    [64, 64, 64, 64, 64, 64, 64, 64, 64, 64, 64, 64, 64, 64, 64, 64],
    [64, 64, 64, 64, 64, 64, 64, 64, 64, 64, 64, 64, 64, 64, 64, 64],
    [64, 64, 64, 64, 64, 64, 64, 64, 64, 64, 64, 64, 64, 64, 64, 64]]

  lemma BasisIsTable()
    ensures BASIS_64 == Table(Standard)
  {
  }

  lemma Rows()
    ensures |PR2SIX| == 16 && forall r :: 0 <= r < 16 ==> |PR2SIX[r]| == 16
  {
  }

  lemma SignRows(r: nat, k: nat)
    requires (r < 4 || 8 <= r < 16) && k < 16
    ensures |PR2SIX[r]| == 16
    ensures var v := Sextet(Standard, 16 * r + k); PR2SIX[r][k] == if v < 0 then 64 else v
  {
  }

  lemma CapitalRows(r: nat, k: nat)
    requires 4 <= r < 6 && k < 16
    ensures |PR2SIX[r]| == 16
    ensures var v := Sextet(Standard, 16 * r + k); PR2SIX[r][k] == if v < 0 then 64 else v
  {
  }

  lemma SmallRows(r: nat, k: nat)
    requires 6 <= r < 8 && k < 16
    ensures |PR2SIX[r]| == 16
    ensures var v := Sextet(Standard, 16 * r + k); PR2SIX[r][k] == if v < 0 then 64 else v
  {
  }

  lemma RowIs(r: nat, k: nat)
    requires r < 16 && k < 16
    ensures |PR2SIX| == 16 && |PR2SIX[r]| == 16
    ensures var v := Sextet(Standard, 16 * r + k); PR2SIX[r][k] == if v < 0 then 64 else v
  {
    Rows();
    if 4 <= r < 6 {
      CapitalRows(r, k);
    } else if 6 <= r < 8 {
      SmallRows(r, k);
    } else {
      SignRows(r, k);
    }
  }

  /** basis_64[i], the digit of the C++ alphabet. */
  function Basis(i: nat): (c: byte)
    requires i < 64
    ensures c == Digit(Standard, i)
  {
    BasisIsTable();
    DigitIsTable(Standard, i);
    BASIS_64[i] as int
  }

  /** pr2six[c], the value of a digit. */
  function Pr2six(c: byte): (v: byte)
    ensures v == if Sextet(Standard, c) < 0 then 64 else Sextet(Standard, c)
  {
    RowIs(c / 16, c % 16);
    PR2SIX[c / 16][c % 16]
  }

  /** Base64encode_len. */
  function EncodeLen(len: nat): nat {
    (len + 2) / 3 * 4 + 1
  }

  // ----- encoding -----

  /** What Base64encode puts into the buffer. */
  function EncodedText(x: bytes): bytes {
    Encode(x, Standard) + [NUL]
  }

  lemma EncodedLength(x: bytes)
    ensures |EncodedText(x)| == EncodeLen(|x|) && EncodedText(x)[|EncodedText(x)| - 1] == 0
  {
    DigitsLength(x, Standard);
    RepeatTwice([EQUALS_SIGN]);
  }

  /** *p++ = c. */
  method Put(buf: array<byte>, p: nat, c: byte, ghost before: bytes)
    requires p < buf.Length && buf[..p] == before
    modifies buf
    ensures buf[..p + 1] == before + [c] && buf[p + 1..] == old(buf[p + 1..])
  {
    buf[p] := c;
  }

  method PutFour(buf: array<byte>, p: nat, d0: byte, d1: byte, d2: byte, d3: byte)
    requires p + 4 <= buf.Length
    modifies buf
    ensures buf[..p + 4] == old(buf[..p]) + [d0, d1, d2, d3] && buf[p + 4..] == old(buf[p + 4..])
  {
    buf[p] := d0;
    buf[p + 1] := d1;
    buf[p + 2] := d2;
    buf[p + 3] := d3;
  }

  /** Four characters of one triple. */
  method PutQuad(buf: array<byte>, p: nat, b0: byte, b1: byte, b2: byte, ghost before: bytes)
    requires p + 4 <= buf.Length && buf[..p] == before
    modifies buf
    ensures buf[..p + 4] == before + Quad(b0, b1, b2, Standard) && buf[p + 4..] == old(buf[p + 4..])
  {
    DivMod(b0 / 4, 64, 0, b0 / 4);
    var d0, d1 := Basis(b0 / 4 % 64), Basis(b0 % 4 * 16 + b1 / 16);
    var d2, d3 := Basis(b1 % 16 * 4 + b2 / 64), Basis(b2 % 64);
    assert Quad(b0, b1, b2, Standard) == [d0, d1, d2, d3];
    PutFour(buf, p, d0, d1, d2, d3);
  }

  /** The characters of the last one or two bytes, completed by '='. */
  method PutRest(buf: array<byte>, p: nat, x: bytes, ghost before: bytes) returns (q: nat)
    requires 1 <= |x| <= 2 && p + 4 <= buf.Length && buf[..p] == before
    modifies buf
    ensures q == p + 4 && buf[..q] == before + Encode(x, Standard) && buf[q..] == old(buf[q..])
  {
    DivMod(x[0] / 4, 64, 0, x[0] / 4);
    var c0, c1, c2 := Basis(x[0] / 4 % 64), 0, 0;
    if |x| == 1 {
      c1, c2 := Basis(x[0] % 4 * 16), EQUALS_SIGN;
    } else {
      c1, c2 := Basis(x[0] % 4 * 16 + x[1] / 16), Basis(x[1] % 16 * 4);
    }
    RestText(x);
    PutFour(buf, p, c0, c1, c2, EQUALS_SIGN);
    q := p + 4;
  }

  lemma RestText(x: bytes)
    requires 1 <= |x| <= 2
    ensures Encode(x, Standard)
         == ShortDigits(x, Standard) + if |x| == 1 then [EQUALS_SIGN, EQUALS_SIGN] else [EQUALS_SIGN]
  {
    RepeatTwice([EQUALS_SIGN]);
  }

  lemma EncodeStep(x: bytes, i: nat)
    requires i + 3 <= |x|
    ensures Encode(x[i..], Standard) == Quad(x[i], x[i + 1], x[i + 2], Standard) + Encode(x[i + 3..], Standard)
  {
    assert x[i..][3..] == x[i + 3..];
    var q, d := Quad(x[i], x[i + 1], x[i + 2], Standard), Digits(x[i + 3..], Standard);
    assert Missing(|q + d|) == Missing(|d|);
    assert (q + d) + Repeat([EQUALS_SIGN], Missing(|d|)) == q + (d + Repeat([EQUALS_SIGN], Missing(|d|)));
  }

  /** One turn of the loop: the triple at i goes to p. */
  method PutTriple(encoded: array<byte>, x: bytes, i: nat, p: nat, ghost end: nat)
    requires i + 3 <= |x| && p + 4 <= end <= encoded.Length
    modifies encoded
    ensures encoded[..p + 4] + Encode(x[i + 3..], Standard) == old(encoded[..p]) + Encode(x[i..], Standard)
    ensures encoded[end..] == old(encoded[end..])
  {
    ghost var tail := encoded[p + 4..];
    assert encoded[end..] == tail[end - p - 4..];
    ghost var before, q := encoded[..p], Quad(x[i], x[i + 1], x[i + 2], Standard);
    EncodeStep(x, i);
    PutQuad(encoded, p, x[i], x[i + 1], x[i + 2], before);
    Assoc(before, q, Encode(x[i + 3..], Standard));
    assert encoded[end..] == encoded[p + 4..][end - p - 4..];
  }

  /** Room for another quad, and for what follows the last one. */
  lemma QuadRoom(len: nat, j: nat)
    requires 3 * j <= len
    ensures 3 * j + 3 <= len ==> 4 * j + 4 <= EncodeLen(len)
    ensures len < 3 * j + 3 ==> 4 * j + (if 3 * j < len then 5 else 1) <= EncodeLen(len)
  {
    DivMod(len + 2, 3, (len + 2) / 3, (len + 2) % 3);
  }

  /** The loop of Base64encode over the whole triples. */
  method PutTriples(encoded: array<byte>, x: bytes) returns (i: nat, p: nat)
    requires encoded.Length >= EncodeLen(|x|)
    modifies encoded
    ensures i <= |x| < i + 3 && 3 * p == 4 * i
    ensures p + (if i < |x| then 5 else 1) <= encoded.Length
    ensures encoded[..p] + Encode(x[i..], Standard) == Encode(x, Standard)
    ensures encoded[EncodeLen(|x|)..] == old(encoded[EncodeLen(|x|)..])
  {
    p := 0;
    i := 0;
    ghost var goal, end, j := Encode(x, Standard), EncodeLen(|x|), 0;
    assert x[0..] == x && encoded[..0] == [];
    while i + 2 < |x|
      invariant i == 3 * j <= |x| && p == 4 * j <= end
      invariant encoded[..p] + Encode(x[i..], Standard) == goal
      invariant encoded[end..] == old(encoded[end..])
    {
      QuadRoom(|x|, j);
      PutTriple(encoded, x, i, p, end);
      i, p, j := i + 3, p + 4, j + 1;
    }
    QuadRoom(|x|, j);
  }

  /** Base64encode: writes exactly Base64encode_len characters, the last a NUL, and returns their number. */
  method Base64Encode(encoded: array<byte>, x: bytes) returns (n: nat)
    requires encoded.Length >= EncodeLen(|x|)
    modifies encoded
    ensures n == EncodeLen(|x|) && encoded[..n] == EncodedText(x)
    ensures encoded[n..] == old(encoded[n..])
  {
    EncodedLength(x);
    var i, p := PutTriples(encoded, x);
    ghost var head := encoded[..p];
    if i < |x| {
      p := PutRest(encoded, p, x[i..], head);
    } else {
      assert x[i..] == [];
    }
    assert encoded[..p] == Encode(x, Standard);
    Put(encoded, p, NUL, Encode(x, Standard));
    n := p + 1;
  }

  // ----- decoding -----

  /** How many digits s starts with; a NUL is no digit. */
  function Prefix(s: bytes): (n: nat)
    ensures n <= |s|
  {
    if s == [] || Sextet(Standard, s[0]) < 0 then 0 else 1 + Prefix(s[1..])
  }

  lemma {:induction false} PrefixDigits(s: bytes)
    ensures AllDigits(s[..Prefix(s)], Standard)
    ensures Prefix(s) < |s| ==> Sextet(Standard, s[Prefix(s)]) < 0
  {
    if s != [] && Sextet(Standard, s[0]) >= 0 {
      PrefixDigits(s[1..]);
      assert s[..Prefix(s)] == [s[0]] + s[1..][..Prefix(s[1..])];
    }
  }

  lemma {:induction false} PrefixIs(t: bytes, r: bytes)
    requires AllDigits(t, Standard) && (r == [] || Sextet(Standard, r[0]) < 0)
    ensures Prefix(t + r) == |t|
  {
    if t == [] {
      assert t + r == r;
    } else {
      assert t[0] in t && (t + r)[1..] == t[1..] + r;
      PrefixIs(t[1..], r);
    }
  }

  /** The bytes a text decodes to: those of the digits it starts with. */
  function PlainText(s: bytes): bytes {
    PrefixDigits(s);
    Undigits(s[..Prefix(s)], Standard)
  }

  /** Base64decode_len, as a number. */
  function DecodeLen(s: bytes): nat {
    (Prefix(s) + 3) / 4 * 3 + 1
  }

  /** The scan `while (pr2six[*(bufin++)] <= 63)` over a NUL-terminated text. */
  method CountDigits(s: bytes) returns (n: nat)
    requires NUL in s
    ensures n == Prefix(s) && n < |s|
  {
    n := 0;
    ghost var k :| 0 <= k < |s| && s[k] == NUL;
    while Pr2six(s[n]) <= 63
      invariant 0 <= n <= k
      invariant AllDigits(s[..n], Standard)
      decreases k - n
    {
      assert s[..n + 1] == s[..n] + [s[n]];
      n := n + 1;
    }
    assert s == s[..n] + s[n..];
    PrefixIs(s[..n], s[n..]);
  }

  /** Base64decode_len. */
  method Base64DecodeLen(s: bytes) returns (n: nat)
    requires NUL in s
    ensures n == DecodeLen(s)
  {
    var nprbytes := CountDigits(s);
    n := (nprbytes + 3) / 4 * 3 + 1;
  }

  /** Shifting and cutting to eight bits keeps the low bits. */
  lemma Shifts(s0: nat, s1: nat, s2: nat)
    requires s0 < 64 && s1 < 64 && s2 < 64
    ensures (s0 * 4 + s1 / 16) % 0x100 == s0 * 4 + s1 / 16
    ensures s1 * 16 % 0x100 == s1 % 16 * 16 && s2 * 64 % 0x100 == s2 % 4 * 64
  {
    assert s1 * 16 == s1 / 16 * 0x100 + s1 % 16 * 16;
    assert s2 * 64 == s2 / 4 * 0x100 + s2 % 4 * 64;
  }

  /** The n digits of g, 0 beyond them. */
  function SextetAt(g: bytes, i: nat): nat
    requires AllDigits(g, Standard)
  {
    if i < |g| then assert g[i] in g; Sextet(Standard, g[i]) else 0
  }

  lemma UndigitsAre(g: bytes)
    requires 2 <= |g| <= 4 && AllDigits(g, Standard)
    ensures Undigits(g, Standard)
         == Bytes3(SextetAt(g, 0), SextetAt(g, 1), SextetAt(g, 2), SextetAt(g, 3))[..|g| - 1]
  {
    if |g| == 4 {
      assert g[4..] == [];
    }
  }

  /** The bytes of two to four digits, as the C expressions compute them. */
  lemma ShiftedBytes(g: bytes)
    requires 2 <= |g| <= 4 && AllDigits(g, Standard)
    ensures var u := Undigits(g, Standard);
      var s0, s1, s2, s3 := SextetAt(g, 0), SextetAt(g, 1), SextetAt(g, 2), SextetAt(g, 3);
      |u| == |g| - 1
      && u[0] == (s0 * 4 + s1 / 16) % 0x100
      && (|g| > 2 ==> u[1] == s1 * 16 % 0x100 + s2 / 4)
      && (|g| > 3 ==> u[2] == s2 * 64 % 0x100 + s3)
  {
    UndigitsAre(g);
    Shifts(SextetAt(g, 0), SextetAt(g, 1), SextetAt(g, 2));
  }

  /** pr2six of a digit. */
  method Six(c: byte) returns (v: nat)
    requires Sextet(Standard, c) >= 0
    ensures v == Sextet(Standard, c)
  {
    v := Pr2six(c);
  }

  lemma DigitOfRange(s: bytes, i: nat, n: nat, k: nat)
    requires k < n && i + n <= |s| && AllDigits(s[i..i + n], Standard)
    ensures Sextet(Standard, s[i + k]) == SextetAt(s[i..i + n], k) >= 0
  {
    assert s[i..i + n][k] in s[i..i + n];
  }

  /** The values of the n digits at i. */
  method ReadSixes(s: bytes, i: nat, n: nat) returns (s0: nat, s1: nat, s2: nat, s3: nat)
    requires 2 <= n <= 4 && i + n <= |s| && AllDigits(s[i..i + n], Standard)
    ensures var g := s[i..i + n];
      s0 == SextetAt(g, 0) && s1 == SextetAt(g, 1) && s2 == SextetAt(g, 2) && s3 == SextetAt(g, 3)
  {
    s2, s3 := 0, 0;
    DigitOfRange(s, i, n, 0);
    s0 := Six(s[i]);
    DigitOfRange(s, i, n, 1);
    s1 := Six(s[i + 1]);
    if n > 2 {
      DigitOfRange(s, i, n, 2);
      s2 := Six(s[i + 2]);
    }
    if n > 3 {
      DigitOfRange(s, i, n, 3);
      s3 := Six(s[i + 3]);
    }
  }

  /** The three assignments, as far as there are digits. */
  method PutShifted(buf: array<byte>, p: nat, s0: nat, s1: nat, s2: nat, s3: nat, n: nat, ghost before: bytes,
                    ghost u: bytes)
    requires 2 <= n <= 4 && |u| == n - 1 && p + n - 1 <= buf.Length && buf[..p] == before
    requires u[0] == (s0 * 4 + s1 / 16) % 0x100
    requires n > 2 ==> u[1] == s1 * 16 % 0x100 + s2 / 4
    requires n > 3 ==> u[2] == s2 * 64 % 0x100 + s3
    modifies buf
    ensures buf[..p + n - 1] == before + u && buf[p + n - 1..] == old(buf[p + n - 1..])
  {
    Put(buf, p, (s0 * 4 + s1 / 16) % 0x100, before);
    if n > 2 {
      Put(buf, p + 1, s1 * 16 % 0x100 + s2 / 4, before + [u[0]]);
    }
    if n > 3 {
      Put(buf, p + 2, s2 * 64 % 0x100 + s3, before + [u[0]] + [u[1]]);
    }
    Collected(before, u);
  }

  lemma Collected(before: bytes, u: bytes)
    ensures |u| == 1 ==> before + [u[0]] == before + u
    ensures |u| == 2 ==> before + [u[0]] + [u[1]] == before + u
    ensures |u| == 3 ==> before + [u[0]] + [u[1]] + [u[2]] == before + u
  {
  }

  /** The bytes of the n digits at i. */
  method PutBytes(buf: array<byte>, p: nat, s: bytes, i: nat, n: nat)
    requires 2 <= n <= 4 && i + n <= |s| && AllDigits(s[i..i + n], Standard) && p + n - 1 <= buf.Length
    modifies buf
    ensures buf[..p + n - 1] == old(buf[..p]) + Undigits(s[i..i + n], Standard)
    ensures buf[p + n - 1..] == old(buf[p + n - 1..])
  {
    ShiftedBytes(s[i..i + n]);
    var s0, s1, s2, s3 := ReadSixes(s, i, n);
    PutShifted(buf, p, s0, s1, s2, s3, n, buf[..p], Undigits(s[i..i + n], Standard));
  }

  /** Quads before the last digits decode on their own. */
  lemma UndigitsStep(t: bytes, i: nat)
    requires i + 4 <= |t| && AllDigits(t, Standard)
    ensures AllDigits(t[i..], Standard) && AllDigits(t[i..i + 4], Standard) && AllDigits(t[i + 4..], Standard)
    ensures Undigits(t[i..], Standard) == Undigits(t[i..i + 4], Standard) + Undigits(t[i + 4..], Standard)
  {
    var g, r := t[i..i + 4], t[i + 4..];
    assert t[i..] == g + r && t[i..][4..] == r && g[4..] == [];
    assert forall k {:trigger t[k]} :: i <= k < |t| ==> t[k] in t;
    assert Undigits(g, Standard) + [] == Undigits(g, Standard);
  }

  /** One turn of the decoding loop: the quad at i goes to p. */
  method PutQuadBytes(buf: array<byte>, s: bytes, k: nat, i: nat, p: nat, ghost end: nat)
    requires i + 4 <= k <= |s| && AllDigits(s[..k], Standard) && AllDigits(s[..k][i..], Standard)
    requires p + 3 <= end <= buf.Length
    modifies buf
    ensures AllDigits(s[..k][i + 4..], Standard)
    ensures buf[..p + 3] + Undigits(s[..k][i + 4..], Standard) == old(buf[..p]) + Undigits(s[..k][i..], Standard)
    ensures buf[end..] == old(buf[end..])
  {
    ghost var before, t, tail := buf[..p], s[..k], buf[p + 3..];
    assert buf[end..] == tail[end - p - 3..];
    UndigitsStep(t, i);
    assert s[i..i + 4] == t[i..i + 4];
    PutBytes(buf, p, s, i, 4);
    ghost var g, r := Undigits(t[i..i + 4], Standard), Undigits(t[i + 4..], Standard);
    Assoc(before, g, r);
    assert buf[end..] == buf[p + 3..][end - p - 3..];
  }

  /** The loop of Base64decode over the quads that are not the last; it stays below end. */
  method PutQuads(bufplain: array<byte>, s: bytes, k: nat, ghost end: nat) returns (i: nat, p: nat)
    requires k <= |s| && AllDigits(s[..k], Standard) && 3 * k <= 4 * end && end <= bufplain.Length
    modifies bufplain
    ensures i <= k <= i + 4 && i % 4 == 0 && 4 * p == 3 * i && AllDigits(s[..k][i..], Standard)
    ensures k > 0 ==> i < k
    ensures bufplain[..p] + Undigits(s[..k][i..], Standard) == Undigits(s[..k], Standard)
    ensures bufplain[end..] == old(bufplain[end..])
  {
    p := 0;
    i := 0;
    assert bufplain[..0] == [] && s[..k][0..] == s[..k];
    while k - i > 4
      invariant i <= k && i % 4 == 0 && 4 * p == 3 * i
      invariant k > 0 ==> i < k
      invariant AllDigits(s[..k][i..], Standard)
      invariant bufplain[..p] + Undigits(s[..k][i..], Standard) == Undigits(s[..k], Standard)
      invariant bufplain[end..] == old(bufplain[end..])
    {
      PutQuadBytes(bufplain, s, k, i, p, end);
      i, p := i + 4, p + 3;
    }
  }

  /** The value Base64decode returns is the number of bytes of k digits; i is where the last quad starts. */
  lemma ReturnedCount(k: nat, i: nat, n: nat)
    requires i <= k <= i + 4 && i % 4 == 0 && (k > 0 ==> i < k)
    requires n == k / 4 * 3 + (if k % 4 < 2 then 0 else k % 4 - 1)
    ensures (k + 3) / 4 * 3 - (4 - (k - i)) % 4 == n
  {
    var j := i / 4;
    assert i == 4 * j;
  }

  lemma RoomEnough(k: nat, n: nat)
    requires n == k / 4 * 3 + (if k % 4 < 2 then 0 else k % 4 - 1)
    ensures 3 * k <= 4 * ((k + 3) / 4 * 3 + 1) && n <= (k + 3) / 4 * 3
  {
  }

  /** The digits behind the loop: none, or two to four. */
  method PutTail(buf: array<byte>, s: bytes, k: nat, i: nat, p: nat) returns (q: nat)
    requires i <= k <= i + 4 && k <= |s| && AllDigits(s[..k][i..], Standard)
    requires p + |Undigits(s[..k][i..], Standard)| <= buf.Length
    modifies buf
    ensures q == p + |Undigits(s[..k][i..], Standard)|
    ensures buf[..q] == old(buf[..p]) + Undigits(s[..k][i..], Standard) && buf[q..] == old(buf[q..])
  {
    ghost var g := s[..k][i..];
    UndigitsLength(g, Standard);
    q := p;
    if k - i > 1 {
      assert s[i..i + (k - i)] == g;
      PutBytes(buf, p, s, i, k - i);
      q := p + (k - i) - 1;
    } else {
      assert buf[..p] + [] == buf[..p];
    }
  }

  /** The digits behind the loop, and the terminating NUL. */
  method PutLast(buf: array<byte>, s: bytes, k: nat, i: nat, p: nat)
    requires i <= k <= i + 4 && k <= |s| && AllDigits(s[..k], Standard) && AllDigits(s[..k][i..], Standard)
    requires p + |Undigits(s[..k][i..], Standard)| < buf.Length
    modifies buf
    ensures var q := p + |Undigits(s[..k][i..], Standard)|;
      buf[..q + 1] == old(buf[..p]) + Undigits(s[..k][i..], Standard) + [NUL] && buf[q + 1..] == old(buf[q + 1..])
  {
    ghost var before := buf[..p];
    ghost var u := Undigits(s[..k][i..], Standard);
    ghost var tail := buf[p + |u|..];
    assert tail[1..] == buf[p + |u| + 1..];
    var q := PutTail(buf, s, k, i, p);
    assert buf[q + 1..] == tail[1..];
    Put(buf, q, NUL, before + u);
  }

  /** All that Base64decode writes for k digits, below end; i is where the last quad starts. */
  method PutAll(bufplain: array<byte>, s: bytes, k: nat, ghost end: nat) returns (i: nat)
    requires k <= |s| && AllDigits(s[..k], Standard) && 3 * k <= 4 * end && end <= bufplain.Length
    requires |Undigits(s[..k], Standard)| + 1 <= end
    modifies bufplain
    ensures i <= k <= i + 4 && i % 4 == 0 && (k > 0 ==> i < k)
    ensures var u := Undigits(s[..k], Standard); bufplain[..|u| + 1] == u + [NUL]
    ensures bufplain[end..] == old(bufplain[end..])
  {
    var p;
    i, p := PutQuads(bufplain, s, k, end);
    ghost var n := |Undigits(s[..k], Standard)|;
    ghost var tail := bufplain[n + 1..];
    PutLast(bufplain, s, k, i, p);
    assert bufplain[end..] == tail[end - n - 1..];
  }

  /**
   * Base64decode: on any NUL-terminated text it writes the bytes of the digits the text starts with and a NUL,
   * returns the number of bytes without the NUL, and needs no more room than Base64decode_len.
   */
  method Base64Decode(bufplain: array<byte>, s: bytes) returns (n: nat)
    requires NUL in s && bufplain.Length >= DecodeLen(s)
    modifies bufplain
    ensures n == |PlainText(s)| && n + 1 <= DecodeLen(s)
    ensures bufplain[..n + 1] == PlainText(s) + [NUL]
    ensures bufplain[DecodeLen(s)..] == old(bufplain[DecodeLen(s)..])
  {
    var k := CountDigits(s);
    PrefixDigits(s);
    UndigitsLength(s[..k], Standard);
    RoomEnough(k, |PlainText(s)|);
    var i := PutAll(bufplain, s, k, DecodeLen(s));
    ReturnedCount(k, i, |PlainText(s)|);
    n := (k + 3) / 4 * 3 - (4 - (k - i)) % 4;
  }

  // ----- the two codecs agree -----

  /** The room asked for is that of the decoded bytes and a NUL, rounded up to whole quads of digits. */
  lemma RoomIsTight(s: bytes)
    ensures |PlainText(s)| + 1 <= DecodeLen(s) <= |PlainText(s)| + 4
    ensures DecodeLen(s) == |PlainText(s)| + 1 <==> Prefix(s) % 4 == 0
  {
    PrefixDigits(s);
    UndigitsLength(s[..Prefix(s)], Standard);
  }

  /** On every text the C++ decoder accepts, the C decoder finds the same bytes, whatever follows the text's NUL. */
  lemma DecodersAgree(s: bytes, rest: bytes)
    requires Decode(s, Standard).Some?
    ensures PlainText(s + [NUL] + rest) == Decode(s, Standard).value
  {
    var t, n := Body(s, Standard), Fills(s, Standard);
    FillsSplit(s, Standard);
    var r := Repeat([EQUALS_SIGN], n) + ([NUL] + rest);
    assert s + [NUL] + rest == t + r;
    assert n > 0 ==> r[0] == EQUALS_SIGN;
    PrefixIs(t, r);
    assert (t + r)[..|t|] == t;
  }

  /** The C decoder undoes the C encoder. */
  lemma CRoundTrip(x: bytes, rest: bytes)
    ensures PlainText(EncodedText(x) + rest) == x
  {
    DecodeEncode(x, Standard);
    DecodersAgree(Encode(x, Standard), rest);
  }
}
