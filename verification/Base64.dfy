/** The alphabet-generic Base64 codec: 24-bit words, two alphabets and a fill of one or three characters. */
module Base64 {
  import opened Arithmetic
  import opened Bytes
  import opened Wrappers

  datatype Alphabet = Standard | UrlSafe

  /** alphabet::data()[i]. */
  function Digit(a: Alphabet, i: nat): (c: byte)
    requires i < 64
  {
    if i < 26 then 'A' as int + i
    else if i < 52 then 'a' as int + (i - 26)
    else if i < 62 then '0' as int + (i - 52)
    else if i == 62 then (if a == Standard then 0x2B else 0x2D)
    else if a == Standard then 0x2F else 0x5F
  }

  /** alphabet::fill(): "=" or "%3d". */
  function Fill(a: Alphabet): bytes {
    if a == Standard then [0x3D] else [0x25, 0x33, 0x64]
  }

  /** The index of a digit in its alphabet, -1 for any other byte. */
  function Sextet(a: Alphabet, c: byte): (v: int)
    ensures -1 <= v < 64
  {
    if IsUpperAlpha(c) then c - 'A' as int
    else if IsLowerAlpha(c) then c - 'a' as int + 26
    else if IsDigit(c) then c - '0' as int + 52
    else if c == Digit(a, 62) then 62
    else if c == Digit(a, 63) then 63
    else -1
  }

  lemma SextetInvertsDigit(a: Alphabet)
    ensures forall i: nat :: i < 64 ==> Sextet(a, Digit(a, i)) == i
    ensures forall c: byte :: Sextet(a, c) >= 0 ==> Digit(a, Sextet(a, c)) == c
  {
  }

  // ----- encoding -----

  /** The digits of x, without fill: every three bytes regrouped into four sextets. */
  function Digits(x: bytes, a: Alphabet): bytes {
    if |x| < 3 then ShortDigits(x, a) else Quad(x[0], x[1], x[2], a) + Digits(x[3..], a)
  }

  lemma {:induction false} DigitsLength(x: bytes, a: Alphabet)
    ensures |Digits(x, a)| == |x| / 3 * 4 + (if |x| % 3 == 0 then 0 else |x| % 3 + 1)
    decreases |x|
  {
    if |x| >= 3 {
      DigitsLength(x[3..], a);
    }
  }

  /** The last one or two bytes, completed by zero bits. */
  function ShortDigits(x: bytes, a: Alphabet): (r: bytes)
    requires |x| < 3
    ensures |r| == if |x| == 0 then 0 else |x| + 1
  {
    if |x| == 0 then []
    else if |x| == 1 then Quad(x[0], 0, 0, a)[..2]
    else Quad(x[0], x[1], 0, a)[..3]
  }

  function Quad(b0: byte, b1: byte, b2: byte, a: Alphabet): (r: bytes)
    ensures |r| == 4
  {
    [Digit(a, b0 / 4), Digit(a, b0 % 4 * 16 + b1 / 16), Digit(a, b1 % 16 * 4 + b2 / 64), Digit(a, b2 % 64)]
  }

  function Repeat(t: bytes, n: nat): bytes {
    if n == 0 then [] else t + Repeat(t, n - 1)
  }

  lemma RepeatTwice(t: bytes)
    ensures Repeat(t, 0) == [] && Repeat(t, 1) == t && Repeat(t, 2) == t + t && Repeat(t, 3) == t + (t + t)
  {
    assert Repeat(t, 1) == t + Repeat(t, 0);
    assert Repeat(t, 2) == t + Repeat(t, 1);
    assert Repeat(t, 3) == t + Repeat(t, 2);
  }

  /** How many fills complete n digits or sextets to a multiple of four. */
  function Missing(n: nat): nat {
    (4 - n % 4) % 4
  }

  function Encode(x: bytes, a: Alphabet): bytes {
    var d := Digits(x, a);
    d + Repeat(Fill(a), Missing(|d|))
  }

  /** A 24-bit word made of four sextets comes apart into them. */
  lemma WordSextets(s0: nat, s1: nat, s2: nat, s3: nat)
    requires s0 < 64 && s1 < 64 && s2 < 64 && s3 < 64
    ensures var t := s0 * 0x4_0000 + s1 * 0x1000 + s2 * 0x40 + s3;
      t / 0x4_0000 % 64 == s0 && t / 0x1000 % 64 == s1 && t / 0x40 % 64 == s2 && t % 64 == s3
  {
    var t := s0 * 0x4_0000 + s1 * 0x1000 + s2 * 0x40 + s3;
    DivMod(t, 0x40, s0 * 0x1000 + s1 * 0x40 + s2, s3);
    DivMod(t, 0x1000, s0 * 0x40 + s1, s2 * 0x40 + s3);
    DivMod(t, 0x4_0000, s0, s1 * 0x1000 + s2 * 0x40 + s3);
    DivMod(s0 * 0x1000 + s1 * 0x40 + s2, 64, s0 * 0x40 + s1, s2);
    DivMod(s0 * 0x40 + s1, 64, s0, s1);
    DivMod(s0, 64, 0, s0);
  }

  lemma TripleSextets(b0: byte, b1: byte, b2: byte)
    ensures var t := b0 * 0x1_0000 + b1 * 0x100 + b2;
      t / 0x4_0000 % 64 == b0 / 4 && t / 0x1000 % 64 == b0 % 4 * 16 + b1 / 16
      && t / 0x40 % 64 == b1 % 16 * 4 + b2 / 64 && t % 64 == b2 % 64
  {
    WordSextets(b0 / 4, b0 % 4 * 16 + b1 / 16, b1 % 16 * 4 + b2 / 64, b2 % 64);
  }

  /** The digits of one 24-bit word, as base::encode shifts and masks them out. */
  method WriteWord(b0: byte, b1: byte, b2: byte, a: Alphabet) returns (quad: bytes)
    ensures quad == Quad(b0, b1, b2, a)
  {
    var triple := b0 * 0x1_0000 + b1 * 0x100 + b2;
    TripleSextets(b0, b1, b2);
    quad := [Digit(a, triple / 0x4_0000 % 64), Digit(a, triple / 0x1000 % 64),
             Digit(a, triple / 0x40 % 64), Digit(a, triple % 64)];
  }

  /** One turn of base::encode: the triple at i appended to the output. */
  method WriteTriple(bin: bytes, i: nat, a: Alphabet, res: bytes) returns (next: bytes)
    requires i + 3 <= |bin|
    ensures res + Digits(bin[i..], a) == next + Digits(bin[i + 3..], a)
  {
    var quad := WriteWord(bin[i], bin[i + 1], bin[i + 2], a);
    next := res + quad;
    assert bin[i..][3..] == bin[i + 3..];
    assert Digits(bin[i..], a) == quad + Digits(bin[i + 3..], a);
  }

  lemma ThreeLess(n: int)
    requires n > 0 && n % 3 == 0
    ensures n >= 3 && (n - 3) % 3 == 0
  {
    DivMod(n - 3, 3, n / 3 - 1, 0);
  }

  /** The loop of base::encode over the whole triples. */
  method WriteTriples(bin: bytes, fast: nat, a: Alphabet) returns (res: bytes)
    requires fast <= |bin| && fast % 3 == 0
    ensures Digits(bin, a) == res + Digits(bin[fast..], a)
  {
    res := [];
    var i := 0;
    assert bin[0..] == bin;
    while i < fast
      invariant 0 <= i <= fast && (fast - i) % 3 == 0
      invariant Digits(bin, a) == res + Digits(bin[i..], a)
    {
      ThreeLess(fast - i);
      res := WriteTriple(bin, i, a, res);
      i := i + 3;
    }
  }

  /** How many fills complete the digits of x. */
  lemma MissingOf(x: bytes, a: Alphabet)
    ensures Missing(|Digits(x, a)|) == if |x| % 3 == 0 then 0 else 3 - |x| % 3
  {
    DigitsLength(x, a);
    var r := |Digits(x, a)| - |x| / 3 * 4;
    DivMod(|Digits(x, a)|, 4, |x| / 3, r);
  }

  /** The last word and its fill, for one or two bytes that make no triple. */
  method WriteRest(rest: bytes, a: Alphabet) returns (r: bytes)
    requires 1 <= |rest| <= 2
    ensures r == ShortDigits(rest, a) + Repeat(Fill(a), 3 - |rest|)
  {
    var word := WriteWord(rest[0], if |rest| == 2 then rest[1] else 0, 0, a);
    RepeatTwice(Fill(a));
    if |rest| == 1 {
      r := word[..2] + Fill(a) + Fill(a);
      assert r == word[..2] + (Fill(a) + Fill(a));
    } else {
      r := word[..3] + Fill(a);
    }
  }

  /** base::encode: 24-bit words for the whole triples, one padded word for the rest. */
  method EncodeText(bin: bytes, a: Alphabet) returns (res: bytes)
    ensures res == Encode(bin, a)
  {
    var size := |bin|;
    var fast := size - size % 3;
    DivMod(fast, 3, size / 3, 0);
    res := WriteTriples(bin, fast, a);
    MissingOf(bin, a);
    if fast == size {
      assert bin[fast..] == [];
      return;
    }
    var rest := WriteRest(bin[fast..], a);
    ghost var digits := res;
    res := res + rest;
    assert res == (digits + ShortDigits(bin[fast..], a)) + Repeat(Fill(a), 3 - size % 3);
  }

  // ----- decoding -----

  /** The bytes of a word of four sextets. */
  function Bytes3(s0: nat, s1: nat, s2: nat, s3: nat): (r: bytes)
    requires s0 < 64 && s1 < 64 && s2 < 64 && s3 < 64
    ensures |r| == 3
  {
    [s0 * 4 + s1 / 16, s1 % 16 * 16 + s2 / 4, s2 % 4 * 64 + s3]
  }

  predicate AllDigits(t: bytes, a: Alphabet) {
    forall c :: c in t ==> Sextet(a, c) >= 0
  }

  /** The bytes a run of digits stands for; the bits beyond the last whole byte are dropped. */
  function Undigits(t: bytes, a: Alphabet): bytes
    requires AllDigits(t, a)
  {
    if |t| < 4 then ShortBytes(t, a)
    else Bytes3(Sextet(a, t[0]), Sextet(a, t[1]), Sextet(a, t[2]), Sextet(a, t[3])) + Undigits(t[4..], a)
  }

  /** Two or three last digits hold one or two bytes. */
  function ShortBytes(t: bytes, a: Alphabet): bytes
    requires |t| < 4 && AllDigits(t, a)
  {
    if |t| < 2 then []
    else if |t| == 2 then Bytes3(Sextet(a, t[0]), Sextet(a, t[1]), 0, 0)[..1]
    else Bytes3(Sextet(a, t[0]), Sextet(a, t[1]), Sextet(a, t[2]), 0)[..2]
  }

  /** Whether the fill loop finds another fill at the end of s; it looks only while something is left before it. */
  predicate EndsInFill(s: bytes, fill: bytes) {
    |s| > |fill| && s[|s| - |fill|..] == fill
  }

  /** How many fills the loop finds at the end of s. */
  function Fills(s: bytes, a: Alphabet): nat {
    if EndsInFill(s, Fill(a)) then 1 + Fills(s[..|s| - |Fill(a)|], a) else 0
  }

  /** s without those fills. */
  function Body(s: bytes, a: Alphabet): bytes {
    if EndsInFill(s, Fill(a)) then Body(s[..|s| - |Fill(a)|], a) else s
  }

  /** What base::decode makes of s. */
  function Decode(s: bytes, a: Alphabet): Option<bytes> {
    Complete(Body(s, a), Fills(s, a), a)
  }

  /** The bytes of the digits t with n fills behind them, if they add up. */
  function Complete(t: bytes, n: nat, a: Alphabet): Option<bytes> {
    if n > 2 || (|t| + n) % 4 != 0 || !AllDigits(t, a) then None else Some(Undigits(t, a))
  }

  /** get_sextet: the first matching index of the alphabet, -1 for the exception. */
  method GetSextet(a: Alphabet, c: byte) returns (v: int)
    ensures v == Sextet(a, c)
  {
    SextetInvertsDigit(a);
    var i := 0;
    while i < 64
      invariant 0 <= i <= 64
      invariant forall j :: 0 <= j < i ==> Digit(a, j) != c
    {
      if Digit(a, i) == c {
        return i;
      }
      i := i + 1;
    }
    v := -1;
  }

  /** The fill loop: how many fills there are and what is left, or None once there are more than two. */
  method CountFills(base: bytes, a: Alphabet) returns (r: Option<(nat, nat)>)
    ensures Fills(base, a) > 2 <==> r.None?
    ensures r.Some? ==> r.value.1 <= |base| && r.value.0 == Fills(base, a) && base[..r.value.1] == Body(base, a)
  {
    var fill := Fill(a);
    var size, cnt := |base|, 0;
    assert base[..size] == base;
    while size > |fill|
      invariant 0 <= size <= |base| && cnt <= 2
      invariant Fills(base, a) == cnt + Fills(base[..size], a) && Body(base, a) == Body(base[..size], a)
    {
      assert base[..size][size - |fill|..] == base[size - |fill|..size];
      assert base[..size][..size - |fill|] == base[..size - |fill|];
      if base[size - |fill|..size] == fill {
        cnt := cnt + 1;
        size := size - |fill|;
        if cnt > 2 {
          return None;
        }
      } else {
        break;
      }
    }
    r := Some((cnt, size));
  }

  lemma WordBytes(s0: nat, s1: nat, s2: nat, s3: nat)
    requires s0 < 64 && s1 < 64 && s2 < 64 && s3 < 64
    ensures var t := s0 * 0x4_0000 + s1 * 0x1000 + s2 * 0x40 + s3;
      [t / 0x1_0000 % 0x100, t / 0x100 % 0x100, t % 0x100] == Bytes3(s0, s1, s2, s3)
  {
    var x: int, y: int, z: int := s0 * 4 + s1 / 16, s1 % 16 * 16 + s2 / 4, s2 % 4 * 64 + s3;
    var t := s0 * 0x4_0000 + s1 * 0x1000 + s2 * 0x40 + s3;
    assert t == x * 0x1_0000 + y * 0x100 + z;
    DivMod(t, 0x100, x * 0x100 + y, z);
    DivMod(t, 0x1_0000, x, y * 0x100 + z);
    DivMod(x * 0x100 + y, 0x100, x, y);
    DivMod(x, 0x100, 0, x);
  }

  /** The bytes of one 24-bit word, as base::decode shifts and masks them out. */
  method ReadWord(s0: nat, s1: nat, s2: nat, s3: nat) returns (r: bytes)
    requires s0 < 64 && s1 < 64 && s2 < 64 && s3 < 64
    ensures r == Bytes3(s0, s1, s2, s3)
  {
    var triple := s0 * 0x4_0000 + s1 * 0x1000 + s2 * 0x40 + s3;
    WordBytes(s0, s1, s2, s3);
    r := [triple / 0x1_0000 % 0x100, triple / 0x100 % 0x100, triple % 0x100];
  }

  /** The sextets of the first n digits at i (zeros behind them), or None when one is no digit. */
  method GetSextets(base: bytes, i: nat, n: nat, a: Alphabet) returns (r: Option<seq<nat>>)
    requires n <= 4 && i + n <= |base|
    ensures r.Some? <==> AllDigits(base[i..i + n], a)
    ensures r.Some? ==> |r.value| == 4 && forall j :: 0 <= j < 4 ==>
      r.value[j] == (if j < n then Sextet(a, base[i..i + n][j]) else 0) && r.value[j] < 64
  {
    ghost var g := base[i..i + n];
    var v: seq<nat> := [];
    var j := 0;
    while j < n
      invariant 0 <= j <= n && |v| == j
      invariant forall k :: 0 <= k < j ==> v[k] == Sextet(a, g[k]) && v[k] < 64
    {
      var x := GetSextet(a, base[i + j]);
      assert g[j] == base[i + j] && g[j] in g;
      if x < 0 {
        return None;
      }
      v := v + [x];
      j := j + 1;
    }
    r := Some(v + seq(4 - n, _ => 0));
  }

  /** One turn of base::decode: the four digits at i appended to the output, None at a byte that is no digit. */
  method ReadQuad(t: bytes, i: nat, a: Alphabet, res: bytes) returns (next: Option<bytes>)
    requires i + 4 <= |t|
    ensures Behind(res, t[i..], a) == match next case None => None case Some(r) => Behind(r, t[i + 4..], a)
  {
    var v := GetSextets(t, i, 4, a);
    assert t[i..] == t[i..i + 4] + t[i + 4..];
    if v.None? {
      DigitsConcat(t[i..i + 4], t[i + 4..], a);
      return None;
    }
    var b := ReadWord(v.value[0], v.value[1], v.value[2], v.value[3]);
    BehindQuad(res, t[i..i + 4], t[i + 4..], b, a);
    return Some(res + b);
  }

  /** A quad in front of the rest: its bytes go to the output. */
  lemma BehindQuad(res: bytes, q: bytes, rest: bytes, b: bytes, a: Alphabet)
    requires |q| == 4 && AllDigits(q, a)
    requires b == Bytes3(Sextet(a, q[0]), Sextet(a, q[1]), Sextet(a, q[2]), Sextet(a, q[3]))
    ensures Behind(res, q + rest, a) == Behind(res + b, rest, a)
  {
    DigitsConcat(q, rest, a);
    if AllDigits(rest, a) {
      assert (q + rest)[4..] == rest;
      assert Undigits(q + rest, a) == b + Undigits(rest, a);
      assert res + (b + Undigits(rest, a)) == (res + b) + Undigits(rest, a);
    }
  }

  /** The output so far followed by what the digits t still give. */
  function Behind(res: bytes, t: bytes, a: Alphabet): Option<bytes> {
    if AllDigits(t, a) then Some(res + Undigits(t, a)) else None
  }

  lemma DigitsConcat(x: bytes, y: bytes, a: Alphabet)
    ensures AllDigits(x + y, a) <==> AllDigits(x, a) && AllDigits(y, a)
  {
    forall c | c in x ensures c in x + y {}
    forall c | c in y ensures c in x + y {}
  }

  /** The last two or three digits. */
  method ReadRest(t: bytes, i: nat, a: Alphabet, res: bytes) returns (r: Option<bytes>)
    requires i <= |t| && |t| - i in {2, 3}
    ensures r == Behind(res, t[i..], a)
  {
    var n := |t| - i;
    var v := GetSextets(t, i, n, a);
    assert t[i..i + n] == t[i..];
    if v.None? {
      return None;
    }
    var b := ReadWord(v.value[0], v.value[1], v.value[2], v.value[3]);
    return Some(res + b[..n - 1]);
  }

  /** base::decode behind the fill count: the whole quads, then what is left. */
  method DecodeDigits(t: bytes, a: Alphabet) returns (r: Option<bytes>)
    requires |t| % 4 != 1
    ensures r == if AllDigits(t, a) then Some(Undigits(t, a)) else None
  {
    var fast := |t| - |t| % 4;
    var res: bytes := [];
    var i := 0;
    assert t[0..] == t;
    while i < fast
      invariant 0 <= i <= fast && (fast - i) % 4 == 0
      invariant Behind([], t, a) == Behind(res, t[i..], a)
    {
      var next := ReadQuad(t, i, a, res);
      if next.None? {
        return None;
      }
      res, i := next.value, i + 4;
    }
    BehindNothing(t, a);
    if fast == |t| {
      assert t[i..] == [] && res + [] == res;
      return Some(res);
    }
    r := ReadRest(t, fast, a, res);
  }

  lemma BehindNothing(t: bytes, a: Alphabet)
    ensures Behind([], t, a) == if AllDigits(t, a) then Some(Undigits(t, a)) else None
  {
    if AllDigits(t, a) {
      assert [] + Undigits(t, a) == Undigits(t, a);
    }
  }

  lemma NeverOne(size: nat, cnt: nat)
    requires (size + cnt) % 4 == 0 && cnt <= 2
    ensures size % 4 != 1
  {
    var q, r := size / 4, size % 4;
    if r + cnt < 4 {
      DivMod(size + cnt, 4, q, r + cnt);
    }
  }

  /** base::decode. */
  method DecodeText(base: bytes, a: Alphabet) returns (r: Option<bytes>)
    ensures r == Decode(base, a)
  {
    var n := CountFills(base, a);
    if n.None? {
      return None;
    }
    var (cnt, size) := n.value;
    if (size + cnt) % 4 != 0 {
      return None;
    }
    NeverOne(size, cnt);
    r := DecodeDigits(base[..size], a);
  }

  /** base::pad. */
  method PadText(base: bytes, a: Alphabet) returns (r: bytes)
    ensures r == Pad(base, a)
  {
    var padding: bytes := [];
    RepeatTwice(Fill(a));
    if |base| % 4 == 1 {
      padding := padding + Fill(a);
    }
    if |base| % 4 == 1 || |base| % 4 == 2 {
      padding := padding + Fill(a);
    }
    if |base| % 4 != 0 {
      padding := padding + Fill(a);
    }
    r := base + padding;
    assert [] + Fill(a) == Fill(a);
  }

  function Pad(base: bytes, a: Alphabet): bytes {
    base + Repeat(Fill(a), Missing(|base|))
  }

  /** Where a fill first occurs in s, |s| when it does not. */
  function FindFill(s: bytes, fill: bytes): (n: nat)
    ensures n <= |s|
  {
    if s == [] || (|s| >= |fill| && s[..|fill|] == fill) then 0 else 1 + FindFill(s[1..], fill)
  }

  /** base::trim: everything before the first fill. */
  function Trim(s: bytes, a: Alphabet): bytes {
    s[..FindFill(s, Fill(a))]
  }
}
