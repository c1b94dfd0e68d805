/** The two directions of base.h's codec are inverse, up to the bits that no byte needs. */
module Base64Laws {
  import opened Arithmetic
  import opened Base64
  import opened Bytes
  import opened Wrappers

  lemma {:induction false} UndigitsLength(t: bytes, a: Alphabet)
    requires AllDigits(t, a)
    ensures |Undigits(t, a)| == |t| / 4 * 3 + (if |t| % 4 < 2 then 0 else |t| % 4 - 1)
  {
    if |t| >= 4 {
      assert t == t[..4] + t[4..];
      DigitsConcat(t[..4], t[4..], a);
      UndigitsLength(t[4..], a);
    }
  }

  lemma SextetOfDigit(a: Alphabet, i: nat)
    requires i < 64
    ensures Sextet(a, Digit(a, i)) == i
  {
  }

  /** Regrouping three bytes into sextets and back. */
  lemma Regroup(b0: byte, b1: byte, b2: byte)
    ensures Bytes3(b0 / 4, b0 % 4 * 16 + b1 / 16, b1 % 16 * 4 + b2 / 64, b2 % 64) == [b0, b1, b2]
  {
    DivMod(b0 % 4 * 16 + b1 / 16, 16, b0 % 4, b1 / 16);
    DivMod(b1 % 16 * 4 + b2 / 64, 4, b1 % 16, b2 / 64);
  }

  lemma QuadSextets(b0: byte, b1: byte, b2: byte, a: Alphabet)
    ensures var q := Quad(b0, b1, b2, a);
      Sextet(a, q[0]) == b0 / 4 && Sextet(a, q[1]) == b0 % 4 * 16 + b1 / 16
      && Sextet(a, q[2]) == b1 % 16 * 4 + b2 / 64 && Sextet(a, q[3]) == b2 % 64
  {
    SextetOfDigit(a, b0 / 4);
    SextetOfDigit(a, b0 % 4 * 16 + b1 / 16);
    SextetOfDigit(a, b1 % 16 * 4 + b2 / 64);
    SextetOfDigit(a, b2 % 64);
  }

  lemma QuadRoundTrip(b0: byte, b1: byte, b2: byte, a: Alphabet)
    ensures var q := Quad(b0, b1, b2, a);
      AllDigits(q, a)
      && Bytes3(Sextet(a, q[0]), Sextet(a, q[1]), Sextet(a, q[2]), Sextet(a, q[3])) == [b0, b1, b2]
  {
    QuadSextets(b0, b1, b2, a);
    Regroup(b0, b1, b2);
  }

  lemma ShortRoundTrip(x: bytes, a: Alphabet)
    requires |x| < 3
    ensures AllDigits(ShortDigits(x, a), a) && ShortBytes(ShortDigits(x, a), a) == x
  {
    if x != [] {
      var b1 := if |x| == 2 then x[1] else 0;
      QuadSextets(x[0], b1, 0, a);
      Regroup(x[0], b1, 0);
    }
  }

  lemma {:induction false} UndigitsDigits(x: bytes, a: Alphabet)
    ensures AllDigits(Digits(x, a), a) && Undigits(Digits(x, a), a) == x
    decreases |x|
  {
    if |x| < 3 {
      ShortRoundTrip(x, a);
    } else {
      var q, d := Quad(x[0], x[1], x[2], a), Digits(x[3..], a);
      QuadRoundTrip(x[0], x[1], x[2], a);
      UndigitsDigits(x[3..], a);
      DigitsConcat(q, d, a);
      assert (q + d)[4..] == d;
      assert [x[0], x[1], x[2]] + x[3..] == x;
    }
  }

  lemma DigitsAreNoFill(d: bytes, a: Alphabet)
    requires AllDigits(d, a)
    ensures !EndsInFill(d, Fill(a))
  {
    var n := |d| - |Fill(a)|;
    assert n > 0 ==> d[n..][0] == d[n] && d[n] in d;
  }

  lemma {:induction false} RepeatBack(t: bytes, n: nat)
    requires n > 0
    ensures Repeat(t, n) == Repeat(t, n - 1) + t
  {
    if n > 1 {
      RepeatBack(t, n - 1);
      assert t + (Repeat(t, n - 2) + t) == (t + Repeat(t, n - 2)) + t;
    }
  }

  lemma FillsStep(r: bytes, a: Alphabet)
    requires r != []
    ensures Fills(r + Fill(a), a) == 1 + Fills(r, a) && Body(r + Fill(a), a) == Body(r, a)
  {
    var s := r + Fill(a);
    assert s[|s| - |Fill(a)|..] == Fill(a) && s[..|s| - |Fill(a)|] == r;
  }

  lemma {:induction false} FillsOfText(d: bytes, n: nat, a: Alphabet)
    requires AllDigits(d, a) && (n > 0 ==> d != [])
    ensures var s := d + Repeat(Fill(a), n); Fills(s, a) == n && Body(s, a) == d
  {
    var fill := Fill(a);
    if n == 0 {
      assert d + [] == d;
      DigitsAreNoFill(d, a);
    } else {
      var s, r := d + Repeat(fill, n), d + Repeat(fill, n - 1);
      RepeatBack(fill, n);
      assert s == r + fill;
      FillsOfText(d, n - 1, a);
      FillsStep(r, a);
    }
  }

  lemma MissingFits(k: nat, n: nat)
    requires k % 4 != 1
    ensures n == Missing(k) <==> n <= 2 && (k + n) % 4 == 0
  {
  }

  lemma DecodeOfDigits(d: bytes, n: nat, a: Alphabet)
    requires AllDigits(d, a) && n <= 2 && (|d| + n) % 4 == 0
    ensures Decode(d + Repeat(Fill(a), n), a) == Some(Undigits(d, a))
  {
    FillsOfText(d, n, a);
    assert Complete(d, n, a) == Some(Undigits(d, a));
  }

  lemma DigitsMod(x: bytes, a: Alphabet)
    ensures |Digits(x, a)| % 4 != 1
  {
    DigitsLength(x, a);
  }

  /** Decoding undoes encoding, for every byte string and both alphabets. */
  lemma DecodeEncode(x: bytes, a: Alphabet)
    ensures Decode(Encode(x, a), a) == Some(x)
  {
    var d := Digits(x, a);
    UndigitsDigits(x, a);
    DigitsMod(x, a);
    MissingFits(|d|, Missing(|d|));
    DecodeOfDigits(d, Missing(|d|), a);
  }

  lemma {:induction false} FindFillOfText(d: bytes, n: nat, a: Alphabet)
    requires AllDigits(d, a)
    ensures FindFill(d + Repeat(Fill(a), n), Fill(a)) == |d|
  {
    var fill, s := Fill(a), d + Repeat(Fill(a), n);
    if d == [] {
      assert n > 0 ==> s[..|fill|] == fill;
    } else {
      assert d[0] in d && s[0] == d[0];
      assert |s| >= |fill| ==> s[..|fill|][0] == d[0];
      assert s[1..] == d[1..] + Repeat(fill, n);
      FindFillOfText(d[1..], n, a);
    }
  }

  /** Trimming leaves the digits, and padding puts back exactly the fill that was cut. */
  lemma PadTrim(x: bytes, a: Alphabet)
    ensures Trim(Encode(x, a), a) == Digits(x, a)
    ensures Pad(Trim(Encode(x, a), a), a) == Encode(x, a)
  {
    var d := Digits(x, a);
    UndigitsDigits(x, a);
    FindFillOfText(d, Missing(|d|), a);
    assert Encode(x, a)[..|d|] == d;
  }

  // ----- what decoding forgets -----

  /** The digits t with the bits that no byte needs cleared in the last one. */
  function Cleared(t: bytes, a: Alphabet): bytes
    requires AllDigits(t, a)
  {
    if |t| % 4 < 2 then t
    else
      var v := Sextet(a, t[|t| - 1]);
      t[..|t| - 1] + [Digit(a, v - v % (if |t| % 4 == 2 then 16 else 4))]
  }

  lemma DigitOfSextet(a: Alphabet, c: byte)
    requires Sextet(a, c) >= 0
    ensures Digit(a, Sextet(a, c)) == c
  {
  }

  /** A byte of the form q * k + r comes apart into q and r. */
  lemma Halves(q: nat, r: nat, k: nat)
    requires r < k
    ensures (q * k + r) / k == q && (q * k + r) % k == r
  {
    DivMod(q * k + r, k, q, r);
  }

  lemma Rejoined(s: nat)
    ensures s / 16 * 16 + s % 16 == s && s / 4 * 4 + s % 4 == s
  {
  }

  lemma QuadFrom(b0: byte, b1: byte, b2: byte, s0: nat, s1: nat, s2: nat, s3: nat, a: Alphabet)
    requires s0 < 64 && s1 < 64 && s2 < 64 && s3 < 64
    requires b0 / 4 == s0 && b0 % 4 * 16 + b1 / 16 == s1 && b1 % 16 * 4 + b2 / 64 == s2 && b2 % 64 == s3
    ensures Quad(b0, b1, b2, a) == [Digit(a, s0), Digit(a, s1), Digit(a, s2), Digit(a, s3)]
  {
  }

  lemma QuadOfBytes(s0: nat, s1: nat, s2: nat, s3: nat, a: Alphabet)
    requires s0 < 64 && s1 < 64 && s2 < 64 && s3 < 64
    ensures var b := Bytes3(s0, s1, s2, s3);
      Quad(b[0], b[1], b[2], a) == [Digit(a, s0), Digit(a, s1), Digit(a, s2), Digit(a, s3)]
  {
    Halves(s0, s1 / 16, 4);
    Halves(s1 % 16, s2 / 4, 16);
    Halves(s2 % 4, s3, 64);
    Rejoined(s1);
    Rejoined(s2);
    QuadFrom(s0 * 4 + s1 / 16, s1 % 16 * 16 + s2 / 4, s2 % 4 * 64 + s3, s0, s1, s2, s3, a);
  }

  /** The sextets of one or two bytes whose last bits nothing came from. */
  lemma RegroupShort(s0: nat, s1: nat, s2: nat)
    requires s0 < 64 && s1 < 64 && s2 < 64
    ensures (s0 * 4 + s1 / 16) / 4 == s0 && (s0 * 4 + s1 / 16) % 4 == s1 / 16
    ensures (s1 % 16 * 16 + s2 / 4) / 16 == s1 % 16 && (s1 % 16 * 16 + s2 / 4) % 16 == s2 / 4
    ensures s1 / 16 * 16 + s1 % 16 == s1 && s1 / 16 * 16 == s1 - s1 % 16 && s2 / 4 * 4 == s2 - s2 % 4
  {
    Halves(s0, s1 / 16, 4);
    Halves(s1 % 16, s2 / 4, 16);
    Rejoined(s1);
    Rejoined(s2);
  }

  lemma ShortOfOne(b: byte, s0: nat, v: nat, a: Alphabet)
    requires s0 < 64 && v < 64 && b / 4 == s0 && b % 4 * 16 == v
    ensures ShortDigits([b], a) == [Digit(a, s0), Digit(a, v)]
  {
  }

  lemma ShortOfTwo(b: byte, c: byte, s0: nat, s1: nat, v: nat, a: Alphabet)
    requires s0 < 64 && s1 < 64 && v < 64 && b / 4 == s0 && b % 4 * 16 + c / 16 == s1 && c % 16 * 4 == v
    ensures ShortDigits([b, c], a) == [Digit(a, s0), Digit(a, s1), Digit(a, v)]
  {
  }

  lemma TwoCleared(c0: byte, c1: byte, a: Alphabet)
    requires Sextet(a, c0) >= 0 && Sextet(a, c1) >= 0
    ensures var v := Sextet(a, c1);
      ShortDigits(Bytes3(Sextet(a, c0), v, 0, 0)[..1], a) == [c0, Digit(a, v - v % 16)]
  {
    var s0, s1 := Sextet(a, c0), Sextet(a, c1);
    RegroupShort(s0, s1, 0);
    DigitOfSextet(a, c0);
    var b := s0 * 4 + s1 / 16;
    assert Bytes3(s0, s1, 0, 0)[..1] == [b];
    ShortOfOne(b, s0, s1 - s1 % 16, a);
  }

  lemma ThreeCleared(c0: byte, c1: byte, c2: byte, a: Alphabet)
    requires Sextet(a, c0) >= 0 && Sextet(a, c1) >= 0 && Sextet(a, c2) >= 0
    ensures var v := Sextet(a, c2);
      ShortDigits(Bytes3(Sextet(a, c0), Sextet(a, c1), v, 0)[..2], a) == [c0, c1, Digit(a, v - v % 4)]
  {
    var s0, s1, s2 := Sextet(a, c0), Sextet(a, c1), Sextet(a, c2);
    RegroupShort(s0, s1, s2);
    DigitOfSextet(a, c0);
    DigitOfSextet(a, c1);
    var b, c := s0 * 4 + s1 / 16, s1 % 16 * 16 + s2 / 4;
    assert Bytes3(s0, s1, s2, 0)[..2] == [b, c];
    ShortOfTwo(b, c, s0, s1, s2 - s2 % 4, a);
  }

  lemma ShortCleared(t: bytes, a: Alphabet)
    requires |t| < 4 && |t| != 1 && AllDigits(t, a)
    ensures ShortDigits(ShortBytes(t, a), a) == Cleared(t, a)
  {
    if |t| == 2 {
      assert t == [t[0], t[1]];
      TwoCleared(t[0], t[1], a);
      ClearedTwo(t[0], t[1], a);
    } else if |t| == 3 {
      assert t == [t[0], t[1], t[2]];
      ThreeCleared(t[0], t[1], t[2], a);
      ClearedThree(t[0], t[1], t[2], a);
    }
  }

  lemma ClearedTwo(c0: byte, c1: byte, a: Alphabet)
    requires AllDigits([c0, c1], a)
    ensures var v := Sextet(a, c1); 0 <= v && Cleared([c0, c1], a) == [c0, Digit(a, v - v % 16)]
  {
    assert c1 in [c0, c1];
    assert [c0, c1][..1] == [c0];
  }

  lemma ClearedThree(c0: byte, c1: byte, c2: byte, a: Alphabet)
    requires AllDigits([c0, c1, c2], a)
    ensures var v := Sextet(a, c2); 0 <= v && Cleared([c0, c1, c2], a) == [c0, c1, Digit(a, v - v % 4)]
  {
    assert c2 in [c0, c1, c2];
    assert [c0, c1, c2][..2] == [c0, c1];
  }

  lemma DigitsOfTriple(b: bytes, u: bytes, a: Alphabet)
    requires |b| == 3
    ensures Digits(b + u, a) == Quad(b[0], b[1], b[2], a) + Digits(u, a)
  {
    assert (b + u)[3..] == u;
  }

  lemma {:induction false} DigitsUndigits(t: bytes, a: Alphabet)
    requires AllDigits(t, a) && |t| % 4 != 1
    ensures Digits(Undigits(t, a), a) == Cleared(t, a)
    decreases |t|
  {
    if |t| < 4 {
      ShortCleared(t, a);
    } else {
      DigitsUndigits(t[4..], a);
      QuadOfDigits(t[0], t[1], t[2], t[3], a);
      var b := Bytes3(Sextet(a, t[0]), Sextet(a, t[1]), Sextet(a, t[2]), Sextet(a, t[3]));
      PrependQuad(t, b, Undigits(t[4..], a), a);
    }
  }

  lemma QuadOfDigits(c0: byte, c1: byte, c2: byte, c3: byte, a: Alphabet)
    requires Sextet(a, c0) >= 0 && Sextet(a, c1) >= 0 && Sextet(a, c2) >= 0 && Sextet(a, c3) >= 0
    ensures var b := Bytes3(Sextet(a, c0), Sextet(a, c1), Sextet(a, c2), Sextet(a, c3));
      Quad(b[0], b[1], b[2], a) == [c0, c1, c2, c3]
  {
    QuadOfBytes(Sextet(a, c0), Sextet(a, c1), Sextet(a, c2), Sextet(a, c3), a);
    DigitOfSextet(a, c0);
    DigitOfSextet(a, c1);
    DigitOfSextet(a, c2);
    DigitOfSextet(a, c3);
  }

  lemma PrependQuad(t: bytes, b: bytes, u: bytes, a: Alphabet)
    requires AllDigits(t, a) && |t| >= 4 && |b| == 3
    requires Quad(b[0], b[1], b[2], a) == [t[0], t[1], t[2], t[3]] && Digits(u, a) == Cleared(t[4..], a)
    ensures Digits(b + u, a) == Cleared(t, a)
  {
    DigitsOfTriple(b, u, a);
    ClearedTail(t, a);
  }

  lemma ClearedTail(t: bytes, a: Alphabet)
    requires AllDigits(t, a) && |t| >= 4
    ensures Cleared(t, a) == [t[0], t[1], t[2], t[3]] + Cleared(t[4..], a)
  {
    DivMod(|t| - 4, 4, |t| / 4 - 1, |t| % 4);
    if |t| % 4 < 2 {
      assert t == [t[0], t[1], t[2], t[3]] + t[4..];
    } else {
      assert t[4..][|t| - 5] == t[|t| - 1];
      assert t[..|t| - 1] == [t[0], t[1], t[2], t[3]] + t[4..][..|t| - 5];
    }
  }

  lemma {:induction false} FillsSplit(s: bytes, a: Alphabet)
    ensures s == Body(s, a) + Repeat(Fill(a), Fills(s, a))
    decreases |s|
  {
    var fill := Fill(a);
    if EndsInFill(s, fill) {
      var r := s[..|s| - |fill|];
      FillsSplit(r, a);
      RepeatBack(fill, Fills(r, a) + 1);
      assert s == r + fill;
      Assoc(Body(r, a), Repeat(fill, Fills(r, a)), fill);
    }
  }

  lemma EncodeOfUndigits(t: bytes, n: nat, a: Alphabet)
    requires AllDigits(t, a) && n <= 2 && (|t| + n) % 4 == 0
    ensures Encode(Undigits(t, a), a) == Cleared(t, a) + Repeat(Fill(a), n)
  {
    MissingFits(|t|, n);
    DigitsUndigits(t, a);
    assert |Cleared(t, a)| == |t|;
  }

  /**
   * Encoding an accepted text's bytes gives the text again, with the unused bits of its last digit cleared
   * (section 3.5 of RFC 4648); it gives the very text exactly when they were clear.
   */
  lemma EncodeDecode(s: bytes, a: Alphabet)
    requires Decode(s, a).Some?
    ensures s == Body(s, a) + Repeat(Fill(a), Fills(s, a))
    ensures Encode(Decode(s, a).value, a) == Cleared(Body(s, a), a) + Repeat(Fill(a), Fills(s, a))
    ensures Encode(Decode(s, a).value, a) == s <==> Cleared(Body(s, a), a) == Body(s, a)
  {
    var t := Body(s, a);
    FillsSplit(s, a);
    EncodeOfUndigits(t, Fills(s, a), a);
    SameTail(t, Cleared(t, a), Repeat(Fill(a), Fills(s, a)));
  }

  lemma SameTail(x: bytes, y: bytes, t: bytes)
    requires |x| == |y|
    ensures x + t == y + t <==> x == y
  {
    assert (x + t)[..|x|] == x && (y + t)[..|y|] == y;
  }
}
