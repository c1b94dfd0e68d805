/** The alphabets of RFC 4648 as tables, and the encoding bit by bit. */
module Base64Tables {
  import opened Arithmetic
  import opened Base64
  import opened Base64Laws
  import opened Bytes

  const UPPER: string := "ABCDEFGHIJKLMNOPQRSTUVWXYZ"
  const LOWER: string := "abcdefghijklmnopqrstuvwxyz"
  const DECIMAL: string := "0123456789"

  /** Table 1 and table 2 of RFC 4648. */
  function Table(a: Alphabet): (t: string)
    ensures |t| == 64
  {
    UPPER + LOWER + DECIMAL + if a == Standard then "+/" else "-_"
  }

  lemma LetterAt(i: nat)
    requires i < 26
    ensures UPPER[i] as int == 'A' as int + i && LOWER[i] as int == 'a' as int + i
  {
  }

  lemma DecimalAt(i: nat)
    requires i < 10
    ensures DECIMAL[i] as int == '0' as int + i
  {
  }

  /** The digits are the entries of the table. */
  lemma DigitIsTable(a: Alphabet, i: nat)
    requires i < 64
    ensures Digit(a, i) == Table(a)[i] as int
  {
    if i < 26 {
      LetterAt(i);
    } else if i < 52 {
      LetterAt(i - 26);
      assert Table(a)[i] == LOWER[i - 26];
    } else if i < 62 {
      DecimalAt(i - 52);
      assert Table(a)[i] == DECIMAL[i - 52];
    }
  }

  /** A byte is decoded to its place in the table, and refused exactly when it has none. */
  lemma SextetIsTable(a: Alphabet, c: byte)
    ensures forall i: nat :: i < 64 ==> (Table(a)[i] as int == c <==> Sextet(a, c) == i)
    ensures Sextet(a, c) == -1 <==> forall i: nat :: i < 64 ==> Table(a)[i] as int != c
  {
    forall i: nat | i < 64 ensures Table(a)[i] as int == c <==> Sextet(a, c) == i {
      DigitIsTable(a, i);
      SextetOfDigit(a, i);
      if Sextet(a, c) == i {
        DigitOfSextet(a, c);
      }
    }
    if Sextet(a, c) >= 0 {
      assert Table(a)[Sextet(a, c)] as int == c;
    }
  }

  // ----- the bits of a byte string -----

  /** Bit k of x, the highest bit of each byte first; 0 behind the end. */
  function Bit(x: bytes, k: nat): (b: nat)
    ensures b < 2
    decreases |x|
  {
    if x == [] then 0
    else if k < 8 then x[0] / [128, 64, 32, 16, 8, 4, 2, 1][k] % 2
    else Bit(x[1..], k - 8)
  }

  /** The number of bits k to k + 5. */
  function SixBits(x: bytes, k: nat): (v: nat)
    ensures v < 64
  {
    Bit(x, k) * 32 + Bit(x, k + 1) * 16 + Bit(x, k + 2) * 8 + Bit(x, k + 3) * 4 + Bit(x, k + 4) * 2 + Bit(x, k + 5)
  }

  lemma BitsOfRest(x: bytes, k: nat)
    requires |x| >= 3
    ensures Bit(x, k + 24) == Bit(x[3..], k)
  {
    assert Bit(x, k + 24) == Bit(x[1..], k + 16);
    assert Bit(x[1..], k + 16) == Bit(x[1..][1..], k + 8);
    assert x[1..][1..][1..] == x[3..];
  }

  lemma SixBitsOfRest(x: bytes, k: nat)
    requires |x| >= 3
    ensures SixBits(x, k + 24) == SixBits(x[3..], k)
  {
    BitsOfRest(x, k);
    BitsOfRest(x, k + 1);
    BitsOfRest(x, k + 2);
    BitsOfRest(x, k + 3);
    BitsOfRest(x, k + 4);
    BitsOfRest(x, k + 5);
  }

  /** Byte i of x, 0 behind the end. */
  function ByteAt(x: bytes, i: nat): byte {
    if i < |x| then x[i] else 0
  }

  lemma {:induction false} BitOfByte(x: bytes, i: nat, j: nat)
    requires j < 8
    ensures Bit(x, 8 * i + j) == ByteAt(x, i) / [128, 64, 32, 16, 8, 4, 2, 1][j] % 2
  {
    if i > 0 && x != [] {
      BitOfByte(x[1..], i - 1, j);
    }
  }

  lemma Halve(b: nat, k: nat)
    requires k > 0
    ensures b / k == b / (2 * k) * 2 + b / k % 2
  {
    var q, r := b / k / 2, b / k % 2;
    assert b == (q * 2 + r) * k + b % k;
    assert r == 0 || r == 1;
    DivMod(b, 2 * k, q, r * k + b % k);
  }

  /** A byte is the sum of its bits. */
  lemma ByteBits(b: byte)
    ensures b / 4 == b / 128 % 2 * 32 + b / 64 % 2 * 16 + b / 32 % 2 * 8 + b / 16 % 2 * 4 + b / 8 % 2 * 2 + b / 4 % 2
    ensures b % 4 == b / 2 % 2 * 2 + b / 1 % 2
    ensures b / 16 == b / 128 % 2 * 8 + b / 64 % 2 * 4 + b / 32 % 2 * 2 + b / 16 % 2
    ensures b % 16 == b / 8 % 2 * 8 + b / 4 % 2 * 4 + b / 2 % 2 * 2 + b / 1 % 2
    ensures b / 64 == b / 128 % 2 * 2 + b / 64 % 2
    ensures b % 64 == b / 32 % 2 * 32 + b / 16 % 2 * 16 + b / 8 % 2 * 8 + b / 4 % 2 * 4 + b / 2 % 2 * 2 + b / 1 % 2
  {
    Halve(b, 1);
    Halve(b, 2);
    Halve(b, 4);
    Halve(b, 8);
    Halve(b, 16);
    Halve(b, 32);
    Halve(b, 64);
    DivMod(b / 128, 2, 0, b / 128);
    BitSums(b, b / 2, b / 4, b / 8, b / 16, b / 32, b / 64, b / 128,
            b / 1 % 2, b / 2 % 2, b / 4 % 2, b / 8 % 2, b / 16 % 2, b / 32 % 2, b / 64 % 2);
  }

  lemma BitSums(h0: nat, h1: nat, h2: nat, h3: nat, h4: nat, h5: nat, h6: nat, h7: nat,
                b0: nat, b1: nat, b2: nat, b3: nat, b4: nat, b5: nat, b6: nat)
    requires h0 == h1 * 2 + b0 && h1 == h2 * 2 + b1 && h2 == h3 * 2 + b2 && h3 == h4 * 2 + b3
    requires h4 == h5 * 2 + b4 && h5 == h6 * 2 + b5 && h6 == h7 * 2 + b6
    requires b0 < 2 && b1 < 2 && b2 < 2 && b3 < 2 && b4 < 2 && b5 < 2 && b6 < 2
    ensures h2 == h7 * 32 + b6 * 16 + b5 * 8 + b4 * 4 + b3 * 2 + b2 && h0 % 4 == b1 * 2 + b0
    ensures h4 == h7 * 8 + b6 * 4 + b5 * 2 + b4 && h0 % 16 == b3 * 8 + b2 * 4 + b1 * 2 + b0
    ensures h6 == h7 * 2 + b6 && h0 % 64 == b5 * 32 + b4 * 16 + b3 * 8 + b2 * 4 + b1 * 2 + b0
  {
    DivMod(h0, 4, h2, b1 * 2 + b0);
    DivMod(h0, 16, h4, b3 * 8 + b2 * 4 + b1 * 2 + b0);
    DivMod(h0, 64, h6, b5 * 32 + b4 * 16 + b3 * 8 + b2 * 4 + b1 * 2 + b0);
  }

  /** The four sextets of the first three bytes, zeros completing them. */
  lemma FirstSextets(x: bytes)
    ensures var b0, b1, b2 := ByteAt(x, 0), ByteAt(x, 1), ByteAt(x, 2);
      && SixBits(x, 0) == b0 / 4 && SixBits(x, 6) == b0 % 4 * 16 + b1 / 16
      && SixBits(x, 12) == b1 % 16 * 4 + b2 / 64 && SixBits(x, 18) == b2 % 64
  {
    ByteBits(ByteAt(x, 0));
    ByteBits(ByteAt(x, 1));
    ByteBits(ByteAt(x, 2));
    BitsOfBytes(x);
  }

  lemma BitsOfBytes(x: bytes)
    ensures var b := ByteAt(x, 0);
      && Bit(x, 0) == b / 128 % 2 && Bit(x, 1) == b / 64 % 2 && Bit(x, 2) == b / 32 % 2 && Bit(x, 3) == b / 16 % 2
      && Bit(x, 4) == b / 8 % 2 && Bit(x, 5) == b / 4 % 2 && Bit(x, 6) == b / 2 % 2 && Bit(x, 7) == b / 1 % 2
    ensures var b := ByteAt(x, 1);
      && Bit(x, 8) == b / 128 % 2 && Bit(x, 9) == b / 64 % 2 && Bit(x, 10) == b / 32 % 2 && Bit(x, 11) == b / 16 % 2
      && Bit(x, 12) == b / 8 % 2 && Bit(x, 13) == b / 4 % 2 && Bit(x, 14) == b / 2 % 2 && Bit(x, 15) == b / 1 % 2
    ensures var b := ByteAt(x, 2);
      && Bit(x, 16) == b / 128 % 2 && Bit(x, 17) == b / 64 % 2 && Bit(x, 18) == b / 32 % 2 && Bit(x, 19) == b / 16 % 2
      && Bit(x, 20) == b / 8 % 2 && Bit(x, 21) == b / 4 % 2 && Bit(x, 22) == b / 2 % 2 && Bit(x, 23) == b / 1 % 2
  {
    forall i: nat, j: nat | i < 3 && j < 8
      ensures Bit(x, 8 * i + j) == ByteAt(x, i) / [128, 64, 32, 16, 8, 4, 2, 1][j] % 2
    {
      BitOfByte(x, i, j);
    }
  }

  // ----- the encoding, digit by digit -----

  lemma FirstDigits(x: bytes, a: Alphabet)
    ensures var q := Quad(ByteAt(x, 0), ByteAt(x, 1), ByteAt(x, 2), a);
      && |Digits(x, a)| >= (if |x| == 0 then 0 else if |x| < 3 then |x| + 1 else 4)
      && (|x| < 3 ==> Digits(x, a) == q[..if |x| == 0 then 0 else |x| + 1])
      && (|x| >= 3 ==> Digits(x, a) == q + Digits(x[3..], a))
  {
  }

  lemma QuadIsSixBits(x: bytes, a: Alphabet)
    ensures Quad(ByteAt(x, 0), ByteAt(x, 1), ByteAt(x, 2), a)
         == [Digit(a, SixBits(x, 0)), Digit(a, SixBits(x, 6)), Digit(a, SixBits(x, 12)), Digit(a, SixBits(x, 18))]
  {
    FirstSextets(x);
  }

  lemma EarlyDigit(x: bytes, a: Alphabet, j: nat)
    requires j < 4 && j < |Digits(x, a)|
    ensures Digits(x, a)[j] == Digit(a, SixBits(x, 6 * j))
  {
    FirstDigits(x, a);
    QuadIsSixBits(x, a);
    assert j == 0 || j == 1 || j == 2 || j == 3;
  }

  lemma LaterDigit(x: bytes, a: Alphabet, j: nat)
    requires 4 <= j < |Digits(x, a)|
    ensures |x| >= 3 && j - 4 < |Digits(x[3..], a)| && Digits(x, a)[j] == Digits(x[3..], a)[j - 4]
  {
    FirstDigits(x, a);
  }

  lemma {:induction false} DigitAt(x: bytes, a: Alphabet, j: nat)
    requires j < |Digits(x, a)|
    ensures Digits(x, a)[j] == Digit(a, SixBits(x, 6 * j))
    decreases |x|
  {
    if j < 4 {
      EarlyDigit(x, a, j);
    } else {
      LaterDigit(x, a, j);
      DigitAt(x[3..], a, j - 4);
      SixBitsOfRest(x, 6 * (j - 4));
      assert 6 * (j - 4) + 24 == 6 * j;
    }
  }

  /** What completes the digits of n bytes: "=" or "%3d", twice for a last byte alone and once for two. */
  function Completion(a: Alphabet, n: nat): string {
    var fill := if a == Standard then "=" else "%3d";
    if n % 3 == 0 then "" else if n % 3 == 1 then fill + fill else fill
  }

  lemma DigitCount(n: nat)
    ensures n / 3 * 4 + (if n % 3 == 0 then 0 else n % 3 + 1) == (8 * n + 5) / 6
  {
    var q, r := n / 3, n % 3;
    DivMod(8 * n + 5, 6, q * 4 + (if r == 0 then 0 else r + 1), if r == 0 then 5 else if r == 1 then 1 else 3);
  }

  lemma CompletionIs(a: Alphabet, n: nat)
    ensures var r, fill := Repeat(Fill(a), if n % 3 == 0 then 0 else 3 - n % 3), Completion(a, n);
      |r| == |fill| && forall j: nat :: j < |fill| ==> r[j] == fill[j] as int
  {
    RepeatTwice(Fill(a));
  }

  lemma EncodeParts(x: bytes, a: Alphabet)
    ensures var d, r := Digits(x, a), Repeat(Fill(a), if |x| % 3 == 0 then 0 else 3 - |x| % 3);
      |d| == (8 * |x| + 5) / 6 && Encode(x, a) == d + r
  {
    DigitsLength(x, a);
    MissingOf(x, a);
    DigitCount(|x|);
  }

  /**
   * Digit j of an encoding is the table's entry for bits 6 * j to 6 * j + 5 of the bytes, there are as many digits as
   * the bits need, and the completion follows.
   */
  lemma EncodeIsTable(x: bytes, a: Alphabet)
    ensures var n, fill := (8 * |x| + 5) / 6, Completion(a, |x|);
      && |Encode(x, a)| == n + |fill|
      && (forall j: nat :: j < n ==> Encode(x, a)[j] == Table(a)[SixBits(x, 6 * j)] as int)
      && forall j: nat :: j < |fill| ==> Encode(x, a)[n + j] == fill[j] as int
  {
    var d := Digits(x, a);
    EncodeParts(x, a);
    CompletionIs(a, |x|);
    forall j: nat | j < |d| ensures d[j] == Table(a)[SixBits(x, 6 * j)] as int {
      DigitAt(x, a, j);
      DigitIsTable(a, SixBits(x, 6 * j));
    }
  }

  // ----- what is decoded -----

  predicate InTable(t: bytes, a: Alphabet) {
    forall c :: c in t ==> exists i: nat :: i < 64 && Table(a)[i] as int == c
  }

  function FillText(a: Alphabet, n: nat): bytes
    requires n <= 2
  {
    if a == Standard then Ascii(["", "=", "=="][n]) else Ascii(["", "%3d", "%3d%3d"][n])
  }

  /** Digits of the table and up to two fills, a multiple of four together. */
  predicate Whole(s: bytes, a: Alphabet, t: bytes, n: nat) {
    n <= 2 && (|t| + n) % 4 == 0 && InTable(t, a) && s == t + FillText(a, n)
  }

  lemma InTableIsDigits(t: bytes, a: Alphabet)
    ensures InTable(t, a) <==> AllDigits(t, a)
  {
    forall c | c in t ensures Sextet(a, c) >= 0 <==> exists i: nat :: i < 64 && Table(a)[i] as int == c {
      SextetIsTable(a, c);
    }
  }

  lemma FillTextIs(a: Alphabet, n: nat)
    requires n <= 2
    ensures FillText(a, n) == Repeat(Fill(a), n)
  {
    RepeatTwice(Fill(a));
  }

  /** Exactly those texts are decoded. */
  lemma DecodeExactly(s: bytes, a: Alphabet)
    ensures Decode(s, a).Some? <==> exists t, n :: Whole(s, a, t, n)
  {
    if Decode(s, a).Some? {
      FillsSplit(s, a);
      FillTextIs(a, Fills(s, a));
      InTableIsDigits(Body(s, a), a);
      assert Whole(s, a, Body(s, a), Fills(s, a));
    }
    if t, n :| Whole(s, a, t, n) {
      FillTextIs(a, n);
      InTableIsDigits(t, a);
      DecodeOfDigits(t, n, a);
    }
  }
}
