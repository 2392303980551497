/** The wire form of Base64, as section 4 of RFC 4648 defines it: the alphabet of its table 1 at the
    six-bit values of the bit string, filled up with `=`. */
module Base64Wire {
  import opened Wrappers
  import opened Utf8
  import opened Base64

  const UPPER := "ABCDEFGHIJKLMNOPQRSTUVWXYZ"
  const LOWER := "abcdefghijklmnopqrstuvwxyz"
  const DIGITS := "0123456789"

  /** Table 1, read by value from 0 to 63. */
  const ALPHABET := UPPER + LOWER + DIGITS + "+/"

  lemma UpperAt(k: nat)
    requires k < 26
    ensures |UPPER| == 26 && UPPER[k] as int == 65 + k
  {
  }

  lemma LowerAt(k: nat)
    requires k < 26
    ensures |LOWER| == 26 && LOWER[k] as int == 97 + k
  {
  }

  lemma DigitAt(k: nat)
    requires k < 10
    ensures |DIGITS| == 10 && DIGITS[k] as int == 48 + k
  {
  }

  lemma FourParts(a: string, b: string, c: string, d: string, v: nat)
    requires v < |a| + |b| + |c| + |d|
    ensures (a + b + c + d)[v] ==
              if v < |a| then a[v]
              else if v < |a| + |b| then b[v - |a|]
              else if v < |a| + |b| + |c| then c[v - |a| - |b|]
              else d[v - |a| - |b| - |c|]
  {
  }

  /** The digits of the encoder are those of the table. */
  lemma DigitIsTable(v: int)
    requires 0 <= v < 64
    ensures |ALPHABET| == 64 && Digit(v) == ALPHABET[v]
  {
    UpperAt(if v < 26 then v else 0);
    LowerAt(if 26 <= v < 52 then v - 26 else 0);
    DigitAt(if 52 <= v < 62 then v - 52 else 0);
    FourParts(UPPER, LOWER, DIGITS, "+/", v);
  }

  /** Bit `j` of a byte, the most significant first. */
  function ByteBit(x: Byte, j: nat): int
    requires j < 8
  {
    if j == 0 then x / 128
    else if j == 1 then x / 64 % 2
    else if j == 2 then x / 32 % 2
    else if j == 3 then x / 16 % 2
    else if j == 4 then x / 8 % 2
    else if j == 5 then x / 4 % 2
    else if j == 6 then x / 2 % 2
    else x % 2
  }

  /** Bit `i` of the bit string of `b`, with zero bits after its end. */
  function Bit(b: seq<Byte>, i: nat): int {
    if i / 8 < |b| then ByteBit(b[i / 8], i % 8) else 0
  }

  /** The number that the six bits from `i` on spell. */
  function SixBits(b: seq<Byte>, i: nat): int {
    32 * Bit(b, i) + 16 * Bit(b, i + 1) + 8 * Bit(b, i + 2) + 4 * Bit(b, i + 3) + 2 * Bit(b, i + 4) + Bit(b, i + 5)
  }

  lemma Halves(x: Byte)
    ensures x / 64 == 2 * (x / 128) + x / 64 % 2
    ensures x / 32 == 2 * (x / 64) + x / 32 % 2
    ensures x / 16 == 2 * (x / 32) + x / 16 % 2
    ensures x / 8 == 2 * (x / 16) + x / 8 % 2
    ensures x / 4 == 2 * (x / 8) + x / 4 % 2
    ensures x / 2 == 2 * (x / 4) + x / 2 % 2
    ensures x == 2 * (x / 2) + x % 2
  {
  }

  lemma Remainders(x: Byte)
    ensures x % 4 == x - 4 * (x / 4) && x % 16 == x - 16 * (x / 16) && x % 64 == x - 64 * (x / 64)
  {
  }

  lemma ByteSums(x: Byte)
    ensures x / 4 == 32 * ByteBit(x, 0) + 16 * ByteBit(x, 1) + 8 * ByteBit(x, 2) + 4 * ByteBit(x, 3) + 2 * ByteBit(x, 4) + ByteBit(x, 5)
    ensures x % 4 == 2 * ByteBit(x, 6) + ByteBit(x, 7)
    ensures x / 16 == 8 * ByteBit(x, 0) + 4 * ByteBit(x, 1) + 2 * ByteBit(x, 2) + ByteBit(x, 3)
    ensures x % 16 == 8 * ByteBit(x, 4) + 4 * ByteBit(x, 5) + 2 * ByteBit(x, 6) + ByteBit(x, 7)
    ensures x / 64 == 2 * ByteBit(x, 0) + ByteBit(x, 1)
    ensures x % 64 == 32 * ByteBit(x, 2) + 16 * ByteBit(x, 3) + 8 * ByteBit(x, 4) + 4 * ByteBit(x, 5) + 2 * ByteBit(x, 6) + ByteBit(x, 7)
  {
    Halves(x);
    Remainders(x);
  }

  lemma ByteBits(b: seq<Byte>, i: nat)
    requires i < |b|
    ensures forall j: nat :: j < 8 ==> Bit(b, 8 * i + j) == ByteBit(b[i], j)
  {
    forall j: nat | j < 8
      ensures Bit(b, 8 * i + j) == ByteBit(b[i], j)
    {
      assert (8 * i + j) / 8 == i && (8 * i + j) % 8 == j;
    }
  }

  lemma NoBits(b: seq<Byte>, i: nat)
    requires 8 * |b| <= i
    ensures Bit(b, i) == 0
  {
  }

  lemma FirstByte(b: seq<Byte>)
    requires |b| > 0
    ensures SixBits(b, 0) == b[0] / 4
    ensures b[0] % 4 == 2 * Bit(b, 6) + Bit(b, 7)
  {
    ByteSums(b[0]);
    ByteBits(b, 0);
    assert Bit(b, 8 * 0 + 0) == ByteBit(b[0], 0) && Bit(b, 8 * 0 + 1) == ByteBit(b[0], 1);
    assert Bit(b, 8 * 0 + 2) == ByteBit(b[0], 2) && Bit(b, 8 * 0 + 3) == ByteBit(b[0], 3);
    assert Bit(b, 8 * 0 + 4) == ByteBit(b[0], 4) && Bit(b, 8 * 0 + 5) == ByteBit(b[0], 5);
    assert Bit(b, 8 * 0 + 6) == ByteBit(b[0], 6) && Bit(b, 8 * 0 + 7) == ByteBit(b[0], 7);
  }

  lemma SecondByte(b: seq<Byte>)
    ensures (if |b| > 1 then b[1] / 16 else 0) == 8 * Bit(b, 8) + 4 * Bit(b, 9) + 2 * Bit(b, 10) + Bit(b, 11)
    ensures (if |b| > 1 then b[1] % 16 else 0) == 8 * Bit(b, 12) + 4 * Bit(b, 13) + 2 * Bit(b, 14) + Bit(b, 15)
  {
    if |b| > 1 {
      ByteSums(b[1]);
      ByteBits(b, 1);
      assert Bit(b, 8 * 1 + 0) == ByteBit(b[1], 0) && Bit(b, 8 * 1 + 1) == ByteBit(b[1], 1);
      assert Bit(b, 8 * 1 + 2) == ByteBit(b[1], 2) && Bit(b, 8 * 1 + 3) == ByteBit(b[1], 3);
      assert Bit(b, 8 * 1 + 4) == ByteBit(b[1], 4) && Bit(b, 8 * 1 + 5) == ByteBit(b[1], 5);
      assert Bit(b, 8 * 1 + 6) == ByteBit(b[1], 6) && Bit(b, 8 * 1 + 7) == ByteBit(b[1], 7);
    }
  }

  lemma ThirdByte(b: seq<Byte>)
    ensures (if |b| > 2 then b[2] / 64 else 0) == 2 * Bit(b, 16) + Bit(b, 17)
    ensures |b| > 2 ==> SixBits(b, 18) == b[2] % 64
  {
    if |b| > 2 {
      ByteSums(b[2]);
      ByteBits(b, 2);
      assert Bit(b, 8 * 2 + 0) == ByteBit(b[2], 0) && Bit(b, 8 * 2 + 1) == ByteBit(b[2], 1);
      assert Bit(b, 8 * 2 + 2) == ByteBit(b[2], 2) && Bit(b, 8 * 2 + 3) == ByteBit(b[2], 3);
      assert Bit(b, 8 * 2 + 4) == ByteBit(b[2], 4) && Bit(b, 8 * 2 + 5) == ByteBit(b[2], 5);
      assert Bit(b, 8 * 2 + 6) == ByteBit(b[2], 6) && Bit(b, 8 * 2 + 7) == ByteBit(b[2], 7);
    }
  }

  lemma FirstSextets(b: seq<Byte>)
    requires b != []
    ensures SixBits(b, 0) == b[0] / 4
    ensures SixBits(b, 6) == b[0] % 4 * 16 + (if |b| > 1 then b[1] / 16 else 0)
    ensures |b| > 1 ==> SixBits(b, 12) == b[1] % 16 * 4 + (if |b| > 2 then b[2] / 64 else 0)
    ensures |b| > 2 ==> SixBits(b, 18) == b[2] % 64
  {
    FirstByte(b);
    SecondByte(b);
    ThirdByte(b);
  }

  lemma LaterBit(b: seq<Byte>, j: nat)
    requires |b| >= 3
    ensures Bit(b[3..], j) == Bit(b, j + 24)
  {
    assert (j + 24) / 8 == j / 8 + 3 && (j + 24) % 8 == j % 8;
  }

  lemma LaterSextets(b: seq<Byte>, i: nat)
    requires |b| >= 3
    ensures SixBits(b[3..], i) == SixBits(b, i + 24)
  {
    LaterBit(b, i);
    LaterBit(b, i + 1);
    LaterBit(b, i + 2);
    LaterBit(b, i + 3);
    LaterBit(b, i + 4);
    LaterBit(b, i + 5);
  }

  lemma SixBitsInRange(b: seq<Byte>, i: nat)
    ensures 0 <= SixBits(b, i) < 64
  {
    forall j: nat
      ensures 0 <= Bit(b, j) <= 1
    {
    }
  }

  /** The character at position `k` of the wire form of `b`. */
  function WireChar(b: seq<Byte>, k: nat): char {
    SixBitsInRange(b, 6 * k);
    AlphabetSize();
    if 6 * k < 8 * |b| then ALPHABET[SixBits(b, 6 * k)] else '='
  }

  lemma AlphabetSize()
    ensures |ALPHABET| == 64
  {
    DigitIsTable(0);
  }

  lemma Written(b: seq<Byte>, k: nat, v: int)
    requires 6 * k < 8 * |b| && 0 <= v < 64 && v == SixBits(b, 6 * k)
    ensures WireChar(b, k) == Digit(v)
  {
    DigitIsTable(v);
  }

  lemma WireCharLater(b: seq<Byte>, k: nat)
    requires |b| >= 3
    ensures WireChar(b[3..], k) == WireChar(b, k + 4)
  {
    LaterSextets(b, 6 * k);
  }

  lemma FirstTwo(b: seq<Byte>)
    requires b != []
    ensures |EncodeBase64(b)| >= 4
    ensures EncodeBase64(b)[0] == WireChar(b, 0) && EncodeBase64(b)[1] == WireChar(b, 1)
  {
    FirstSextets(b);
    Written(b, 0, b[0] / 4);
    Written(b, 1, b[0] % 4 * 16 + (if |b| > 1 then b[1] / 16 else 0));
  }

  lemma ThirdChar(b: seq<Byte>)
    requires b != []
    ensures |EncodeBase64(b)| >= 4 && EncodeBase64(b)[2] == WireChar(b, 2)
  {
    if |b| > 1 {
      FirstSextets(b);
      Written(b, 2, b[1] % 16 * 4 + (if |b| > 2 then b[2] / 64 else 0));
    }
  }

  lemma FourthChar(b: seq<Byte>)
    requires b != []
    ensures |EncodeBase64(b)| >= 4 && EncodeBase64(b)[3] == WireChar(b, 3)
  {
    if |b| > 2 {
      FirstSextets(b);
      Written(b, 3, b[2] % 64);
    }
  }

  lemma RestOf(b: seq<Byte>, k: nat)
    requires |b| >= 3 && k < |EncodeBase64(b[3..])|
    ensures k + 4 < |EncodeBase64(b)| && EncodeBase64(b)[k + 4] == EncodeBase64(b[3..])[k]
  {
    var head := [Digit(b[0] / 4), Digit(b[0] % 4 * 16 + b[1] / 16), Digit(b[1] % 16 * 4 + b[2] / 64), Digit(b[2] % 64)];
    assert EncodeBase64(b) == head + EncodeBase64(b[3..]);
  }

  lemma LongerIsMore(b: seq<Byte>)
    requires |EncodeBase64(b)| > 4
    ensures |b| >= 3 && |EncodeBase64(b)| == 4 + |EncodeBase64(b[3..])|
  {
  }

  /** The length is the least multiple of four that holds all bits. */
  lemma {:induction false} EncodedLength(b: seq<Byte>)
    ensures |EncodeBase64(b)| == (|b| + 2) / 3 * 4
    decreases |b|
  {
    if |b| >= 3 {
      EncodedLength(b[3..]);
      assert |b[3..]| == |b| - 3;
      assert (|b| - 3 + 2) / 3 + 1 == (|b| + 2) / 3;
    }
  }

  /** A rule for the characters that is right for the first group and the same for all groups. */
  ghost predicate FitsGroups(rule: (seq<Byte>, nat) -> char) {
    && (forall b: seq<Byte>, k: nat :: k < 4 && k < |EncodeBase64(b)| ==> EncodeBase64(b)[k] == rule(b, k))
    && (forall b: seq<Byte>, k: nat :: |b| >= 3 ==> rule(b[3..], k) == rule(b, k + 4))
  }

  lemma {:induction false} GroupByGroup(rule: (seq<Byte>, nat) -> char, b: seq<Byte>, k: nat)
    requires FitsGroups(rule) && k < |EncodeBase64(b)|
    ensures EncodeBase64(b)[k] == rule(b, k)
    decreases |b|
  {
    if k >= 4 {
      LongerIsMore(b);
      GroupByGroup(rule, b[3..], k - 4);
      RestOf(b, k - 4);
      assert rule(b[3..], k - 4) == rule(b, k - 4 + 4);
    }
  }

  lemma FirstFour(b: seq<Byte>, k: nat)
    requires k < 4 && k < |EncodeBase64(b)|
    ensures EncodeBase64(b)[k] == WireChar(b, k)
  {
    if k < 2 {
      FirstTwo(b);
    } else if k == 2 {
      ThirdChar(b);
    } else {
      FourthChar(b);
    }
  }

  /** The encoder writes, at every position of every byte string, the character of the table at the
      value of the six bits that fall on it, and `=` after the last bit. */
  lemma EncodesTheTable(b: seq<Byte>, k: nat)
    requires k < |EncodeBase64(b)|
    ensures EncodeBase64(b)[k] == WireChar(b, k)
  {
    forall x: seq<Byte>, j: nat | j < 4 && j < |EncodeBase64(x)|
      ensures EncodeBase64(x)[j] == WireChar(x, j)
    {
      FirstFour(x, j);
    }
    forall x: seq<Byte>, j: nat | |x| >= 3
      ensures WireChar(x[3..], j) == WireChar(x, j + 4)
    {
      WireCharLater(x, j);
    }
    GroupByGroup(WireChar, b, k);
  }
}
