/** Base64 of section 4 of RFC 4648. */
module Base64 {
  import opened Wrappers
  import opened Utf8

  function Digit(v: int): char
    requires 0 <= v < 64
  {
    if v < 26 then (65 + v) as char
    else if v < 52 then (71 + v) as char
    else if v < 62 then (v - 4) as char
    else if v == 62 then '+'
    else '/'
  }

  function Value(c: char): (v: Option<int>)
    ensures v.Some? ==> 0 <= v.value < 64
  {
    if 'A' <= c <= 'Z' then Some(c as int - 65)
    else if 'a' <= c <= 'z' then Some(c as int - 71)
    else if '0' <= c <= '9' then Some(c as int + 4)
    else if c == '+' then Some(62)
    else if c == '/' then Some(63)
    else None
  }

  lemma ValueOfDigit(v: int)
    requires 0 <= v < 64
    ensures Value(Digit(v)) == Some(v) && Digit(v) != '='
  {
  }

  function EncodeBase64(b: seq<Byte>): string {
    if b == [] then ""
    else if |b| == 1 then [Digit(b[0] / 4), Digit(b[0] % 4 * 16), '=', '=']
    else if |b| == 2 then
      [Digit(b[0] / 4), Digit(b[0] % 4 * 16 + b[1] / 16), Digit(b[1] % 16 * 4), '=']
    else
      [Digit(b[0] / 4), Digit(b[0] % 4 * 16 + b[1] / 16), Digit(b[1] % 16 * 4 + b[2] / 64), Digit(b[2] % 64)]
      + EncodeBase64(b[3..])
  }

  /** One group of four; only the last group may be padded. */
  function DecodeGroup(s: string, last: bool): Option<seq<Byte>>
    requires |s| == 4
  {
    var x, y := Value(s[0]), Value(s[1]);
    if x.None? || y.None? then None
    else
      var first: Byte := x.value * 4 + y.value / 16;
      if last && s[2] == '=' && s[3] == '=' then Some([first])
      else
        var z := Value(s[2]);
        if z.None? then None
        else
          var second: Byte := y.value % 16 * 16 + z.value / 4;
          if last && s[3] == '=' then Some([first, second])
          else
            var w := Value(s[3]);
            if w.None? then None else Some([first, second, z.value % 4 * 64 + w.value])
  }

  function DecodeBase64(s: string): Option<seq<Byte>> {
    if s == "" then Some([])
    else if |s| < 4 then None
    else
      var group := DecodeGroup(s[..4], |s| == 4);
      var rest := DecodeBase64(s[4..]);
      if group.None? || rest.None? then None else Some(group.value + rest.value)
  }

  /** The sextets of up to three bytes, put together again. */
  lemma Sextets(x: int, y: int, z: int)
    requires 0 <= x < 256 && 0 <= y < 256 && 0 <= z < 256
    ensures x / 4 * 4 + x % 4 * 16 / 16 == x
    ensures x / 4 * 4 + (x % 4 * 16 + y / 16) / 16 == x
    ensures (x % 4 * 16 + y / 16) % 16 * 16 + y % 16 * 4 / 4 == y
    ensures (x % 4 * 16 + y / 16) % 16 * 16 + (y % 16 * 4 + z / 64) / 4 == y
    ensures (y % 16 * 4 + z / 64) % 4 * 64 + z % 64 == z
  {
  }

  lemma GroupRoundTrip(b: seq<Byte>, last: bool)
    requires 1 <= |b| <= 3 && (|b| < 3 ==> last)
    ensures |EncodeBase64(b)| == 4 && DecodeGroup(EncodeBase64(b), last) == Some(b)
  {
    if |b| == 1 {
      OneByte(b[0]);
      assert b == [b[0]];
    } else if |b| == 2 {
      TwoBytes(b[0], b[1]);
      assert b == [b[0], b[1]];
    } else {
      ThreeBytes(b[0], b[1], b[2], last);
      assert b == [b[0], b[1], b[2]];
    }
  }

  lemma DecodesTwo(p: int, q: int)
    requires 0 <= p < 64 && 0 <= q < 64
    ensures DecodeGroup([Digit(p), Digit(q), '=', '='], true) == Some([p * 4 + q / 16])
  {
    ValueOfDigit(p);
    ValueOfDigit(q);
  }

  lemma DecodesThree(p: int, q: int, r: int)
    requires 0 <= p < 64 && 0 <= q < 64 && 0 <= r < 64
    ensures DecodeGroup([Digit(p), Digit(q), Digit(r), '='], true) == Some([p * 4 + q / 16, q % 16 * 16 + r / 4])
  {
    ValueOfDigit(p);
    ValueOfDigit(q);
    ValueOfDigit(r);
  }

  lemma OneByte(x: Byte)
    ensures |EncodeBase64([x])| == 4 && DecodeGroup(EncodeBase64([x]), true) == Some([x])
  {
    DecodesTwo(x / 4, x % 4 * 16);
    Sextets(x, 0, 0);
  }

  lemma TwoBytes(x: Byte, y: Byte)
    ensures |EncodeBase64([x, y])| == 4 && DecodeGroup(EncodeBase64([x, y]), true) == Some([x, y])
  {
    DecodesThree(x / 4, x % 4 * 16 + y / 16, y % 16 * 4);
    Sextets(x, y, 0);
  }

  lemma EncodesThree(x: Byte, y: Byte, z: Byte)
    ensures EncodeBase64([x, y, z])
         == [Digit(x / 4), Digit(x % 4 * 16 + y / 16), Digit(y % 16 * 4 + z / 64), Digit(z % 64)]
  {
    assert [x, y, z][3..] == [];
  }

  lemma DecodesFour(p: int, q: int, r: int, s: int, last: bool)
    requires 0 <= p < 64 && 0 <= q < 64 && 0 <= r < 64 && 0 <= s < 64
    ensures DecodeGroup([Digit(p), Digit(q), Digit(r), Digit(s)], last)
         == Some([p * 4 + q / 16, q % 16 * 16 + r / 4, r % 4 * 64 + s])
  {
    ValueOfDigit(p);
    ValueOfDigit(q);
    ValueOfDigit(r);
    ValueOfDigit(s);
  }

  lemma ThreeBytes(x: Byte, y: Byte, z: Byte, last: bool)
    ensures |EncodeBase64([x, y, z])| == 4 && DecodeGroup(EncodeBase64([x, y, z]), last) == Some([x, y, z])
  {
    EncodesThree(x, y, z);
    Sextets(x, y, z);
    DecodesFour(x / 4, x % 4 * 16 + y / 16, y % 16 * 4 + z / 64, z % 64, last);
  }

  lemma {:induction false} DecodeEncodeBase64(b: seq<Byte>)
    ensures DecodeBase64(EncodeBase64(b)) == Some(b)
  {
    if 1 <= |b| <= 3 {
      var s := EncodeBase64(b);
      GroupRoundTrip(b, true);
      assert s[..4] == s && s[4..] == "";
      assert b + [] == b;
    } else if |b| > 3 {
      var head, tail := b[..3], b[3..];
      GroupRoundTrip(head, false);
      GroupRoundTrip(head, true);
      DecodeEncodeBase64(tail);
      NonEmptyEncoding(tail);
      assert head[3..] == [];
      var s := EncodeBase64(b);
      assert s[..4] == EncodeBase64(head);
      assert s[4..] == EncodeBase64(tail);
      assert head + tail == b;
    }
  }

  lemma NonEmptyEncoding(b: seq<Byte>)
    requires b != []
    ensures |EncodeBase64(b)| >= 4
  {
  }

  /** Every encoded character is a base64 digit or padding: printable and not a space. */
  lemma {:induction false} EncodedIsPrintable(b: seq<Byte>)
    ensures forall c :: c in EncodeBase64(b) ==> 0x20 < c as int < 0x7F && c != '?'
  {
    if |b| >= 3 {
      EncodedIsPrintable(b[3..]);
    }
  }
}
