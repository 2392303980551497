/** UTF-8 over Unicode scalar values, strict in both directions. */
module Utf8 {
  import opened Wrappers

  type Byte = b: int | 0 <= b < 256 witness 0

  function EncodeChar(c: char): (bytes: seq<Byte>)
    ensures 1 <= |bytes| <= 4
  {
    var n := c as int;
    if n < 0x80 then [n]
    else if n < 0x800 then [0xC0 + n / 64, 0x80 + n % 64]
    else if n < 0x10000 then [0xE0 + n / 4096, 0x80 + n / 64 % 64, 0x80 + n % 64]
    else [0xF0 + n / 262144, 0x80 + n / 4096 % 64, 0x80 + n / 64 % 64, 0x80 + n % 64]
  }

  function Encode(s: string): seq<Byte> {
    if s == "" then [] else EncodeChar(s[0]) + Encode(s[1..])
  }

  predicate IsTrail(b: int) {
    0x80 <= b < 0xC0
  }

  predicate IsScalar(n: int) {
    0 <= n < 0xD800 || 0xE000 <= n < 0x110000
  }

  /** Appends the six bits of a trailing byte. */
  function Push(bits: int, trail: int): int {
    bits * 64 + (trail - 0x80)
  }

  /** The scalar value at the front and the length of its form; overlong forms, surrogates and
      values past U+10FFFF are refused. */
  function Front(b: seq<Byte>): (r: Option<(char, nat)>)
    ensures r.Some? ==> 1 <= r.value.1 <= |b|
  {
    if b == [] then None
    else
      var lead: int := b[0];
      if lead < 0x80 then Some((lead as char, 1))
      else if lead < 0xC2 then None
      else if lead < 0xE0 then
        if |b| < 2 || !IsTrail(b[1]) then None
        else Some((Push(lead - 0xC0, b[1]) as char, 2))
      else if lead < 0xF0 then
        if |b| < 3 || !IsTrail(b[1]) || !IsTrail(b[2]) then None
        else
          var n := Push(Push(lead - 0xE0, b[1]), b[2]);
          if n < 0x800 || !IsScalar(n) then None else Some((n as char, 3))
      else if lead < 0xF5 then
        if |b| < 4 || !IsTrail(b[1]) || !IsTrail(b[2]) || !IsTrail(b[3]) then None
        else
          var n := Push(Push(Push(lead - 0xF0, b[1]), b[2]), b[3]);
          if n < 0x10000 || !IsScalar(n) then None else Some((n as char, 4))
      else None
  }

  function Decode(b: seq<Byte>): Option<string>
    decreases |b|
  {
    if b == [] then Some("")
    else
      var front := Front(b);
      if front.None? then None
      else
        var rest := Decode(b[front.value.1..]);
        if rest.None? then None else Some([front.value.0] + rest.value)
  }

  lemma Pop(bits: int, trail: int)
    requires 0 <= bits && IsTrail(trail)
    ensures Push(bits, trail) / 64 == bits && 0x80 + Push(bits, trail) % 64 == trail
  {
  }

  lemma Shift(n: int)
    requires 0 <= n
    ensures n / 64 / 64 == n / 4096 && n / 4096 / 64 == n / 262144
    ensures n == Push(n / 64, 0x80 + n % 64)
  {
  }

  predicate IsLead(b: int, from: int, to: int) {
    from <= b < to
  }

  /** The form of section 3 of RFC 3629: the length by range, the bits that mark lead and trailing
      bytes, and the scalar value that the remaining bits spell. */
  lemma FormOfChar(c: char)
    ensures var n := c as int;
            var b: seq<int> := EncodeChar(c);
            if n < 0x80 then b == [n]
            else if n < 0x800 then
              && |b| == 2 && IsLead(b[0], 0xC0, 0xE0) && IsLead(b[1], 0x80, 0xC0)
              && n == (b[0] - 0xC0) * 64 + (b[1] - 0x80)
            else if n < 0x10000 then
              && |b| == 3 && IsLead(b[0], 0xE0, 0xF0) && IsLead(b[1], 0x80, 0xC0) && IsLead(b[2], 0x80, 0xC0)
              && n == (b[0] - 0xE0) * 4096 + (b[1] - 0x80) * 64 + (b[2] - 0x80)
            else
              && |b| == 4 && IsLead(b[0], 0xF0, 0xF8) && IsLead(b[1], 0x80, 0xC0)
              && IsLead(b[2], 0x80, 0xC0) && IsLead(b[3], 0x80, 0xC0)
              && n == (b[0] - 0xF0) * 262144 + (b[1] - 0x80) * 4096 + (b[2] - 0x80) * 64 + (b[3] - 0x80)
  {
    var n := c as int;
    Shift(n);
    Shift(n / 64);
    Shift(n / 4096);
  }

  lemma FrontOfChar(c: char, rest: seq<Byte>)
    ensures Front(EncodeChar(c) + rest) == Some((c, |EncodeChar(c)|))
  {
    var n := c as int;
    Shift(n);
    Shift(n / 64);
    Shift(n / 4096);
    var b := EncodeChar(c) + rest;
    if n < 0x80 {
      assert b[0] == n;
    } else if n < 0x800 {
      assert b[0] == 0xC0 + n / 64 && b[1] == 0x80 + n % 64;
    } else if n < 0x10000 {
      assert b[0] == 0xE0 + n / 4096 && b[1] == 0x80 + n / 64 % 64 && b[2] == 0x80 + n % 64;
    } else {
      assert b[0] == 0xF0 + n / 262144 && b[1] == 0x80 + n / 4096 % 64;
      assert b[2] == 0x80 + n / 64 % 64 && b[3] == 0x80 + n % 64;
    }
  }

  lemma {:induction false} DecodeEncode(s: string)
    ensures Decode(Encode(s)) == Some(s)
  {
    if s != "" {
      var front, rest := EncodeChar(s[0]), Encode(s[1..]);
      FrontOfChar(s[0], rest);
      assert (front + rest)[|front|..] == rest;
      DecodeEncode(s[1..]);
      assert Decode(front + rest) == Some([s[0]] + s[1..]);
      assert s == [s[0]] + s[1..];
    }
  }

  lemma CharOfFront(b: seq<Byte>)
    requires Front(b).Some?
    ensures EncodeChar(Front(b).value.0) == b[..Front(b).value.1]
  {
    var k := Front(b).value.1;
    if k == 2 {
      Pop(b[0] as int - 0xC0, b[1]);
    } else if k == 3 {
      var x := Push(b[0] as int - 0xE0, b[1]);
      Pop(b[0] as int - 0xE0, b[1]);
      Pop(x, b[2]);
      Shift(Push(x, b[2]));
    } else if k == 4 {
      var x := Push(b[0] as int - 0xF0, b[1]);
      var y := Push(x, b[2]);
      Pop(b[0] as int - 0xF0, b[1]);
      Pop(x, b[2]);
      Pop(y, b[3]);
      Shift(Push(y, b[3]));
    }
  }

  /** Decoding accepts nothing but encodings. */
  lemma {:induction false} EncodeDecode(b: seq<Byte>)
    requires Decode(b).Some?
    ensures Encode(Decode(b).value) == b
    decreases |b|
  {
    if b != [] {
      CharOfFront(b);
      var k := Front(b).value.1;
      EncodeDecode(b[k..]);
      assert b == b[..k] + b[k..];
      var s := Decode(b).value;
      assert s[1..] == Decode(b[k..]).value;
    }
  }
}
