/** Which texts the Base64 decoder accepts, and for which bytes. */
module Base64Reader {
  import opened Wrappers
  import opened Utf8
  import opened Base64
  import opened Base64Wire

  /** The reader's digits are those of the table. */
  lemma ValueIsTable(c: char, v: int)
    ensures Value(c) == Some(v) <==> 0 <= v < 64 && |ALPHABET| == 64 && ALPHABET[v] == c
  {
    if 0 <= v < 64 {
      DigitIsTable(v);
      ValueOfDigit(v);
    }
    if Value(c).Some? {
      DigitIsTable(Value(c).value);
      assert Digit(Value(c).value) == c;
    }
  }

  /** What the lowest bit of character `k` that lies inside the bytes is worth. */
  function Unit(b: seq<Byte>, k: nat): int {
    if 6 * k + 6 <= 8 * |b| then 1
    else if 6 * k + 4 <= 8 * |b| then 4
    else 16
  }

  /** `c` may stand at position `k` of a wire form of `b`: a digit that carries the bits of `b` which
      fall on it, whatever its other bits, or `=` after the last bit. */
  predicate Carries(c: char, b: seq<Byte>, k: nat) {
    if 6 * k < 8 * |b| then
      Value(c).Some? && Value(c).value / Unit(b, k) == SixBits(b, 6 * k) / Unit(b, k)
    else c == '='
  }

  predicate SpelledBy(s: string, b: seq<Byte>) {
    |s| == (|b| + 2) / 3 * 4 && forall k :: 0 <= k < |s| ==> Carries(s[k], b, k)
  }

  /** The digit `c` has the value `v` in units of `unit`. */
  predicate Reads(c: char, unit: int, v: int)
    requires unit > 0
  {
    Value(c).Some? && Value(c).value / unit == v
  }

  lemma CarriesReads(c: char, b: seq<Byte>, k: nat, v: int)
    requires 6 * k < 8 * |b| && SixBits(b, 6 * k) == v
    ensures Carries(c, b, k) <==> Reads(c, Unit(b, k), v / Unit(b, k))
  {
  }

  lemma CarriesFirst(c: char, b: seq<Byte>)
    requires b != []
    ensures Carries(c, b, 0) <==> Reads(c, 1, b[0] / 4)
  {
    FirstSextets(b);
    CarriesReads(c, b, 0, b[0] / 4);
  }

  lemma CarriesSecond(c: char, b: seq<Byte>)
    requires b != []
    ensures Carries(c, b, 1) <==> if |b| > 1 then Reads(c, 1, b[0] % 4 * 16 + b[1] / 16) else Reads(c, 16, b[0] % 4)
  {
    FirstSextets(b);
    CarriesReads(c, b, 1, b[0] % 4 * 16 + (if |b| > 1 then b[1] / 16 else 0));
    assert (b[0] % 4 * 16 + 0) / 16 == b[0] % 4;
  }

  lemma CarriesThird(c: char, b: seq<Byte>)
    requires |b| > 1
    ensures Carries(c, b, 2) <==> if |b| > 2 then Reads(c, 1, b[1] % 16 * 4 + b[2] / 64) else Reads(c, 4, b[1] % 16)
  {
    FirstSextets(b);
    CarriesReads(c, b, 2, b[1] % 16 * 4 + (if |b| > 2 then b[2] / 64 else 0));
    assert (b[1] % 16 * 4 + 0) / 4 == b[1] % 16;
  }

  lemma CarriesFourth(c: char, b: seq<Byte>)
    requires |b| > 2
    ensures Carries(c, b, 3) <==> Reads(c, 1, b[2] % 64)
  {
    FirstSextets(b);
    CarriesReads(c, b, 3, b[2] % 64);
  }

  lemma CarriesPadding(c: char, b: seq<Byte>, k: nat)
    requires 8 * |b| <= 6 * k
    ensures Carries(c, b, k) <==> c == '='
  {
  }

  /** A group in digits. */
  predicate GroupSpells(s: string, b: seq<Byte>)
    requires |s| == 4 && 1 <= |b| <= 3
  {
    && Carries(s[0], b, 0) && Carries(s[1], b, 1) && Carries(s[2], b, 2) && Carries(s[3], b, 3)
  }

  /** Where the bits of two neighbouring digits make up a byte. */
  lemma ByteSplits(high: int, low: int, unit: int, a: int)
    requires unit in {4, 16, 64} && 0 <= high && 0 <= low < unit
    ensures high * unit + low == a <==> high == a / unit && low == a % unit
  {
    if unit == 4 {
      assert (high * 4 + low) / 4 == high;
    } else if unit == 16 {
      assert (high * 16 + low) / 16 == high;
    } else {
      assert (high * 64 + low) / 64 == high;
    }
  }

  lemma Pad()
    ensures Value('=') == None
  {
  }

  lemma ReadsOne(s: string, a: Byte, last: bool)
    requires |s| == 4
    ensures DecodeGroup(s, last) == Some([a]) <==>
              && last && s[2] == '=' && s[3] == '='
              && Value(s[0]).Some? && Value(s[1]).Some? && Value(s[0]).value * 4 + Value(s[1]).value / 16 == a
  {
    if DecodeGroup(s, last).Some? {
      assert |DecodeGroup(s, last).value| == 1 <==> last && s[2] == '=' && s[3] == '=';
    }
  }

  lemma ReadsTwo(s: string, a: Byte, b: Byte, last: bool)
    requires |s| == 4
    ensures DecodeGroup(s, last) == Some([a, b]) <==>
              && last && s[3] == '='
              && Value(s[0]).Some? && Value(s[1]).Some? && Value(s[2]).Some?
              && Value(s[0]).value * 4 + Value(s[1]).value / 16 == a
              && Value(s[1]).value % 16 * 16 + Value(s[2]).value / 4 == b
  {
    Pad();
    if DecodeGroup(s, last).Some? {
      assert |DecodeGroup(s, last).value| == 2 <==> last && s[2] != '=' && s[3] == '=';
    }
  }

  lemma ReadsThree(s: string, a: Byte, b: Byte, c: Byte, last: bool)
    requires |s| == 4
    ensures DecodeGroup(s, last) == Some([a, b, c]) <==>
              && Value(s[0]).Some? && Value(s[1]).Some? && Value(s[2]).Some? && Value(s[3]).Some?
              && Value(s[0]).value * 4 + Value(s[1]).value / 16 == a
              && Value(s[1]).value % 16 * 16 + Value(s[2]).value / 4 == b
              && Value(s[2]).value % 4 * 64 + Value(s[3]).value == c
  {
    Pad();
    if DecodeGroup(s, last).Some? {
      assert |DecodeGroup(s, last).value| == 3 <==> s[2] != '=' && s[3] != '=';
    }
  }

  lemma OneExactly(s: string, b: seq<Byte>, last: bool)
    requires |s| == 4 && |b| == 1
    ensures DecodeGroup(s, last) == Some(b) <==> last && GroupSpells(s, b)
  {
    assert b == [b[0]];
    ReadsOne(s, b[0], last);
    CarriesFirst(s[0], b);
    CarriesSecond(s[1], b);
    CarriesPadding(s[2], b, 2);
    CarriesPadding(s[3], b, 3);
    if Value(s[0]).Some? && Value(s[1]).Some? {
      ByteSplits(Value(s[0]).value, Value(s[1]).value / 16, 4, b[0]);
    }
  }

  lemma TwoExactly(s: string, b: seq<Byte>, last: bool)
    requires |s| == 4 && |b| == 2
    ensures DecodeGroup(s, last) == Some(b) <==> last && GroupSpells(s, b)
  {
    assert b == [b[0], b[1]];
    ReadsTwo(s, b[0], b[1], last);
    CarriesFirst(s[0], b);
    CarriesSecond(s[1], b);
    CarriesThird(s[2], b);
    CarriesPadding(s[3], b, 3);
    if Value(s[0]).Some? && Value(s[1]).Some? && Value(s[2]).Some? {
      var x, y, z := Value(s[0]).value, Value(s[1]).value, Value(s[2]).value;
      ByteSplits(x, y / 16, 4, b[0]);
      ByteSplits(y % 16, z / 4, 16, b[1]);
      ByteSplits(b[0] % 4, b[1] / 16, 16, y);
    }
  }

  lemma ThreeExactly(s: string, b: seq<Byte>, last: bool)
    requires |s| == 4 && |b| == 3
    ensures DecodeGroup(s, last) == Some(b) <==> GroupSpells(s, b)
  {
    assert b == [b[0], b[1], b[2]];
    ReadsThree(s, b[0], b[1], b[2], last);
    CarriesFirst(s[0], b);
    CarriesSecond(s[1], b);
    CarriesThird(s[2], b);
    CarriesFourth(s[3], b);
    if Value(s[0]).Some? && Value(s[1]).Some? && Value(s[2]).Some? && Value(s[3]).Some? {
      var x, y, z, w := Value(s[0]).value, Value(s[1]).value, Value(s[2]).value, Value(s[3]).value;
      ByteSplits(x, y / 16, 4, b[0]);
      ByteSplits(y % 16, z / 4, 16, b[1]);
      ByteSplits(z % 4, w, 64, b[2]);
      ByteSplits(b[0] % 4, b[1] / 16, 16, y);
      ByteSplits(b[1] % 16, b[2] / 64, 4, z);
    }
  }

  lemma GroupExactly(s: string, b: seq<Byte>, last: bool)
    requires |s| == 4 && 1 <= |b| <= 3
    ensures DecodeGroup(s, last) == Some(b) <==> (|b| < 3 ==> last) && GroupSpells(s, b)
  {
    if |b| == 1 {
      OneExactly(s, b, last);
    } else if |b| == 2 {
      TwoExactly(s, b, last);
    } else {
      ThreeExactly(s, b, last);
    }
  }

  lemma CarriesLater(c: char, b: seq<Byte>, k: nat)
    requires |b| >= 3
    ensures Carries(c, b[3..], k) <==> Carries(c, b, k + 4)
  {
    LaterSextets(b, 6 * k);
  }

  lemma CarriesHead(c: char, b: seq<Byte>, k: nat)
    requires |b| >= 3 && k < 4
    ensures Carries(c, b[..3], k) <==> Carries(c, b, k)
  {
    FirstSextets(b);
    FirstSextets(b[..3]);
  }

  /** A longer spelling is a full group and the spelling of the rest. */
  lemma SpellsOn(s: string, b: seq<Byte>)
    requires |s| > 4 && |b| >= 3
    ensures SpelledBy(s, b) <==> GroupSpells(s[..4], b[..3]) && SpelledBy(s[4..], b[3..])
  {
    forall k: nat | k < 4
      ensures Carries(s[..4][k], b[..3], k) <==> Carries(s[k], b, k)
    {
      CarriesHead(s[k], b, k);
    }
    assert Carries(s[..4][0], b[..3], 0) <==> Carries(s[0], b, 0);
    assert Carries(s[..4][1], b[..3], 1) <==> Carries(s[1], b, 1);
    assert Carries(s[..4][2], b[..3], 2) <==> Carries(s[2], b, 2);
    assert Carries(s[..4][3], b[..3], 3) <==> Carries(s[3], b, 3);
    forall k: nat | k < |s| - 4
      ensures Carries(s[4..][k], b[3..], k) <==> Carries(s[k + 4], b, k + 4)
    {
      CarriesLater(s[k + 4], b, k);
    }
    SpellsOnAt(s, b);
  }

  lemma SpellsOnAt(s: string, b: seq<Byte>)
    requires |s| > 4 && |b| >= 3
    requires Carries(s[..4][0], b[..3], 0) <==> Carries(s[0], b, 0)
    requires Carries(s[..4][1], b[..3], 1) <==> Carries(s[1], b, 1)
    requires Carries(s[..4][2], b[..3], 2) <==> Carries(s[2], b, 2)
    requires Carries(s[..4][3], b[..3], 3) <==> Carries(s[3], b, 3)
    requires forall k: nat :: k < |s| - 4 ==> (Carries(s[4..][k], b[3..], k) <==> Carries(s[k + 4], b, k + 4))
    ensures SpelledBy(s, b) <==> GroupSpells(s[..4], b[..3]) && SpelledBy(s[4..], b[3..])
  {
    assert (|b| - 3 + 2) / 3 * 4 + 4 == (|b| + 2) / 3 * 4;
    if SpelledBy(s, b) {
      forall k | 0 <= k < |s| - 4
        ensures Carries(s[4..][k], b[3..], k)
      {
        assert Carries(s[k + 4], b, k + 4);
      }
    }
    if GroupSpells(s[..4], b[..3]) && SpelledBy(s[4..], b[3..]) {
      forall k | 4 <= k < |s|
        ensures Carries(s[k], b, k)
      {
        assert Carries(s[4..][k - 4], b[3..], k - 4);
      }
    }
  }

  lemma OneGroupDecodes(s: string)
    requires |s| == 4
    ensures DecodeBase64(s) == DecodeGroup(s, true)
    ensures DecodeBase64(s).Some? ==> 1 <= |DecodeBase64(s).value| <= 3
  {
    assert s[..4] == s && s[4..] == "";
    if DecodeGroup(s, true).Some? {
      assert DecodeGroup(s, true).value + [] == DecodeGroup(s, true).value;
    }
  }

  lemma GroupIsSpelled(s: string, b: seq<Byte>)
    requires |s| == 4 && 1 <= |b| <= 3
    ensures GroupSpells(s, b) <==> SpelledBy(s, b)
  {
    assert (|b| + 2) / 3 == 1;
  }

  lemma OneGroup(s: string, b: seq<Byte>)
    requires |s| == 4
    ensures DecodeBase64(s) == Some(b) <==> SpelledBy(s, b)
  {
    OneGroupDecodes(s);
    if 1 <= |b| <= 3 {
      GroupExactly(s, b, true);
      GroupIsSpelled(s, b);
    } else {
      OddSize(b);
    }
  }

  lemma OddSize(b: seq<Byte>)
    requires b == [] || |b| > 3
    ensures (|b| + 2) / 3 * 4 != 4
  {
  }

  lemma FullGroup(s: string, b: seq<Byte>)
    requires |s| == 4
    ensures DecodeGroup(s, false) == Some(b) <==> |b| == 3 && GroupSpells(s, b)
  {
    if |b| == 3 {
      GroupExactly(s, b, false);
    }
  }

  /** The decoder answers `b` exactly for the texts that spell `b`: as long as its wire form, every
      character a digit of the table that carries the bits of `b` which fall on it, and `=` after the
      last bit. Only the bits that no byte claims are free. */
  lemma {:induction false} DecodesExactly(s: string, b: seq<Byte>)
    ensures DecodeBase64(s) == Some(b) <==> SpelledBy(s, b)
    decreases |s|
  {
    if |s| == 4 {
      OneGroup(s, b);
    } else if |s| > 4 {
      if |b| >= 3 {
        DecodesExactly(s[4..], b[3..]);
        FullGroup(s[..4], b[..3]);
        SpellsOn(s, b);
        assert b == b[..3] + b[3..];
      }
      LongText(s, b);
    } else if s != "" {
      assert |b| > 0 ==> (|b| + 2) / 3 >= 1;
    }
  }

  /** A text of more than one group starts with three full bytes. */
  lemma LongText(s: string, b: seq<Byte>)
    requires |s| > 4
    ensures DecodeBase64(s) == Some(b) ==> |b| >= 3
    ensures |b| < 3 ==> !SpelledBy(s, b)
    ensures |b| >= 3 ==>
              (DecodeBase64(s) == Some(b) <==> DecodeGroup(s[..4], false) == Some(b[..3]) && DecodeBase64(s[4..]) == Some(b[3..]))
  {
    var group := DecodeGroup(s[..4], false);
    if group.Some? {
      assert |group.value| == 3;
      if DecodeBase64(s[4..]).Some? {
        var whole := group.value + DecodeBase64(s[4..]).value;
        assert whole[..3] == group.value && whole[3..] == DecodeBase64(s[4..]).value;
        assert |b| >= 3 ==> b == b[..3] + b[3..];
      }
    }
  }
}
