/** Python string helpers shared by the models: white space stripping and the
    code-point order that the store uses when it compares text columns. */
module Text {

  /** The characters for which Python's `str.isspace` holds. */
  predicate IsSpace(c: char) {
    var n := c as int;
    || 9 <= n <= 13 || 28 <= n <= 32 || n == 0x85 || n == 0xA0 || n == 0x1680
    || 0x2000 <= n <= 0x200A || n == 0x2028 || n == 0x2029 || n == 0x202F
    || n == 0x205F || n == 0x3000
  }

  /** The table behind it: ASCII controls and space, Latin-1, and the Unicode separators. */
  lemma SpaceTable(c: char)
    ensures IsSpace(c) <==>
              c as int in {0x09, 0x0A, 0x0B, 0x0C, 0x0D, 0x1C, 0x1D, 0x1E, 0x1F, 0x20, 0x85, 0xA0, 0x1680,
                           0x2000, 0x2001, 0x2002, 0x2003, 0x2004, 0x2005, 0x2006, 0x2007, 0x2008, 0x2009, 0x200A,
                           0x2028, 0x2029, 0x202F, 0x205F, 0x3000}
  {
  }

  function LStrip(s: string): (r: string)
    ensures r == [] || !IsSpace(r[0])
    ensures |r| <= |s| && forall k :: 0 <= k < |r| ==> r[k] == s[|s| - |r| + k]
  {
    if s != [] && IsSpace(s[0]) then LStrip(s[1..]) else s
  }

  function RStrip(s: string): (r: string)
    ensures r == [] || !IsSpace(r[|r| - 1])
    ensures |r| <= |s| && forall k :: 0 <= k < |r| ==> r[k] == s[k]
  {
    if s != [] && IsSpace(s[|s| - 1]) then RStrip(s[..|s| - 1]) else s
  }

  function Strip(s: string): string {
    RStrip(LStrip(s))
  }

  predicate StartsWith(s: string, prefix: string) {
    prefix <= s
  }

  predicate EndsWith(s: string, suffix: string) {
    |suffix| <= |s| && s[|s| - |suffix|..] == suffix
  }

  lemma {:induction false} LStripAppend(a: string, b: string)
    requires b != [] && !IsSpace(b[0])
    ensures LStrip(a + b) == LStrip(a) + b
  {
    if a == [] {
      assert a + b == b;
    } else {
      assert (a + b)[1..] == a[1..] + b;
      if IsSpace(a[0]) {
        LStripAppend(a[1..], b);
      }
    }
  }

  lemma {:induction false} RStripAppend(a: string, b: string)
    requires a != [] && !IsSpace(a[|a| - 1])
    ensures RStrip(a + b) == a + RStrip(b)
  {
    if b == [] {
      assert a + b == a;
    } else {
      assert (a + b)[..|a + b| - 1] == a + b[..|b| - 1];
      if IsSpace(b[|b| - 1]) {
        RStripAppend(a, b[..|b| - 1]);
      }
    }
  }

  // ----- what stripping cuts off -----

  predicate Blank(s: string) {
    forall k :: 0 <= k < |s| ==> IsSpace(s[k])
  }

  lemma {:induction false} LStripBlank(s: string)
    requires Blank(s)
    ensures LStrip(s) == ""
  {
    if s != "" {
      LStripBlank(s[1..]);
    }
  }

  lemma {:induction false} RStripBlank(s: string)
    requires Blank(s)
    ensures RStrip(s) == ""
  {
    if s != "" {
      RStripBlank(s[..|s| - 1]);
    }
  }

  lemma LStripsTo(head: string, rest: string)
    requires Blank(head) && rest != "" && !IsSpace(rest[0])
    ensures LStrip(head + rest) == rest
  {
    LStripBlank(head);
    LStripAppend(head, rest);
    assert "" + rest == rest;
  }

  lemma RStripsTo(body: string, tail: string)
    requires Blank(tail) && body != "" && !IsSpace(body[|body| - 1])
    ensures RStrip(body + tail) == body
  {
    RStripBlank(tail);
    RStripAppend(body, tail);
    assert body + "" == body;
  }

  lemma StripBlank(s: string)
    requires Blank(s)
    ensures Strip(s) == ""
  {
    LStripBlank(s);
  }

  /** Stripping cuts off the white space at both ends of a text, and nothing else. */
  lemma StripsExactly(head: string, body: string, tail: string)
    requires Blank(head) && Blank(tail)
    requires body != "" && !IsSpace(body[0]) && !IsSpace(body[|body| - 1])
    ensures Strip(head + (body + tail)) == body
  {
    assert (body + tail)[0] == body[0];
    LStripsTo(head, body + tail);
    RStripsTo(body, tail);
  }

  // ----- code-point order -----

  predicate LexLess(a: string, b: string) {
    b != [] && (a == [] || a[0] < b[0] || (a[0] == b[0] && LexLess(a[1..], b[1..])))
  }

  ghost predicate FirstDifference(a: string, b: string, k: nat) {
    && k <= |a| && k < |b| && a[..k] == b[..k]
    && (k == |a| || a[k] < b[k])
  }

  lemma SameStart(a: string, b: string, k: nat)
    ensures FirstDifference(a, b, k) && k > 0 ==> a != [] && b != [] && a[0] == b[0]
  {
    if FirstDifference(a, b, k) && k > 0 {
      assert a[..k][0] == b[..k][0];
    }
  }

  /** A text is less when at the first difference it has ended or has the smaller code point. */
  lemma {:induction false} LexLessExactly(a: string, b: string)
    ensures LexLess(a, b) <==> exists k: nat :: FirstDifference(a, b, k)
  {
    if b != [] && a != [] && a[0] == b[0] {
      LexLessExactly(a[1..], b[1..]);
      if j: nat :| FirstDifference(a[1..], b[1..], j) {
        assert a[..j + 1] == [a[0]] + a[1..][..j] && b[..j + 1] == [b[0]] + b[1..][..j];
        assert FirstDifference(a, b, j + 1);
      }
      if k: nat :| FirstDifference(a, b, k) {
        assert k > 0;
        assert a[1..][..k - 1] == a[..k][1..] && b[1..][..k - 1] == b[..k][1..];
        assert FirstDifference(a[1..], b[1..], k - 1);
      }
    } else if b != [] && (a == [] || a[0] < b[0]) {
      assert FirstDifference(a, b, 0);
    } else {
      forall k: nat
        ensures FirstDifference(a, b, k) && k > 0 ==> a[0] == b[0]
      {
        SameStart(a, b, k);
      }
    }
  }

  predicate LexLeq(a: string, b: string) {
    !LexLess(b, a)
  }

  lemma {:induction false} LexIrreflexive(a: string)
    ensures !LexLess(a, a)
  {
    if a != [] {
      LexIrreflexive(a[1..]);
    }
  }

  lemma {:induction false} LexTotal(a: string, b: string)
    ensures LexLess(a, b) || LexLess(b, a) || a == b
  {
    if a != [] && b != [] && a[0] == b[0] {
      LexTotal(a[1..], b[1..]);
      assert a == [a[0]] + a[1..] && b == [b[0]] + b[1..];
    }
  }

  lemma {:induction false} LexTransitive(a: string, b: string, c: string)
    requires LexLess(a, b) && LexLess(b, c)
    ensures LexLess(a, c)
  {
    if a != [] && a[0] == b[0] && b[0] == c[0] {
      LexTransitive(a[1..], b[1..], c[1..]);
    }
  }

  lemma LexLeqTransitive(a: string, b: string, c: string)
    requires LexLeq(a, b) && LexLeq(b, c)
    ensures LexLeq(a, c)
  {
    if LexLess(c, a) {
      LexTotal(a, b);
      LexTotal(b, c);
      if a == b || b == c {
        assert false;
      } else {
        LexTransitive(a, b, c);
        LexTransitive(a, c, a);
        LexIrreflexive(a);
      }
    }
  }

  /** Comparing two strings whose first parts have equal length. */
  lemma {:induction false} LexConcat(a: string, b: string, x: string, y: string)
    requires |a| == |b|
    ensures LexLess(a + x, b + y) <==> LexLess(a, b) || (a == b && LexLess(x, y))
  {
    if a == [] {
      assert a + x == x && b + y == y;
    } else {
      assert (a + x)[1..] == a[1..] + x && (b + y)[1..] == b[1..] + y;
      assert a == [a[0]] + a[1..] && b == [b[0]] + b[1..];
      LexConcat(a[1..], b[1..], x, y);
    }
  }
}
