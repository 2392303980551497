/** The UTC text stamps of the run store (`datetime.now(UTC).isoformat()`):
    comparing two stamps as text is comparing the two instants. */
module IsoTime {
  import opened Text
  import opened Calendar

  /** Microseconds since the start of year 1. */
  const SECOND := 1_000_000
  const DAY := 86_400_000_000

  type Instant = t: int | 0 <= t < 315_537_897_600_000_000 witness 0

  function Pow10(w: nat): (p: nat)
    ensures p >= 1
  {
    if w == 0 then 1 else 10 * Pow10(w - 1)
  }

  /** `n` in decimal, with leading zeros, in exactly `w` digits. */
  function Pad(n: nat, w: nat): (s: string)
    ensures |s| == w
  {
    if w == 0 then "" else Pad(n / 10, w - 1) + [(48 + n % 10) as char]
  }

  function Fraction(us: nat): string {
    (if us == 0 then "" else "." + Pad(us, 6)) + "+00:00"
  }

  /** `datetime.isoformat` of a UTC instant; the microsecond field is left out when zero. */
  function Iso(t: Instant): string {
    var date := FromOrdinal(t / DAY + 1);
    Pad(date.year, 4) + ("-" + (Pad(date.month, 2) + ("-" + (Pad(date.day, 2) + ("T" + Clock(t % DAY))))))
  }

  function Clock(r: nat): string {
    var seconds := r / SECOND;
    var minutes := seconds / 60;
    ClockText(minutes / 60, minutes % 60, seconds % 60, r % SECOND)
  }

  function ClockText(h: nat, m: nat, s: nat, us: nat): string {
    Pad(h, 2) + (":" + (Pad(m, 2) + (":" + (Pad(s, 2) + Fraction(us)))))
  }

  /** The instant `_lease_until` names; Python raises when it lies past year 9999. */
  function LeaseEnd(t: Instant, leaseSeconds: int): int {
    t + (if leaseSeconds < 1 then 1 else leaseSeconds) * SECOND
  }

  // ----- order -----

  lemma {:induction false} PadOrder(x: nat, y: nat, w: nat)
    requires x < Pow10(w) && y < Pow10(w)
    ensures LexLess(Pad(x, w), Pad(y, w)) <==> x < y
    ensures Pad(x, w) == Pad(y, w) <==> x == y
  {
    if w > 0 {
      PadOrder(x / 10, y / 10, w - 1);
      var dx, dy := [(48 + x % 10) as char], [(48 + y % 10) as char];
      LexConcat(Pad(x / 10, w - 1), Pad(y / 10, w - 1), dx, dy);
      assert LexLess(dx, dy) <==> x % 10 < y % 10;
      if Pad(x, w) == Pad(y, w) {
        assert Pad(x, w)[..w - 1] == Pad(x / 10, w - 1);
        assert Pad(y, w)[..w - 1] == Pad(y / 10, w - 1);
        assert Pad(x, w)[w - 1] == Pad(y, w)[w - 1];
      }
    }
  }

  /** A fixed-width field in front decides first. */
  lemma FieldOrder(x: nat, y: nat, w: nat, sep: string, rest: string, rest': string)
    requires x < Pow10(w) && y < Pow10(w)
    ensures LexLess(Pad(x, w) + (sep + rest), Pad(y, w) + (sep + rest'))
       <==> x < y || (x == y && LexLess(rest, rest'))
  {
    PadOrder(x, y, w);
    LexConcat(Pad(x, w), Pad(y, w), sep + rest, sep + rest');
    LexConcat(sep, sep, rest, rest');
    LexIrreflexive(sep);
  }

  /** '+' sorts before '.', so leaving a zero fraction out keeps the order. */
  lemma FractionOrder(x: nat, y: nat)
    requires x < SECOND && y < SECOND
    ensures LexLess(Fraction(x), Fraction(y)) <==> x < y
  {
    SixDigits();
    LexIrreflexive("+00:00");
    if x != 0 && y != 0 {
      assert Fraction(x) == "." + (Pad(x, 6) + "+00:00");
      assert Fraction(y) == "." + (Pad(y, 6) + "+00:00");
      PadOrder(x, y, 6);
      LexConcat(Pad(x, 6), Pad(y, 6), "+00:00", "+00:00");
      LexConcat(".", ".", Pad(x, 6) + "+00:00", Pad(y, 6) + "+00:00");
      LexIrreflexive(".");
    } else {
      assert x != 0 ==> Fraction(x)[0] == '.';
      assert y != 0 ==> Fraction(y)[0] == '.';
      assert x == 0 ==> Fraction(x) == "+00:00";
      assert y == 0 ==> Fraction(y) == "+00:00";
      assert '+' < '.';
    }
  }

  lemma SixDigits()
    ensures Pow10(2) == 100 && Pow10(4) == 10000 && Pow10(6) == SECOND
  {
    assert Pow10(3) == 1000;
    assert Pow10(5) == 100000;
  }

  lemma QuotientOrder(a: nat, b: nat, k: nat)
    requires k == 60 || k == SECOND || k == DAY
    ensures a < b <==> a / k < b / k || (a / k == b / k && a % k < b % k)
  {
  }

  lemma ClockOrder(a: nat, b: nat)
    requires a < DAY && b < DAY
    ensures LexLess(Clock(a), Clock(b)) <==> a < b
  {
    SixDigits();
    var s, s' := a / SECOND, b / SECOND;
    var m, m' := s / 60, s' / 60;
    QuotientOrder(a, b, SECOND);
    QuotientOrder(s, s', 60);
    QuotientOrder(m, m', 60);
    ClockTextOrder(m / 60, m % 60, s % 60, a % SECOND, m' / 60, m' % 60, s' % 60, b % SECOND);
  }

  lemma ClockTextOrder(h: nat, m: nat, s: nat, u: nat, h': nat, m': nat, s': nat, u': nat)
    requires h < 100 && m < 100 && s < 100 && u < SECOND
    requires h' < 100 && m' < 100 && s' < 100 && u' < SECOND
    ensures LexLess(ClockText(h, m, s, u), ClockText(h', m', s', u'))
       <==> h < h' || (h == h' && (m < m' || (m == m' && (s < s' || (s == s' && u < u')))))
  {
    SixDigits();
    FractionOrder(u, u');
    PadOrder(s, s', 2);
    LexConcat(Pad(s, 2), Pad(s', 2), Fraction(u), Fraction(u'));
    var t, t' := Pad(s, 2) + Fraction(u), Pad(s', 2) + Fraction(u');
    FieldOrder(m, m', 2, ":", t, t');
    FieldOrder(h, h', 2, ":", Pad(m, 2) + (":" + t), Pad(m', 2) + (":" + t'));
  }

  /** Text order is time order, for every pair of instants. */
  lemma StampOrder(a: Instant, b: Instant)
    ensures LexLess(Iso(a), Iso(b)) <==> a < b
    ensures LexLeq(Iso(a), Iso(b)) <==> a <= b
    ensures Iso(a) == Iso(b) <==> a == b
  {
    StampLess(a, b);
    StampLess(b, a);
    LexIrreflexive(Iso(a));
  }

  lemma StampLess(a: Instant, b: Instant)
    ensures LexLess(Iso(a), Iso(b)) <==> a < b
  {
    SixDigits();
    var d, d' := FromOrdinal(a / DAY + 1), FromOrdinal(b / DAY + 1);
    var c, c' := Clock(a % DAY), Clock(b % DAY);
    ClockOrder(a % DAY, b % DAY);
    QuotientOrder(a, b, DAY);
    OrdinalOrder(d, d');
    FieldOrder(d.day, d'.day, 2, "T", c, c');
    var t, t' := Pad(d.day, 2) + ("T" + c), Pad(d'.day, 2) + ("T" + c');
    FieldOrder(d.month, d'.month, 2, "-", t, t');
    FieldOrder(d.year, d'.year, 4, "-", Pad(d.month, 2) + ("-" + t), Pad(d'.month, 2) + ("-" + t'));
  }

  // ----- reading a stamp back -----

  predicate AllDecimal(s: string) {
    forall k :: 0 <= k < |s| ==> '0' <= s[k] <= '9'
  }

  function ReadDecimal(s: string): int {
    if s == "" then 0 else 10 * ReadDecimal(s[..|s| - 1]) + (s[|s| - 1] as int - '0' as int)
  }

  lemma {:induction false} ReadPad(n: nat, w: nat)
    requires n < Pow10(w)
    ensures ReadDecimal(Pad(n, w)) == n && AllDecimal(Pad(n, w))
  {
    if w > 0 {
      ReadPad(n / 10, w - 1);
      assert Pad(n, w)[..w - 1] == Pad(n / 10, w - 1);
    }
  }

  /** The punctuation of a UTC stamp, with or without microseconds. */
  predicate StampShape(s: string) {
    && (|s| == 25 || |s| == 32)
    && s[4] == '-' && s[7] == '-' && s[10] == 'T' && s[13] == ':' && s[16] == ':'
    && (|s| == 32 ==> s[19] == '.')
    && s[|s| - 6..] == "+00:00"
  }

  /** What `datetime.fromisoformat` reads: the fields at their fixed places. */
  function ReadStamp(s: string): int
    requires StampShape(s)
  {
    var day := Ordinal(Date(ReadDecimal(s[..4]), ReadDecimal(s[5..7]), ReadDecimal(s[8..10]))) - 1;
    var seconds := (ReadDecimal(s[11..13]) * 60 + ReadDecimal(s[14..16])) * 60 + ReadDecimal(s[17..19]);
    day * 86_400_000_000 + seconds * 1_000_000 + (if |s| == 32 then ReadDecimal(s[20..26]) else 0)
  }

  /** A field of `w` characters, a separator, and the rest. */
  lemma FieldAt(field: string, w: nat, sep: char, rest: string)
    requires |field| == w
    ensures var c := field + ([sep] + rest); |c| == w + 1 + |rest| && c[..w] == field && c[w] == sep && c[w + 1..] == rest
  {
  }

  lemma ClockFields(h: nat, m: nat, s: nat, us: nat)
    ensures var c := ClockText(h, m, s, us);
            && |c| >= 14 && c[2] == ':' && c[5] == ':'
            && c[..2] == Pad(h, 2) && c[3..5] == Pad(m, 2) && c[6..8] == Pad(s, 2) && c[8..] == Fraction(us)
  {
    var last := Pad(s, 2) + Fraction(us);
    var mid := Pad(m, 2) + ([':'] + last);
    FieldAt(Pad(m, 2), 2, ':', last);
    FieldAt(Pad(h, 2), 2, ':', mid);
    var c := ClockText(h, m, s, us);
    assert c == Pad(h, 2) + ([':'] + mid);
    Sliced(c, 3, 0, 2);
    Sliced(c, 3, 3, 3);
    Sliced(c, 6, 0, 2);
    Sliced(c, 6, 2, 2);
    assert c[5] == c[3..][2];
    assert last[..2] == Pad(s, 2) && last[2..] == Fraction(us);
  }

  lemma FractionFields(us: nat)
    ensures var f := Fraction(us);
            if us == 0 then f == "+00:00"
            else |f| == 13 && f[0] == '.' && f[1..7] == Pad(us, 6) && f[7..] == "+00:00"
  {
  }

  lemma Sliced(s: string, i: nat, j: nat, k: nat)
    requires i <= |s| && j <= k <= |s| - i
    ensures s[i..][j..k] == s[i + j..i + k] && s[i..][j..] == s[i + j..]
  {
  }

  lemma DateFields(t: Instant)
    ensures var s, d := Iso(t), FromOrdinal(t / DAY + 1);
            && |s| >= 25 && s[4] == '-' && s[7] == '-' && s[10] == 'T'
            && s[..4] == Pad(d.year, 4) && s[5..7] == Pad(d.month, 2) && s[8..10] == Pad(d.day, 2)
            && s[11..] == Clock(t % DAY)
  {
    var s, d, c := Iso(t), FromOrdinal(t / DAY + 1), Clock(t % DAY);
    ClockSize(t % DAY);
    var days := Pad(d.day, 2) + (['T'] + c);
    var months := Pad(d.month, 2) + (['-'] + days);
    FieldAt(Pad(d.day, 2), 2, 'T', c);
    FieldAt(Pad(d.month, 2), 2, '-', days);
    FieldAt(Pad(d.year, 4), 4, '-', months);
    assert s == Pad(d.year, 4) + (['-'] + months);
    Sliced(s, 5, 0, 2);
    Sliced(s, 5, 3, 3);
    Sliced(s, 8, 0, 2);
    Sliced(s, 8, 3, 3);
    assert s[7] == s[5..][2] && s[10] == s[8..][2];
  }

  lemma ClockSize(r: nat)
    ensures |Clock(r)| >= 14
  {
    var s := r / SECOND;
    ClockFields(s / 60 / 60, s / 60 % 60, s % 60, r % SECOND);
  }

  lemma TimeSliced(s: string, c: string)
    requires |s| >= 25 && s[11..] == c
    ensures |c| == |s| - 11 && s[13] == c[2] && s[16] == c[5]
    ensures s[11..13] == c[..2] && s[14..16] == c[3..5] && s[17..19] == c[6..8] && s[19..] == c[8..]
  {
    Sliced(s, 11, 0, 2);
    Sliced(s, 11, 3, 5);
    Sliced(s, 11, 6, 8);
    Sliced(s, 11, 8, 8);
  }

  lemma TimeFields(t: Instant)
    ensures var s, r := Iso(t), t % DAY;
            && |s| >= 25 && s[13] == ':' && s[16] == ':'
            && s[11..13] == Pad(r / SECOND / 60 / 60, 2) && s[14..16] == Pad(r / SECOND / 60 % 60, 2)
            && s[17..19] == Pad(r / SECOND % 60, 2) && s[19..] == Fraction(r % SECOND)
  {
    var s, r := Iso(t), t % DAY;
    var seconds := r / SECOND;
    DateFields(t);
    ClockFields(seconds / 60 / 60, seconds / 60 % 60, seconds % 60, r % SECOND);
    TimeSliced(s, Clock(r));
  }

  lemma FractionSliced(s: string, us: nat)
    requires |s| >= 25 && s[19..] == Fraction(us)
    ensures |s| == (if us == 0 then 25 else 32) && s[|s| - 6..] == "+00:00"
    ensures us != 0 ==> s[19] == '.' && s[20..26] == Pad(us, 6)
  {
    FractionFields(us);
    if us != 0 {
      Sliced(s, 19, 1, 7);
      Sliced(s, 19, 7, 7);
      assert s[19] == s[19..][0];
    }
  }

  lemma StampIsShaped(t: Instant)
    ensures var s, r := Iso(t), t % DAY;
            && StampShape(s) && (|s| == 32 <==> r % SECOND != 0)
            && s[11..13] == Pad(r / SECOND / 60 / 60, 2) && s[14..16] == Pad(r / SECOND / 60 % 60, 2)
            && s[17..19] == Pad(r / SECOND % 60, 2) && (|s| == 32 ==> s[20..26] == Pad(r % SECOND, 6))
  {
    DateFields(t);
    TimeFields(t);
    FractionSliced(Iso(t), t % DAY % SECOND);
  }

  lemma DateReads(t: Instant)
    ensures var s := Iso(t);
            && StampShape(s)
            && Ordinal(Date(ReadDecimal(s[..4]), ReadDecimal(s[5..7]), ReadDecimal(s[8..10]))) == t / DAY + 1
  {
    var d := FromOrdinal(t / DAY + 1);
    StampIsShaped(t);
    DateFields(t);
    SixDigits();
    ReadPad(d.year, 4);
    ReadPad(d.month, 2);
    ReadPad(d.day, 2);
  }

  lemma ClockReads(t: Instant)
    ensures var s, r := Iso(t), t % DAY;
            && StampShape(s)
            && (ReadDecimal(s[11..13]) * 60 + ReadDecimal(s[14..16])) * 60 + ReadDecimal(s[17..19]) == r / SECOND
            && (if |s| == 32 then ReadDecimal(s[20..26]) else 0) == r % SECOND
  {
    var r := t % DAY;
    StampIsShaped(t);
    SixDigits();
    ReadPad(r / SECOND / 60 / 60, 2);
    ReadPad(r / SECOND / 60 % 60, 2);
    ReadPad(r / SECOND % 60, 2);
    ReadPad(r % SECOND, 6);
    ClockSums(r);
  }

  /** A stamp reads back as its instant. */
  lemma StampRoundTrip(t: Instant)
    ensures StampShape(Iso(t)) && ReadStamp(Iso(t)) == t
  {
    DateReads(t);
    ClockReads(t);
    ClockSums(t % DAY);
    assert t == t / DAY * DAY + t % DAY;
  }

  lemma ClockSums(r: nat)
    ensures var s := r / SECOND;
            ((s / 60 / 60) * 60 + s / 60 % 60) * 60 + s % 60 == s && r == s * SECOND + r % SECOND
  {
  }
}
