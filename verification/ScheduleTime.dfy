/** Resolution of natural schedule times after matching, in a zone with a fixed offset: numbers,
    clock normalisation, the day, and the roll-over of a bare time of day. */
module ScheduleTime {
  import opened Wrappers
  import opened Text
  import opened Calendar

  // ----- numbers -----

  function ChineseDigit(c: char): (d: Option<nat>)
    ensures d.Some? ==> d.value < 10
  {
    if c == '零' || c == '〇' then Some(0)
    else if c == '一' then Some(1)
    else if c == '二' || c == '两' then Some(2)
    else if c == '三' then Some(3)
    else if c == '四' then Some(4)
    else if c == '五' then Some(5)
    else if c == '六' then Some(6)
    else if c == '七' then Some(7)
    else if c == '八' then Some(8)
    else if c == '九' then Some(9)
    else None
  }

  function UnitOf(c: char): nat {
    if c == '十' then 10 else 100
  }

  predicate IsNumeralChar(c: char) {
    ChineseDigit(c).Some? || c == '十' || c == '百'
  }

  predicate AllNumeral(s: string) {
    forall c :: c in s ==> IsNumeralChar(c)
  }

  /** The running total and the digit that waits for its unit. */
  datatype Sum = Sum(total: nat, current: nat)

  function AddChar(s: Sum, c: char): Sum {
    if ChineseDigit(c).Some? then s.(current := ChineseDigit(c).value)
    else Sum(s.total + (if s.current == 0 then 1 else s.current) * UnitOf(c), 0)
  }

  function SumOf(text: string): Sum {
    if text == "" then Sum(0, 0) else AddChar(SumOf(text[..|text| - 1]), text[|text| - 1])
  }

  predicate AllDigits(s: string) {
    forall k :: 0 <= k < |s| ==> '0' <= s[k] <= '9'
  }

  function Decimal(s: string): nat
    requires AllDigits(s)
  {
    if s == "" then 0
    else
      Decimal(s[..|s| - 1]) * 10 + (s[|s| - 1] as int - '0' as int)
  }

  function Number(text: string): Option<nat> {
    var value := Strip(text);
    if value != "" && AllDigits(value) then Some(Decimal(value))
    else if value == "" || !AllNumeral(value) then None
    else Some(SumOf(value).total + SumOf(value).current)
  }

  method ParseNumber(text: string) returns (n: Option<nat>)
    ensures n == Number(text)
  {
    var value := Strip(text);
    if value != "" && AllDigits(value) {
      return Some(Decimal(value));
    }
    if value == "" || !AllNumeral(value) {
      return None;
    }
    var total: nat, current: nat := 0, 0;
    for k := 0 to |value|
      invariant Sum(total, current) == SumOf(value[..k])
    {
      assert value[..k + 1][..k] == value[..k];
      var digit := ChineseDigit(value[k]);
      if digit.Some? {
        current := digit.value;
        continue;
      }
      total := total + (if current == 0 then 1 else current) * UnitOf(value[k]);
      current := 0;
    }
    assert value[..|value|] == value;
    n := Some(total + current);
  }

  // ----- the customary numerals, as an independent reference -----

  function DigitChar(d: nat): (c: char)
    requires d < 10
    ensures ChineseDigit(c) == Some(d)
  {
    if d == 0 then '零' else if d == 1 then '一' else if d == 2 then '二' else if d == 3 then '三'
    else if d == 4 then '四' else if d == 5 then '五' else if d == 6 then '六' else if d == 7 then '七'
    else if d == 8 then '八' else '九'
  }

  function Ones(n: nat): string
    requires n < 10
  {
    if n == 0 then "" else [DigitChar(n)]
  }

  /** Tens below a hundred, with the leading digit written out. */
  function TensText(n: nat): string
    requires 10 <= n < 100
  {
    [DigitChar(n / 10), '十'] + Ones(n % 10)
  }

  function Numeral(n: nat): string
    requires n < 1000
  {
    if n < 10 then [DigitChar(n)]
    else if n < 20 then "十" + Ones(n - 10)
    else if n < 100 then TensText(n)
    else
      var r := n % 100;
      [DigitChar(n / 100), '百']
      + (if r == 0 then "" else if r < 10 then ['零', DigitChar(r)] else TensText(r))
  }

  lemma SumAppend(text: string, c: char)
    ensures SumOf(text + [c]) == AddChar(SumOf(text), c)
  {
    assert (text + [c])[..|text|] == text;
  }

  lemma SumOnes(text: string, n: nat)
    requires n < 10 && SumOf(text).current == 0
    ensures SumOf(text + Ones(n)) == Sum(SumOf(text).total, n)
  {
    if n == 0 {
      assert text + Ones(n) == text;
    } else {
      SumAppend(text, DigitChar(n));
    }
  }

  lemma SumTens(text: string, n: nat)
    requires 10 <= n < 100
    ensures var s := SumOf(text + TensText(n)); s == Sum(SumOf(text).total + n / 10 * 10, n % 10)
  {
    SumAppend(text, DigitChar(n / 10));
    SumAppend(text + [DigitChar(n / 10)], '十');
    SumOnes(text + [DigitChar(n / 10)] + ['十'], n % 10);
    assert text + TensText(n) == text + [DigitChar(n / 10)] + ['十'] + Ones(n % 10);
  }

  lemma SumNumeral(n: nat)
    requires n < 1000
    ensures SumOf(Numeral(n)).total + SumOf(Numeral(n)).current == n
  {
    if n < 10 {
      SumAppend("", DigitChar(n));
      assert "" + [DigitChar(n)] == Numeral(n);
    } else if n < 20 {
      SumAppend("", '十');
      assert "" + ['十'] == "十";
      SumOnes("十", n - 10);
    } else if n < 100 {
      SumTens("", n);
      assert "" + TensText(n) == TensText(n);
    } else {
      SumHundreds(n);
    }
  }

  lemma SumHead(d: nat)
    requires 0 < d < 10
    ensures SumOf([DigitChar(d), '百']) == Sum(d * 100, 0)
  {
    SumAppend("", DigitChar(d));
    SumAppend([DigitChar(d)], '百');
    assert "" + [DigitChar(d)] == [DigitChar(d)];
    assert [DigitChar(d)] + ['百'] == [DigitChar(d), '百'];
  }

  lemma SumHundreds(n: nat)
    requires 100 <= n < 1000
    ensures SumOf(Numeral(n)).total + SumOf(Numeral(n)).current == n
  {
    var h, r := [DigitChar(n / 100), '百'], n % 100;
    SumHead(n / 100);
    if r == 0 {
      assert h + "" == h;
    } else if r < 10 {
      SumAppend(h, '零');
      SumAppend(h + ['零'], DigitChar(r));
      assert h + ['零', DigitChar(r)] == h + ['零'] + [DigitChar(r)];
    } else {
      SumTens(h, r);
    }
  }

  predicate NumeralText(s: string) {
    forall c :: c in s ==> IsNumeralChar(c) && !IsSpace(c) && !('0' <= c <= '9')
  }

  lemma DigitCharIsNumeral(d: nat)
    requires d < 10
    ensures NumeralText([DigitChar(d)])
  {
  }

  lemma TensAreNumeral(n: nat)
    requires 10 <= n < 100
    ensures NumeralText(TensText(n))
  {
    DigitCharIsNumeral(n / 10);
    DigitCharIsNumeral(n % 10);
    assert DigitChar(n / 10) in [DigitChar(n / 10)] && DigitChar(n % 10) in [DigitChar(n % 10)];
  }

  lemma NumeralChars(n: nat)
    requires n < 1000
    ensures Numeral(n) != "" && NumeralText(Numeral(n))
  {
    if n < 10 {
      DigitCharIsNumeral(n);
    } else if n < 20 {
      DigitCharIsNumeral(n - 10);
    } else if n < 100 {
      TensAreNumeral(n);
    } else {
      var h, r := n / 100, n % 100;
      DigitCharIsNumeral(h);
      assert DigitChar(h) in [DigitChar(h)];
      if 0 < r < 10 {
        DigitCharIsNumeral(r);
        assert DigitChar(r) in [DigitChar(r)];
      } else if r >= 10 {
        TensAreNumeral(r);
      }
    }
  }

  lemma StripNothing(s: string)
    requires s != "" && forall c :: c in s ==> !IsSpace(c)
    ensures Strip(s) == s
  {
    assert s[0] in s && s[|s| - 1] in s;
    assert LStrip(s) == s && RStrip(s) == s;
  }

  /** The parser reads every customary numeral below a thousand as its number. */
  lemma NumeralsParse(n: nat)
    requires n < 1000
    ensures Number(Numeral(n)) == Some(n)
  {
    NumeralChars(n);
    StripNothing(Numeral(n));
    SumNumeral(n);
    assert Numeral(n)[0] in Numeral(n);
  }

  // ----- what the number characters are -----

  /** The ten digits in order; zero and two have a second sign each. */
  lemma DigitSigns(d: nat)
    requires d < 10
    ensures |"零一二三四五六七八九"| == 10 && DigitChar(d) == "零一二三四五六七八九"[d]
    ensures ChineseDigit('〇') == Some(0) && ChineseDigit('两') == Some(2)
  {
  }

  lemma SignsExactly(c: char)
    ensures ChineseDigit(c).Some? <==>
              c in {'零', '〇', '一', '二', '两', '三', '四', '五', '六', '七', '八', '九'}
  {
  }

  ghost predicate IsNumeralSign(c: char) {
    c in {'零', '〇', '一', '二', '两', '三', '四', '五', '六', '七', '八', '九', '十', '百'}
  }

  /** The parser gives up exactly on white space alone and on a text that mixes in a sign which is
      neither numeral nor, all together, decimal. */
  lemma NoNumberExactly(text: string)
    ensures Number(text) == None <==>
              var value := Strip(text);
              || value == ""
              || ((exists k :: 0 <= k < |value| && !('0' <= value[k] <= '9'))
                  && (exists k :: 0 <= k < |value| && !IsNumeralSign(value[k])))
  {
    var value := Strip(text);
    forall c: char
      ensures IsNumeralChar(c) <==> IsNumeralSign(c)
    {
      SignsExactly(c);
    }
    SignsAll(value);
  }

  lemma SignsAll(value: string)
    requires forall c: char :: IsNumeralChar(c) <==> IsNumeralSign(c)
    ensures AllNumeral(value) <==> forall k :: 0 <= k < |value| ==> IsNumeralSign(value[k])
  {
    if AllNumeral(value) {
      forall k | 0 <= k < |value|
        ensures IsNumeralSign(value[k])
      {
        assert value[k] in value;
      }
    }
  }

  /** The decimal numeral of a number. */
  function DecimalText(n: nat): (s: string)
    ensures s != "" && AllDigits(s)
  {
    var last := ('0' as int + n % 10) as char;
    if n < 10 then [last] else DecimalText(n / 10) + [last]
  }

  lemma DecimalAppend(s: string, c: char)
    requires AllDigits(s) && '0' <= c <= '9'
    ensures AllDigits(s + [c]) && Decimal(s + [c]) == Decimal(s) * 10 + (c as int - '0' as int)
  {
    assert (s + [c])[..|s|] == s;
  }

  lemma {:induction false} DecimalReads(n: nat)
    ensures Decimal(DecimalText(n)) == n
  {
    var last := ('0' as int + n % 10) as char;
    if n < 10 {
      DecimalAppend("", last);
      assert "" + [last] == [last];
    } else {
      DecimalReads(n / 10);
      DecimalAppend(DecimalText(n / 10), last);
    }
  }

  lemma {:induction false} LeadingZeros(s: string)
    requires AllDigits(s)
    ensures AllDigits("0" + s) && Decimal("0" + s) == Decimal(s)
  {
    if s == "" {
      DecimalAppend("", '0');
      assert "" + ['0'] == "0" + s;
    } else {
      var front, last := s[..|s| - 1], s[|s| - 1];
      LeadingZeros(front);
      DecimalAppend("0" + front, last);
      assert "0" + s == "0" + front + [last];
    }
  }

  lemma DigitsAreNoSpace(s: string)
    requires s != "" && AllDigits(s)
    ensures Strip(s) == s
  {
    forall c | c in s
      ensures !IsSpace(c)
    {
    }
    StripNothing(s);
  }

  /** The parser reads every decimal numeral as its number, with a leading zero or without. */
  lemma DecimalsParse(n: nat)
    ensures Number(DecimalText(n)) == Some(n)
    ensures Number("0" + DecimalText(n)) == Some(n)
  {
    DecimalReads(n);
    LeadingZeros(DecimalText(n));
    DigitsAreNoSpace(DecimalText(n));
    DigitsAreNoSpace("0" + DecimalText(n));
  }

  // ----- the clock -----

  /** The day part beside an hour: `Early` is am or a Chinese word for the morning, `Late` is pm or a
      word for the afternoon, evening or night. The English word for morning changes nothing. */
  datatype DayPart = NoPart | Early | Late | Midday

  datatype Clock = Clock(hour: nat, minute: nat)

  predicate ValidClock(c: Clock) {
    c.hour < 24 && c.minute < 60
  }

  function NormalHour(part: DayPart, hour: nat): nat {
    if part == Late && hour < 12 then hour + 12
    else if part == Early && hour == 12 then 0
    else if part == Midday && hour < 11 then hour + 12
    else hour
  }

  /** None where the parser gives up. */
  function Normalised(part: DayPart, hour: nat, minute: nat): (c: Option<Clock>)
    ensures c.Some? ==> ValidClock(c.value)
  {
    if minute > 59 || NormalHour(part, hour) > 23 then None else Some(Clock(NormalHour(part, hour), minute))
  }

  /** On the twelve-hour dial, early hours are counted from midnight and late ones from noon. */
  lemma TwelveHourDial(part: DayPart, hour: nat, minute: nat)
    requires hour <= 12 && minute < 60 && (part == Early || part == Late)
    ensures Normalised(part, hour, minute) == Some(Clock(hour % 12 + (if part == Late then 12 else 0), minute))
  {
  }

  /** The hours from noon on, among zero to twelve. */
  predicate FromNoon(part: DayPart, hour: nat) {
    match part
    case Early => false
    case Late => true
    case Midday => hour != 11
    case NoPart => hour == 12
  }

  /** The parser gives up exactly for a minute or an hour that no clock shows. Otherwise the minute and
      the hours after twelve stay, and the hours up to twelve stand in the half of the day that the
      day part says. */
  lemma ClockExactly(part: DayPart, hour: nat, minute: nat)
    ensures Normalised(part, hour, minute) == None <==> minute > 59 || hour > 23
    ensures Normalised(part, hour, minute).Some? ==>
              var c := Normalised(part, hour, minute).value;
              && c.minute == minute
              && c.hour == if hour > 12 then hour else if FromNoon(part, hour) then hour % 12 + 12 else hour % 12
  {
  }

  // ----- days and instants -----

  /** Local wall-clock microseconds; day `o` starts at `o * DAY`. */
  const DAY := 86_400_000_000

  datatype DaySpec =
    | Bare
    | Dated(ordinal: int)
    | DaysAhead(days: nat)
    | NextWeek(weekday: nat)

  function ClockMicros(c: Clock): nat {
    (c.hour * 60 + c.minute) * 60_000_000
  }

  function TargetDay(base: int, day: DaySpec): int {
    var today := base / DAY;
    match day
    case Bare => today
    case Dated(ordinal) => ordinal
    case DaysAhead(days) => today + days
    case NextWeek(weekday) => today + (7 - Weekday(today) + weekday)
  }

  /** The local wall-clock instant; only a bare time of day rolls over. */
  function Resolve(base: int, day: DaySpec, c: Clock): int {
    var target := TargetDay(base, day) * DAY + ClockMicros(c);
    if day == Bare && target < base then target + DAY else target
  }

  /** In UTC, for a zone `offset` ahead of it. */
  function ResolveUtc(utcBase: int, offset: int, day: DaySpec, c: Clock): int {
    Resolve(utcBase + offset, day, c) - offset
  }

  predicate HasLocalTime(x: int, offset: int, c: Clock) {
    (x + offset) % DAY == ClockMicros(c)
  }

  lemma DayAndTime(day: int, time: int)
    requires 0 <= time < DAY
    ensures (day * DAY + time) / DAY == day && (day * DAY + time) % DAY == time
  {
  }

  /** A bare time of day resolves to the one instant with that local clock time in the twenty-four
      hours from the base on. */
  lemma BareTimeIsNext(utcBase: int, offset: int, c: Clock)
    requires ValidClock(c)
    ensures var r := ResolveUtc(utcBase, offset, Bare, c);
            && utcBase <= r < utcBase + DAY
            && HasLocalTime(r, offset, c)
            && forall x :: utcBase <= x < utcBase + DAY && HasLocalTime(x, offset, c) ==> x == r
  {
    var base := utcBase + offset;
    var today := base / DAY;
    var r := Resolve(base, Bare, c);
    DayAndTime(today, ClockMicros(c));
    DayAndTime(today + 1, ClockMicros(c));
    forall x | utcBase <= x < utcBase + DAY && HasLocalTime(x, offset, c)
      ensures x + offset == r
    {
      SameTimeSameInstant(base, x + offset, r);
    }
  }

  lemma SameTimeSameInstant(base: int, x: int, y: int)
    requires base <= x < base + DAY && base <= y < base + DAY && x % DAY == y % DAY
    ensures x == y
  {
    assert x == x / DAY * DAY + x % DAY && y == y / DAY * DAY + y % DAY;
  }

  /** The Monday on or before a day. */
  function WeekStart(ordinal: int): int {
    ordinal - Weekday(ordinal)
  }

  /** "Next week" plus a weekday is that weekday of the Monday-based week right after the base's,
      and no other day is; the clock time is kept and never rolls. */
  lemma NextWeekIsNextWeek(base: int, weekday: nat, c: Clock)
    requires weekday < 7 && ValidClock(c)
    ensures var day := Resolve(base, NextWeek(weekday), c) / DAY;
            && Weekday(day) == weekday
            && WeekStart(day) == WeekStart(base / DAY) + 7
            && (forall o :: Weekday(o) == weekday && WeekStart(o) == WeekStart(base / DAY) + 7 ==> o == day)
            && Resolve(base, NextWeek(weekday), c) % DAY == ClockMicros(c)
            && Resolve(base, NextWeek(weekday), c) > base
  {
    DayAndTime(TargetDay(base, NextWeek(weekday)), ClockMicros(c));
    assert base == base / DAY * DAY + base % DAY;
  }

  /** A named day is kept even when its time has passed: a date is that date, and a number of days is
      counted from the day of the base. */
  lemma NamedDaysDoNotRoll(base: int, ordinal: int, days: nat, c: Clock)
    requires ValidClock(c)
    ensures Resolve(base, Dated(ordinal), c) / DAY == ordinal
    ensures Resolve(base, DaysAhead(days), c) / DAY == base / DAY + days
  {
    DayAndTime(ordinal, ClockMicros(c));
    DayAndTime(base / DAY + days, ClockMicros(c));
  }

  lemma TimeOfDay(day: int, hour: nat, minute: nat)
    requires hour < 24 && minute < 60
    ensures var x := day * 86_400_000_000 + (hour * 60 + minute) * 60_000_000;
            && x / 86_400_000_000 == day
            && x / 3_600_000_000 % 24 == hour
            && x / 60_000_000 % 60 == minute
            && x % 60_000_000 == 0
  {
    var x := day * 86_400_000_000 + (hour * 60 + minute) * 60_000_000;
    assert x == ((day * 24 + hour) * 60 + minute) * 60_000_000;
    assert x == (day * 24 + hour) * 3_600_000_000 + minute * 60_000_000;
    assert x / 3_600_000_000 == day * 24 + hour;
    assert x / 60_000_000 == (day * 24 + hour) * 60 + minute;
  }

  /** Whatever the day, a wall clock shows the asked hour and minute, to the microsecond. */
  lemma ClockShows(base: int, day: DaySpec, c: Clock)
    requires ValidClock(c)
    ensures var x := Resolve(base, day, c);
            x / 3_600_000_000 % 24 == c.hour && x / 60_000_000 % 60 == c.minute && x % 60_000_000 == 0
  {
    TimeOfDay(TargetDay(base, day), c.hour, c.minute);
    TimeOfDay(TargetDay(base, day) + 1, c.hour, c.minute);
  }
}
