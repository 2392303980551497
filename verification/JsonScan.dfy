/** The brace scanner behind `extract_top_level_json`, its in-place loop, and the grammar of
    balanced texts that it recognises exactly. */
module JsonScan {
  import opened Wrappers
  import opened Text

  // ----- the scanner -----

  datatype Mode = Mode(depth: int, inString: bool, escaped: bool)

  const START := Mode(0, false, false)

  /** One character: string state first, then quotes and braces. */
  function Advance(m: Mode, ch: char): Mode {
    if m.inString then
      if m.escaped then m.(escaped := false)
      else if ch == '\\' then m.(escaped := true)
      else if ch == '"' then m.(inString := false)
      else m
    else if ch == '"' then m.(inString := true)
    else if ch == '{' then m.(depth := m.depth + 1)
    else if ch == '}' then m.(depth := m.depth - 1)
    else m
  }

  predicate ClosesHere(m: Mode, ch: char) {
    !m.inString && ch == '}' && m.depth == 1
  }

  /** How many characters the scanner reads until the depth returns to zero. */
  function ScanEnd(s: string, m: Mode): (end: Option<nat>)
    ensures end.Some? ==> 1 <= end.value <= |s|
  {
    if s == "" then None
    else if ClosesHere(m, s[0]) then Some(1)
    else Later(1, ScanEnd(s[1..], Advance(m, s[0])))
  }

  function Later(k: nat, end: Option<nat>): Option<nat> {
    if end.Some? then Some(end.value + k) else None
  }

  function Find(s: string, c: char): (at: Option<nat>)
    ensures at.Some? <==> c in s
    ensures at.Some? ==> at.value < |s| && s[at.value] == c && c !in s[..at.value]
  {
    if s == "" then None
    else if s[0] == c then Some(0)
    else
      var at := Find(s[1..], c);
      assert at.Some? ==> s[..at.value + 1] == [s[0]] + s[1..][..at.value];
      Later(1, at)
  }

  const FENCE := "```"

  function DropFirstLine(text: string): string {
    var newline := Find(text, '\n');
    if newline.Some? then text[newline.value + 1..] else text
  }

  function DropClosingFence(text: string): string {
    var trimmed := RStrip(text);
    if EndsWith(trimmed, FENCE) then RStrip(trimmed[..|trimmed| - 3]) else text
  }

  /** Drops the opening fence line and a closing fence; only for texts that open with one. */
  function StripFence(text: string): string {
    if StartsWith(text, FENCE) then DropClosingFence(DropFirstLine(text)) else text
  }

  function Extract(content: string): string {
    var text := Strip(content);
    if text == "" then text
    else
      var body := StripFence(text);
      var start := Find(body, '{');
      if start.None? then content
      else
        var end := ScanEnd(body[start.value..], START);
        if end.Some? then body[start.value..][..end.value] else content
  }

  lemma ScanStep(text: string, i: nat, m: Mode)
    requires i < |text|
    ensures ScanEnd(text[i..], m)
         == if ClosesHere(m, text[i]) then Some(1) else Later(1, ScanEnd(text[i + 1..], Advance(m, text[i])))
  {
    assert text[i..][1..] == text[i + 1..];
  }

  /** The loop of the program, over indices of one text. */
  method ScanFrom(text: string, start: nat) returns (end: Option<nat>)
    requires start <= |text|
    ensures end == Later(start, ScanEnd(text[start..], START))
  {
    var depth, inString, escaped := 0, false, false;
    var i := start;
    while i < |text|
      invariant start <= i <= |text|
      invariant Later(start, ScanEnd(text[start..], START)) == Later(i, ScanEnd(text[i..], Mode(depth, inString, escaped)))
    {
      var ch := text[i];
      ScanStep(text, i, Mode(depth, inString, escaped));
      i := i + 1;
      if inString {
        if escaped {
          escaped := false;
        } else if ch == '\\' {
          escaped := true;
        } else if ch == '"' {
          inString := false;
        }
        continue;
      }
      if ch == '"' {
        inString := true;
      } else if ch == '{' {
        depth := depth + 1;
      } else if ch == '}' {
        depth := depth - 1;
        if depth == 0 {
          return Some(i);
        }
      }
    }
    return None;
  }

  method ExtractTopLevelJson(content: string) returns (found: string)
    ensures found == Extract(content)
  {
    var text := Strip(content);
    if text == "" {
      return text;
    }
    text := StripFence(text);
    var start := Find(text, '{');
    if start.None? {
      return content;
    }
    var end := ScanFrom(text, start.value);
    if end.None? {
      return content;
    }
    found := text[start.value..end.value];
    assert found == text[start.value..][..end.value - start.value];
  }

  // ----- balanced texts -----

  /** One unit of a quoted string: a plain character, or a backslash and what it escapes. */
  datatype Unit = Raw(c: char) | Escaped(c: char)

  datatype Units = NoUnits | ConsUnit(head: Unit, tail: Units)

  datatype Item = Plain(c: char) | Quoted(units: Units) | Braces(items: Items)

  datatype Items = NoItems | ConsItem(head: Item, tail: Items)

  predicate UnitsOk(us: Units) {
    us.ConsUnit? ==> (us.head.Raw? ==> us.head.c != '"' && us.head.c != '\\') && UnitsOk(us.tail)
  }

  predicate ItemOk(it: Item) {
    match it
    case Plain(c) => c != '"' && c != '{' && c != '}'
    case Quoted(us) => UnitsOk(us)
    case Braces(its) => ItemsOk(its)
  }

  predicate ItemsOk(its: Items) {
    its.ConsItem? ==> ItemOk(its.head) && ItemsOk(its.tail)
  }

  function UnitsText(us: Units): string {
    match us
    case NoUnits => ""
    case ConsUnit(Raw(c), tail) => [c] + UnitsText(tail)
    case ConsUnit(Escaped(c), tail) => ['\\', c] + UnitsText(tail)
  }

  function ItemText(it: Item): string {
    match it
    case Plain(c) => [c]
    case Quoted(us) => "\"" + UnitsText(us) + "\""
    case Braces(its) => "{" + ItemsText(its) + "}"
  }

  function ItemsText(its: Items): string {
    match its
    case NoItems => ""
    case ConsItem(head, tail) => ItemText(head) + ItemsText(tail)
  }

  /** A text that opens with a brace and closes that brace with its last character. */
  ghost predicate Balanced(s: string) {
    exists its :: ItemsOk(its) && s == ItemText(Braces(its))
  }

  // ----- the scanner reads exactly the balanced texts -----

  lemma {:induction false} UnitsPass(us: Units, depth: int, rest: string)
    requires UnitsOk(us)
    ensures ScanEnd(UnitsText(us) + "\"" + rest, Mode(depth, true, false))
         == Later(|UnitsText(us)| + 1, ScanEnd(rest, Mode(depth, false, false)))
  {
    var s := UnitsText(us) + "\"" + rest;
    match us
    case NoUnits =>
      assert s[1..] == rest;
    case ConsUnit(Raw(c), tail) =>
      assert s[1..] == UnitsText(tail) + "\"" + rest;
      UnitsPass(tail, depth, rest);
    case ConsUnit(Escaped(c), tail) =>
      assert s[1..][1..] == UnitsText(tail) + "\"" + rest;
      UnitsPass(tail, depth, rest);
  }

  lemma LaterTwice(a: nat, b: nat, end: Option<nat>)
    ensures Later(a, Later(b, end)) == Later(a + b, end)
  {
  }

  /** One more character in front of a text whose scan is known. */
  lemma Prepend(c: char, tail: string, m: Mode, n: nat, end: Option<nat>)
    requires !ClosesHere(m, c) && ScanEnd(tail, Advance(m, c)) == Later(n, end)
    ensures ScanEnd([c] + tail, m) == Later(n + 1, end)
  {
    assert ([c] + tail)[1..] == tail;
  }

  lemma QuotedShape(us: Units, rest: string)
    ensures ItemText(Quoted(us)) + rest == ['"'] + (UnitsText(us) + "\"" + rest)
  {
  }

  lemma BracesShape(its: Items, rest: string)
    ensures ItemText(Braces(its)) + rest == ['{'] + (ItemsText(its) + (['}'] + rest))
  {
  }

  lemma QuotedPasses(us: Units, depth: int, rest: string)
    requires UnitsOk(us) && depth >= 1
    ensures ScanEnd(ItemText(Quoted(us)) + rest, Mode(depth, false, false))
         == Later(|ItemText(Quoted(us))|, ScanEnd(rest, Mode(depth, false, false)))
  {
    QuotedShape(us, rest);
    UnitsPass(us, depth, rest);
    Prepend('"', UnitsText(us) + "\"" + rest, Mode(depth, false, false), |UnitsText(us)| + 1,
            ScanEnd(rest, Mode(depth, false, false)));
  }

  /** A nested level passes when the `n` characters between its braces do. */
  lemma LevelPasses(s: string, tail: string, close: string, rest: string, n: nat, depth: int)
    requires depth >= 1 && s == ['{'] + tail && close == ['}'] + rest
    requires ScanEnd(tail, Mode(depth + 1, false, false)) == Later(n, ScanEnd(close, Mode(depth + 1, false, false)))
    ensures ScanEnd(s, Mode(depth, false, false)) == Later(n + 2, ScanEnd(rest, Mode(depth, false, false)))
  {
    var end := ScanEnd(rest, Mode(depth, false, false));
    assert Advance(Mode(depth + 1, false, false), '}') == Mode(depth, false, false);
    assert Later(0, end) == end;
    Prepend('}', rest, Mode(depth + 1, false, false), 0, end);
    LaterTwice(n, 1, end);
    assert Advance(Mode(depth, false, false), '{') == Mode(depth + 1, false, false);
    Prepend('{', tail, Mode(depth, false, false), n + 1, end);
  }

  lemma {:induction false} ItemPasses(it: Item, depth: int, rest: string)
    requires ItemOk(it) && depth >= 1
    ensures ScanEnd(ItemText(it) + rest, Mode(depth, false, false))
         == Later(|ItemText(it)|, ScanEnd(rest, Mode(depth, false, false)))
    decreases it
  {
    match it
    case Plain(c) =>
      assert (ItemText(it) + rest)[1..] == rest;
    case Quoted(us) =>
      QuotedPasses(us, depth, rest);
    case Braces(its) =>
      ItemsPass(its, depth + 1, ['}'] + rest);
      BracesShape(its, rest);
      LevelPasses(ItemText(it) + rest, ItemsText(its) + (['}'] + rest), ['}'] + rest, rest, |ItemsText(its)|, depth);
  }

  lemma {:induction false} ItemsPass(its: Items, depth: int, rest: string)
    requires ItemsOk(its) && depth >= 1
    ensures ScanEnd(ItemsText(its) + rest, Mode(depth, false, false))
         == Later(|ItemsText(its)|, ScanEnd(rest, Mode(depth, false, false)))
    decreases its
  {
    match its
    case NoItems =>
      assert ItemsText(its) + rest == rest;
    case ConsItem(head, tail) =>
      assert ItemsText(its) + rest == ItemText(head) + (ItemsText(tail) + rest);
      ItemPasses(head, depth, ItemsText(tail) + rest);
      ItemsPass(tail, depth, rest);
  }

  /** A balanced text is read to its end, whatever follows it. */
  lemma BalancedIsRead(its: Items, rest: string)
    requires ItemsOk(its)
    ensures ScanEnd(ItemText(Braces(its)) + rest, START) == Some(|ItemText(Braces(its))|)
  {
    var s := ItemText(Braces(its)) + rest;
    assert s[0] == '{' && s[1..] == ItemsText(its) + ("}" + rest);
    OpensScan(s);
    ItemsPass(its, 1, "}" + rest);
    assert ScanEnd("}" + rest, Mode(1, false, false)) == Some(1);
  }

  lemma OpensScan(s: string)
    requires s != "" && s[0] == '{'
    ensures ScanEnd(s, START) == Later(1, ScanEnd(s[1..], Mode(1, false, false)))
  {
  }

  /** The string part of what the scanner read. */
  lemma {:induction false} ReadUnits(s: string, depth: int) returns (us: Units, k: nat)
    requires ScanEnd(s, Mode(depth, true, false)).Some?
    ensures UnitsOk(us) && k < |s| && s[..k] == UnitsText(us) && s[k] == '"'
    ensures ScanEnd(s, Mode(depth, true, false)) == Later(k + 1, ScanEnd(s[k + 1..], Mode(depth, false, false)))
    decreases |s|
  {
    if s[0] == '"' {
      us, k := NoUnits, 0;
    } else if s[0] == '\\' {
      EscapeRead(s, depth);
      var tail, j := ReadUnits(s[2..], depth);
      us, k := ConsUnit(Escaped(s[1]), tail), j + 2;
      EscapedUnits(s, tail, j);
      LaterTwice(2, j + 1, ScanEnd(s[k + 1..], Mode(depth, false, false)));
    } else {
      RawRead(s, depth);
      var tail, j := ReadUnits(s[1..], depth);
      us, k := ConsUnit(Raw(s[0]), tail), j + 1;
      RawUnits(s, tail, j);
      LaterTwice(1, j + 1, ScanEnd(s[k + 1..], Mode(depth, false, false)));
    }
  }

  lemma EscapeRead(s: string, depth: int)
    requires s != "" && s[0] == '\\' && ScanEnd(s, Mode(depth, true, false)).Some?
    ensures |s| >= 2 && ScanEnd(s, Mode(depth, true, false)) == Later(2, ScanEnd(s[2..], Mode(depth, true, false)))
  {
    assert ScanEnd(s[1..], Mode(depth, true, true)).Some?;
    assert s[1..][1..] == s[2..];
    LaterTwice(1, 1, ScanEnd(s[2..], Mode(depth, true, false)));
  }

  lemma RawRead(s: string, depth: int)
    requires s != "" && s[0] != '\\' && s[0] != '"'
    ensures ScanEnd(s, Mode(depth, true, false)) == Later(1, ScanEnd(s[1..], Mode(depth, true, false)))
  {
  }

  lemma EscapedUnits(s: string, tail: Units, j: nat)
    requires j + 2 < |s| && s[0] == '\\' && UnitsOk(tail) && s[2..][..j] == UnitsText(tail)
    ensures UnitsOk(ConsUnit(Escaped(s[1]), tail)) && s[..j + 2] == UnitsText(ConsUnit(Escaped(s[1]), tail))
    ensures s[2..][j] == s[j + 2] && s[2..][j + 1..] == s[j + 3..]
  {
    assert s[..j + 2] == ['\\', s[1]] + s[2..][..j];
  }

  lemma RawUnits(s: string, tail: Units, j: nat)
    requires j + 1 < |s| && s[0] != '\\' && s[0] != '"' && UnitsOk(tail) && s[1..][..j] == UnitsText(tail)
    ensures UnitsOk(ConsUnit(Raw(s[0]), tail)) && s[..j + 1] == UnitsText(ConsUnit(Raw(s[0]), tail))
    ensures s[1..][j] == s[j + 1] && s[1..][j + 1..] == s[j + 2..]
  {
    assert s[..j + 1] == [s[0]] + s[1..][..j];
  }

  lemma Delimited(s: string, j: nat)
    requires j + 2 <= |s|
    ensures s[..j + 2] == [s[0]] + s[1..][..j] + [s[1..][j]]
    ensures s[1..][j + 1..] == s[j + 2..]
  {
  }

  /** A quoted string or a nested level, up to its delimiter, is one item. */
  lemma ReadQuoted(s: string, us: Units, j: nat)
    requires s != "" && s[0] == '"' && UnitsOk(us) && j + 1 < |s| && s[1..][..j] == UnitsText(us) && s[1..][j] == '"'
    ensures ItemOk(Quoted(us)) && s[..j + 2] == ItemText(Quoted(us))
  {
    Delimited(s, j);
  }

  lemma ReadNested(s: string, its: Items, j: nat)
    requires s != "" && s[0] == '{' && ItemsOk(its) && j + 1 < |s| && s[1..][..j] == ItemsText(its) && s[1..][j] == '}'
    ensures ItemOk(Braces(its)) && s[..j + 2] == ItemText(Braces(its))
  {
    Delimited(s, j);
  }

  lemma ReadOn(s: string, m: Mode, j: nat, end: Option<nat>)
    requires s != "" && !ClosesHere(m, s[0]) && ScanEnd(s[1..], Advance(m, s[0])) == Later(j + 1, end)
    ensures ScanEnd(s, m) == Later(j + 2, end)
  {
    assert s == [s[0]] + s[1..];
    Prepend(s[0], s[1..], m, j + 1, end);
  }

  /** The next item the scanner read inside a level. */
  lemma {:induction false} ReadItem(s: string, depth: int) returns (it: Item, n: nat)
    requires depth >= 1 && ScanEnd(s, Mode(depth, false, false)).Some? && s[0] != '}'
    ensures ItemOk(it) && 1 <= n <= |s| && s[..n] == ItemText(it)
    ensures ScanEnd(s, Mode(depth, false, false)) == Later(n, ScanEnd(s[n..], Mode(depth, false, false)))
    decreases |s|, 0
  {
    if s[0] == '"' {
      var us, j := ReadUnits(s[1..], depth);
      it, n := Quoted(us), j + 2;
      ReadQuoted(s, us, j);
      Delimited(s, j);
      ReadOn(s, Mode(depth, false, false), j, ScanEnd(s[n..], Mode(depth, false, false)));
    } else if s[0] == '{' {
      var inner, j := ReadItems(s[1..], depth + 1);
      it, n := Braces(inner), j + 2;
      ReadNested(s, inner, j);
      Delimited(s, j);
      ReadOn(s, Mode(depth, false, false), j, ScanEnd(s[n..], Mode(depth, false, false)));
    } else {
      it, n := Plain(s[0]), 1;
      assert s[..1] == [s[0]];
    }
  }

  lemma JoinItems(s: string, head: Item, n: nat, tail: Items, j: nat)
    requires n + j < |s| && s[..n] == ItemText(head) && s[n..][..j] == ItemsText(tail)
    ensures s[..n + j] == ItemsText(ConsItem(head, tail))
    ensures s[n..][j] == s[n + j] && s[n..][j + 1..] == s[n + j + 1..]
  {
    assert s[..n + j] == s[..n] + s[n..][..j];
  }

  /** The items the scanner read before the brace that closes this level. */
  lemma {:induction false} ReadItems(s: string, depth: int) returns (its: Items, k: nat)
    requires depth >= 1 && ScanEnd(s, Mode(depth, false, false)).Some?
    ensures ItemsOk(its) && k < |s| && s[..k] == ItemsText(its) && s[k] == '}'
    ensures ScanEnd(s, Mode(depth, false, false))
         == if depth == 1 then Some(k + 1) else Later(k + 1, ScanEnd(s[k + 1..], Mode(depth - 1, false, false)))
    decreases |s|, 1
  {
    if s[0] == '}' {
      its, k := NoItems, 0;
    } else {
      var head, n := ReadItem(s, depth);
      var tail, j := ReadItems(s[n..], depth);
      its, k := ConsItem(head, tail), n + j;
      JoinItems(s, head, n, tail, j);
      LaterTwice(n, j + 1, ScanEnd(s[k + 1..], Mode(depth - 1, false, false)));
    }
  }

  lemma StopsAreBalanced(s: string, n: nat)
    requires s != "" && s[0] == '{' && n <= |s| && ScanEnd(s, START) == Some(n)
    ensures Balanced(s[..n])
  {
    OpensScan(s);
    var its, k := ReadItems(s[1..], 1);
    assert s[..n] == "{" + s[1..][..k] + "}";
    assert s[..n] == ItemText(Braces(its));
  }

  lemma BalancedStops(s: string, n: nat)
    requires n <= |s| && Balanced(s[..n])
    ensures ScanEnd(s, START) == Some(n)
  {
    var its :| ItemsOk(its) && s[..n] == ItemText(Braces(its));
    assert s == s[..n] + s[n..];
    BalancedIsRead(its, s[n..]);
  }

  /** From an opening brace the scanner stops after `n` characters exactly when those form a
      balanced text. */
  lemma ScansExactlyBalanced(s: string, n: nat)
    requires s != "" && s[0] == '{' && n <= |s|
    ensures ScanEnd(s, START) == Some(n) <==> Balanced(s[..n])
  {
    if ScanEnd(s, START) == Some(n) {
      StopsAreBalanced(s, n);
    }
    if Balanced(s[..n]) {
      BalancedStops(s, n);
    }
  }

  /** The first `n` characters of `s` are balanced. */
  ghost predicate BalancedPrefix(s: string, n: nat) {
    n <= |s| && Balanced(s[..n])
  }

  /** The general law: with `body` the fence-stripped text and `k` its first brace, the result
      is the one balanced prefix of `body[k..]`; without one it is the content itself. */
  lemma ExtractionIsBalanced(content: string)
    requires Strip(content) != ""
    ensures var body := StripFence(Strip(content));
            match Find(body, '{')
            case None => Extract(content) == content
            case Some(k) =>
              if exists n: nat :: BalancedPrefix(body[k..], n)
              then
                && Extract(content) <= body[k..] && Balanced(Extract(content))
                && forall n: nat :: BalancedPrefix(body[k..], n) ==> n == |Extract(content)|
              else Extract(content) == content
  {
    var body := StripFence(Strip(content));
    var at := Find(body, '{');
    if at.Some? {
      var s := body[at.value..];
      forall n: nat | n <= |s|
        ensures ScanEnd(s, START) == Some(n) <==> BalancedPrefix(s, n)
      {
        ScansExactlyBalanced(s, n);
      }
      var end := ScanEnd(s, START);
      if end.Some? {
        assert BalancedPrefix(s, end.value);
        assert Extract(content) == s[..end.value];
      }
    }
  }

  lemma {:induction false} StripsToNothing(s: string)
    ensures LStrip(s) == "" <==> forall c :: c in s ==> IsSpace(c)
  {
    if s != "" {
      StripsToNothing(s[1..]);
      assert s[0] in s && s == [s[0]] + s[1..];
    }
  }

  /** The result is empty exactly for a content of white space alone, which thus is not given back
      as it is. */
  lemma EmptyExactlyWhenBlank(content: string)
    ensures Extract(content) == "" <==> forall c :: c in content ==> IsSpace(c)
  {
    StripsToNothing(content);
    var s := LStrip(content);
    if s != "" {
      assert !IsSpace(s[0]);
      StartStays(s);
      assert content != "";
    }
  }

  lemma {:induction false} StartStays(s: string)
    requires s != "" && !IsSpace(s[0])
    ensures RStrip(s) != ""
  {
    if IsSpace(s[|s| - 1]) {
      StartStays(s[..|s| - 1]);
    }
  }
}
