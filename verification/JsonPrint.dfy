/** JSON texts (sections 2 to 7 of RFC 8259), written out from trees that keep their layout, and
    the law that extraction recovers exactly the object that was written. */
module JsonPrint {
  import opened Wrappers
  import opened Text
  import opened JsonScan

  /** One character of a string: itself, a two-character escape, or four hexadecimal digits. */
  datatype Letter = Bare(c: char) | Short(c: char) | Hex(digits: string)

  datatype Json =
    | Null | True | False
    | Number(text: string)
    | Str(letters: seq<Letter>)
    | Array(elements: Elements)
    | Object(members: Members)

  /** White space stands before and after every value; an empty array may hold some too. */
  datatype Elements =
    | NoElements(blank: string)
    | LastElement(before: string, value: Json, after: string)
    | Element(before: string, value: Json, after: string, rest: Elements)

  /** A name and a value with the white space at each of the four places around them. */
  datatype Pair = Pair(
    before: string, name: seq<Letter>, afterName: string, beforeValue: string, value: Json, after: string)

  datatype Members =
    | NoMembers(blank: string)
    | LastMember(pair: Pair)
    | Member(pair: Pair, rest: Members)

  predicate IsBlank(s: string) {
    forall c :: c in s ==> c == ' ' || c == '\t' || c == '\n' || c == '\r'
  }

  predicate IsNumberChar(c: char) {
    '0' <= c <= '9' || c == '+' || c == '-' || c == '.' || c == 'e' || c == 'E'
  }

  predicate IsHexDigit(c: char) {
    '0' <= c <= '9' || 'a' <= c <= 'f' || 'A' <= c <= 'F'
  }

  predicate LetterOk(l: Letter) {
    match l
    case Bare(c) => c != '"' && c != '\\' && 0x20 <= c as int
    case Short(c) => c in "\"\\/bfnrt"
    case Hex(digits) => |digits| == 4 && forall c :: c in digits ==> IsHexDigit(c)
  }

  predicate LettersOk(ls: seq<Letter>) {
    forall l :: l in ls ==> LetterOk(l)
  }

  predicate JsonOk(j: Json) {
    match j
    case Number(text) => forall c :: c in text ==> IsNumberChar(c)
    case Str(ls) => LettersOk(ls)
    case Array(es) => ElementsOk(es)
    case Object(ms) => MembersOk(ms)
    case _ => true
  }

  predicate ElementsOk(es: Elements) {
    match es
    case NoElements(blank) => IsBlank(blank)
    case LastElement(before, value, after) => IsBlank(before) && JsonOk(value) && IsBlank(after)
    case Element(before, value, after, rest) =>
      IsBlank(before) && JsonOk(value) && IsBlank(after) && ElementsOk(rest) && !rest.NoElements?
  }

  predicate PairOk(p: Pair) {
    && IsBlank(p.before) && LettersOk(p.name) && IsBlank(p.afterName)
    && IsBlank(p.beforeValue) && JsonOk(p.value) && IsBlank(p.after)
  }

  predicate MembersOk(ms: Members) {
    match ms
    case NoMembers(blank) => IsBlank(blank)
    case LastMember(pair) => PairOk(pair)
    case Member(pair, rest) => PairOk(pair) && MembersOk(rest) && !rest.NoMembers?
  }

  // ----- writing -----

  function LetterText(l: Letter): string {
    match l
    case Bare(c) => [c]
    case Short(c) => ['\\', c]
    case Hex(digits) => ['\\', 'u'] + digits
  }

  function LettersText(ls: seq<Letter>): string {
    if ls == [] then "" else LetterText(ls[0]) + LettersText(ls[1..])
  }

  function Quote(ls: seq<Letter>): string {
    "\"" + LettersText(ls) + "\""
  }

  function Print(j: Json): string {
    match j
    case Null => "null"
    case True => "true"
    case False => "false"
    case Number(text) => text
    case Str(ls) => Quote(ls)
    case Array(es) => "[" + PrintElements(es) + "]"
    case Object(ms) => "{" + PrintMembers(ms) + "}"
  }

  function PrintElements(es: Elements): string {
    match es
    case NoElements(blank) => blank
    case LastElement(before, value, after) => before + Print(value) + after
    case Element(before, value, after, rest) => before + Print(value) + after + "," + PrintElements(rest)
  }

  function PrintPair(p: Pair): string {
    (p.before + Quote(p.name) + p.afterName) + ":" + (p.beforeValue + Print(p.value) + p.after)
  }

  function PrintMembers(ms: Members): string {
    match ms
    case NoMembers(blank) => blank
    case LastMember(pair) => PrintPair(pair)
    case Member(pair, rest) => PrintPair(pair) + "," + PrintMembers(rest)
  }

  // ----- the usual escaping -----

  function HexDigit(n: nat): (c: char)
    requires n < 16
    ensures IsHexDigit(c)
  {
    if n < 10 then (48 + n) as char else (87 + n) as char
  }

  function Unicode(n: nat): (l: Letter)
    requires n < 0x10000
    ensures LetterOk(l)
  {
    Hex([HexDigit(n / 4096), HexDigit(n / 256 % 16), HexDigit(n / 16 % 16), HexDigit(n % 16)])
  }

  /** How `json.dumps` writes one character, with or without `ensure_ascii`. */
  function Escape(c: char, asciiOnly: bool): (ls: seq<Letter>)
    ensures LettersOk(ls)
  {
    var n := c as int;
    if c == '"' || c == '\\' then [Short(c)]
    else if c == '\n' then [Short('n')]
    else if c == '\r' then [Short('r')]
    else if c == '\t' then [Short('t')]
    else if n == 8 then [Short('b')]
    else if n == 12 then [Short('f')]
    else if n < 32 || (asciiOnly && 126 < n < 0x10000) then [Unicode(n)]
    else if asciiOnly && 0x10000 <= n
    then [Unicode(0xD800 + (n - 0x10000) / 0x400), Unicode(0xDC00 + (n - 0x10000) % 0x400)]
    else [Bare(c)]
  }

  /** The string contents `json.dumps` writes are among the letters of the grammar. */
  function DumpedLetters(s: string, asciiOnly: bool): (ls: seq<Letter>)
    ensures LettersOk(ls)
  {
    if s == "" then [] else Escape(s[0], asciiOnly) + DumpedLetters(s[1..], asciiOnly)
  }

  function HexValue(c: char): int {
    if '0' <= c <= '9' then c as int - 48
    else if 'a' <= c <= 'f' then c as int - 87
    else if 'A' <= c <= 'F' then c as int - 55
    else 0
  }

  /** What a letter stands for, by section 7 of RFC 8259: a character, or a UTF-16 code unit. */
  function Meaning(l: Letter): int
    requires LetterOk(l)
  {
    match l
    case Bare(c) => c as int
    case Short(c) =>
      if c == 'b' then 0x08 else if c == 'f' then 0x0C else if c == 'n' then 0x0A
      else if c == 'r' then 0x0D else if c == 't' then 0x09 else c as int
    case Hex(digits) =>
      ((HexValue(digits[0]) * 16 + HexValue(digits[1])) * 16 + HexValue(digits[2])) * 16 + HexValue(digits[3])
  }

  lemma HexDigitReads(n: nat)
    requires n < 16
    ensures HexValue(HexDigit(n)) == n
  {
  }

  lemma UnicodeReads(n: nat)
    requires n < 0x10000
    ensures Meaning(Unicode(n)) == n
  {
    HexDigitReads(n / 4096);
    HexDigitReads(n / 256 % 16);
    HexDigitReads(n / 16 % 16);
    HexDigitReads(n % 16);
    assert n / 256 == n / 4096 * 16 + n / 256 % 16 && n / 16 == n / 256 * 16 + n / 16 % 16;
  }

  /** The characters with an escape of two characters. */
  predicate HasShort(c: char) {
    c == '"' || c == '\\' || c == '\n' || c == '\r' || c == '\t' || c as int == 8 || c as int == 12
  }

  lemma ShortReads(c: char, asciiOnly: bool)
    requires HasShort(c)
    ensures var ls := Escape(c, asciiOnly); |ls| == 1 && ls[0].Short? && Meaning(ls[0]) == c as int
  {
  }

  lemma LongReads(c: char, asciiOnly: bool)
    requires !HasShort(c) && (c as int < 32 || (asciiOnly && 126 < c as int < 0x10000))
    ensures var ls := Escape(c, asciiOnly); |ls| == 1 && ls[0].Hex? && Meaning(ls[0]) == c as int
  {
    UnicodeReads(c as int);
  }

  lemma BareReads(c: char, asciiOnly: bool)
    requires !HasShort(c) && 32 <= c as int && (asciiOnly ==> c as int <= 126)
    ensures Escape(c, asciiOnly) == [Bare(c)]
  {
  }

  lemma PairRange(n: int)
    requires 0x10000 <= n < 0x110000
    ensures 0xD800 <= 0xD800 + (n - 0x10000) / 0x400 < 0xDC00 <= 0xDC00 + (n - 0x10000) % 0x400 < 0xE000
  {
  }

  lemma PairIsWritten(c: char, high: nat, low: nat)
    requires c as int >= 0x10000 && high < 0x10000 && low < 0x10000
    requires high == 0xD800 + (c as int - 0x10000) / 0x400 && low == 0xDC00 + (c as int - 0x10000) % 0x400
    ensures Escape(c, true) == [Unicode(high), Unicode(low)]
  {
  }

  lemma PairReads(c: char)
    requires c as int >= 0x10000
    ensures ReadsAs(Escape(c, true), c as int) && forall l :: l in Escape(c, true) ==> l.Hex?
  {
    var n := c as int;
    var high, low := 0xD800 + (n - 0x10000) / 0x400, 0xDC00 + (n - 0x10000) % 0x400;
    PairRange(n);
    PairIsWritten(c, high, low);
    PairMeans(n, high, low);
  }

  lemma PairMeans(n: int, high: int, low: int)
    requires 0xD800 <= high < 0xDC00 <= low < 0xE000
    requires n == 0x10000 + (high - 0xD800) * 0x400 + (low - 0xDC00)
    ensures ReadsAs([Unicode(high), Unicode(low)], n)
  {
    UnicodeReads(high);
    UnicodeReads(low);
  }

  /** `n` is the one code unit of the letters, or the two form its surrogate pair. */
  predicate ReadsAs(ls: seq<Letter>, n: int)
    requires LettersOk(ls)
  {
    || (|ls| == 1 && Meaning(ls[0]) == n)
    || (|ls| == 2 && 0xD800 <= Meaning(ls[0]) < 0xDC00 <= Meaning(ls[1]) < 0xE000
        && n == 0x10000 + (Meaning(ls[0]) - 0xD800) * 0x400 + (Meaning(ls[1]) - 0xDC00))
  }

  /** What is written for a character stands for it, and with `ensure_ascii` nothing but ASCII is
      written as it is. */
  lemma EscapeReads(c: char, asciiOnly: bool)
    ensures ReadsAs(Escape(c, asciiOnly), c as int)
    ensures asciiOnly ==> forall l :: l in Escape(c, asciiOnly) && l.Bare? ==> l.c as int < 0x80
  {
    if HasShort(c) {
      ShortReads(c, asciiOnly);
    } else if c as int < 32 || (asciiOnly && 126 < c as int < 0x10000) {
      LongReads(c, asciiOnly);
    } else if asciiOnly && c as int >= 0x10000 {
      PairReads(c);
    } else {
      BareReads(c, asciiOnly);
    }
  }

  // ----- written texts are sequences of scanner items -----

  function AppendUnits(a: Units, b: Units): Units {
    if a.NoUnits? then b else ConsUnit(a.head, AppendUnits(a.tail, b))
  }

  lemma {:induction false} AppendUnitsText(a: Units, b: Units)
    ensures UnitsText(AppendUnits(a, b)) == UnitsText(a) + UnitsText(b)
    ensures UnitsOk(a) && UnitsOk(b) ==> UnitsOk(AppendUnits(a, b))
  {
    if a.ConsUnit? {
      AppendUnitsText(a.tail, b);
    }
  }

  function AppendItems(a: Items, b: Items): Items {
    if a.NoItems? then b else ConsItem(a.head, AppendItems(a.tail, b))
  }

  lemma {:induction false} AppendItemsText(a: Items, b: Items)
    ensures ItemsText(AppendItems(a, b)) == ItemsText(a) + ItemsText(b)
  {
    if a.ConsItem? {
      AppendItemsText(a.tail, b);
      ThreeTexts(ItemText(a.head), ItemsText(a.tail), ItemsText(b));
    }
  }

  lemma ThreeTexts(x: string, y: string, z: string)
    ensures x + (y + z) == x + y + z
  {
  }

  lemma {:induction false} AppendItemsOk(a: Items, b: Items)
    requires ItemsOk(a) && ItemsOk(b)
    ensures ItemsOk(AppendItems(a, b))
  {
    if a.ConsItem? {
      AppendItemsOk(a.tail, b);
    }
  }

  /** The text is the text of some well-formed items. */
  ghost predicate IsItems(s: string) {
    exists its :: ItemsOk(its) && s == ItemsText(its)
  }

  lemma ItemsConcat(a: string, b: string)
    requires IsItems(a) && IsItems(b)
    ensures IsItems(a + b)
  {
    var x :| ItemsOk(x) && a == ItemsText(x);
    var y :| ItemsOk(y) && b == ItemsText(y);
    AppendItemsText(x, y);
    AppendItemsOk(x, y);
  }

  lemma OneItem(it: Item)
    requires ItemOk(it)
    ensures IsItems(ItemText(it))
  {
    var its := ConsItem(it, NoItems);
    assert ItemsOk(its);
    assert ItemsText(its) == ItemText(it) + "" == ItemText(it);
  }

  lemma {:induction false} PlainIsItems(s: string)
    requires IsPlainText(s)
    ensures IsItems(s)
  {
    if s == "" {
      assert ItemsText(NoItems) == s;
    } else {
      assert s[0] in s && forall c :: c in s[1..] ==> c in s;
      PlainIsItems(s[1..]);
      OneItem(Plain(s[0]));
      ItemsConcat([s[0]], s[1..]);
      assert s == [s[0]] + s[1..];
    }
  }

  predicate IsPlainText(s: string) {
    forall c :: c in s ==> c != '"' && c != '{' && c != '}'
  }

  ghost predicate IsUnits(s: string) {
    exists us :: UnitsOk(us) && s == UnitsText(us)
  }

  lemma UnitsConcat(a: string, b: string)
    requires IsUnits(a) && IsUnits(b)
    ensures IsUnits(a + b)
  {
    var x :| UnitsOk(x) && a == UnitsText(x);
    var y :| UnitsOk(y) && b == UnitsText(y);
    AppendUnitsText(x, y);
  }

  lemma OneUnit(u: Unit)
    requires u.Raw? ==> u.c != '"' && u.c != '\\'
    ensures IsUnits(UnitsText(ConsUnit(u, NoUnits)))
    ensures UnitsText(ConsUnit(u, NoUnits)) == if u.Raw? then [u.c] else ['\\', u.c]
  {
    assert UnitsOk(ConsUnit(u, NoUnits));
  }

  lemma {:induction false} RawIsUnits(s: string)
    requires forall c :: c in s ==> c != '"' && c != '\\'
    ensures IsUnits(s)
  {
    if s == "" {
      assert UnitsText(NoUnits) == "";
    } else {
      assert s[0] in s && forall c :: c in s[1..] ==> c in s;
      RawIsUnits(s[1..]);
      OneUnit(Raw(s[0]));
      UnitsConcat([s[0]], s[1..]);
      assert s == [s[0]] + s[1..];
    }
  }

  lemma LetterIsUnits(l: Letter)
    requires LetterOk(l)
    ensures IsUnits(LetterText(l))
  {
    match l
    case Bare(c) => OneUnit(Raw(c));
    case Short(c) => OneUnit(Unit.Escaped(c));
    case Hex(digits) =>
      OneUnit(Unit.Escaped('u'));
      RawIsUnits(digits);
      UnitsConcat(['\\', 'u'], digits);
  }

  lemma {:induction false} LettersAreUnits(ls: seq<Letter>)
    requires LettersOk(ls)
    ensures IsUnits(LettersText(ls))
  {
    if ls == [] {
      assert UnitsText(NoUnits) == "";
    } else {
      assert ls[0] in ls && forall l :: l in ls[1..] ==> l in ls;
      LetterIsUnits(ls[0]);
      LettersAreUnits(ls[1..]);
      UnitsConcat(LetterText(ls[0]), LettersText(ls[1..]));
    }
  }

  lemma QuoteIsItems(ls: seq<Letter>)
    requires LettersOk(ls)
    ensures IsItems(Quote(ls))
  {
    LettersAreUnits(ls);
    var us :| UnitsOk(us) && LettersText(ls) == UnitsText(us);
    OneItem(Quoted(us));
  }

  /** A middle between two plain texts. */
  lemma PaddedIsItems(before: string, middle: string, after: string)
    requires IsPlainText(before) && IsItems(middle) && IsPlainText(after)
    ensures IsItems(before + middle + after)
  {
    PlainIsItems(before);
    PlainIsItems(after);
    ItemsConcat(before, middle);
    ItemsConcat(before + middle, after);
  }

  lemma JoinedIsItems(left: string, separator: string, right: string)
    requires IsItems(left) && IsPlainText(separator) && IsItems(right)
    ensures IsItems(left + separator + right)
  {
    PlainIsItems(separator);
    ItemsConcat(left, separator);
    ItemsConcat(left + separator, right);
  }

  lemma BracedIsItems(s: string)
    requires IsItems(s)
    ensures IsItems("{" + s + "}") && Balanced("{" + s + "}")
  {
    var its :| ItemsOk(its) && s == ItemsText(its);
    assert ItemText(Braces(its)) == "{" + s + "}";
    OneItem(Braces(its));
  }

  lemma {:induction false} PrintIsItems(j: Json)
    requires JsonOk(j)
    ensures IsItems(Print(j))
    decreases j
  {
    match j
    case Null => PlainIsItems("null");
    case True => PlainIsItems("true");
    case False => PlainIsItems("false");
    case Number(text) => PlainIsItems(text);
    case Str(ls) => QuoteIsItems(ls);
    case Array(es) =>
      ElementsAreItems(es);
      PaddedIsItems("[", PrintElements(es), "]");
    case Object(ms) =>
      MembersAreItems(ms);
      BracedIsItems(PrintMembers(ms));
  }

  lemma {:induction false} ElementsAreItems(es: Elements)
    requires ElementsOk(es)
    ensures IsItems(PrintElements(es))
    decreases es
  {
    match es
    case NoElements(blank) => PlainIsItems(blank);
    case LastElement(before, value, after) =>
      PrintIsItems(value);
      PaddedIsItems(before, Print(value), after);
    case Element(before, value, after, rest) =>
      PrintIsItems(value);
      PaddedIsItems(before, Print(value), after);
      ElementsAreItems(rest);
      JoinedIsItems(before + Print(value) + after, ",", PrintElements(rest));
  }

  lemma {:induction false} PairIsItems(p: Pair)
    requires PairOk(p)
    ensures IsItems(PrintPair(p))
    decreases p
  {
    QuoteIsItems(p.name);
    PaddedIsItems(p.before, Quote(p.name), p.afterName);
    PrintIsItems(p.value);
    PaddedIsItems(p.beforeValue, Print(p.value), p.after);
    JoinedIsItems(p.before + Quote(p.name) + p.afterName, ":", p.beforeValue + Print(p.value) + p.after);
  }

  lemma {:induction false} MembersAreItems(ms: Members)
    requires MembersOk(ms)
    ensures IsItems(PrintMembers(ms))
    decreases ms
  {
    match ms
    case NoMembers(blank) => PlainIsItems(blank);
    case LastMember(pair) => PairIsItems(pair);
    case Member(pair, rest) =>
      PairIsItems(pair);
      MembersAreItems(rest);
      JoinedIsItems(PrintPair(pair), ",", PrintMembers(rest));
  }

  /** Every object text of the grammar, in any layout and any escaping, is a balanced text. */
  lemma PrintedObjectIsBalanced(ms: Members)
    requires MembersOk(ms)
    ensures Balanced(Print(Object(ms)))
  {
    MembersAreItems(ms);
    BracedIsItems(PrintMembers(ms));
  }

  // ----- extraction inverts printing -----

  /** The opening line of the text, if it is a code fence, ends before the object: what stands
      before the object does not open a fence, or holds a newline, or no newline follows at all. */
  predicate FenceLineEnds(prefix: string, rest: string) {
    var p := LStrip(prefix);
    !StartsWith(p, FENCE) || '\n' in p || '\n' !in rest
  }

  lemma FindInFront(a: string, b: string, c: char)
    requires c in a
    ensures Find(a + b, c) == Find(a, c)
  {
    if a[0] != c {
      assert (a + b)[1..] == a[1..] + b;
      FindInFront(a[1..], b, c);
    }
  }

  lemma {:induction false} FindAfter(a: string, b: string, c: char)
    requires c !in a
    ensures Find(a + b, c) == Later(|a|, Find(b, c))
  {
    if a == "" {
      assert a + b == b;
    } else {
      assert (a + b)[1..] == a[1..] + b;
      FindAfter(a[1..], b, c);
    }
  }

  lemma FenceIsLastThree(t: string)
    requires EndsWith(t, FENCE)
    ensures |t| >= 3 && t[|t| - 3] == '`' && t[|t| - 2] == '`' && t[|t| - 1] == '`'
  {
    var last := t[|t| - 3..];
    assert last[0] == FENCE[0] && last[1] == FENCE[1] && last[2] == FENCE[2];
  }

  lemma FenceStaysBehind(front: string, t: string)
    requires front != "" && front[|front| - 1] == '}' && EndsWith(front + t, FENCE)
    ensures |t| >= 3 && (front + t)[..|front + t| - 3] == front + t[..|t| - 3]
  {
    FenceIsLastThree(front + t);
    assert (front + t)[|front| - 1] == '}';
  }

  /** Stripping the closing fence cannot reach back over a closing brace. */
  lemma ClosingFenceKeepsObject(front: string, tail: string)
    requires front != "" && front[|front| - 1] == '}'
    ensures front <= DropClosingFence(front + tail)
  {
    var t := RStrip(tail);
    RStripAppend(front, tail);
    assert RStrip(front + tail) == front + t;
    if EndsWith(front + t, FENCE) {
      FenceStaysBehind(front, t);
      RStripAppend(front, t[..|t| - 3]);
      assert DropClosingFence(front + tail) == front + RStrip(t[..|t| - 3]);
    }
  }

  /** After the fence line is dropped, a brace-free front and the whole object remain. */
  lemma FirstLineKeepsObject(p: string, rest: string) returns (front: string)
    requires '{' !in p && ('\n' in p || '\n' !in rest)
    ensures '{' !in front && DropFirstLine(p + rest) == front + rest
  {
    if '\n' in p {
      FindInFront(p, rest, '\n');
      var k := Find(p, '\n').value;
      front := p[k + 1..];
      assert (p + rest)[k + 1..] == front + rest;
    } else {
      FindAfter(p, rest, '\n');
      front := p;
    }
  }

  /** An object directly after a short front never makes it a fence. */
  lemma OpensWithFence(p: string, rest: string)
    requires rest != "" && rest[0] == '{'
    ensures StartsWith(p + rest, FENCE) <==> StartsWith(p, FENCE)
  {
    if |p| < 3 {
      assert (p + rest)[|p|] == '{' != FENCE[|p|];
    }
  }

  /** Where the fence-stripped text has a brace-free front, then the object. */
  lemma StrippedShape(p: string, obj: string, tail: string) returns (front: string)
    requires obj != "" && obj[0] == '{' && obj[|obj| - 1] == '}'
    requires '{' !in p
    requires !StartsWith(p, FENCE) || '\n' in p || '\n' !in obj + tail
    ensures '{' !in front && front + obj <= StripFence(p + (obj + tail))
  {
    OpensWithFence(p, obj + tail);
    if StartsWith(p, FENCE) {
      front := FirstLineKeepsObject(p, obj + tail);
      assert front + (obj + tail) == (front + obj) + tail;
      ClosingFenceKeepsObject(front + obj, tail);
    } else {
      front := p;
      assert p + (obj + tail) == (p + obj) + tail;
    }
  }

  lemma ExtractsPrefixObject(body: string, front: string, obj: string)
    requires '{' !in front && front + obj <= body && Balanced(obj)
    ensures Find(body, '{') == Some(|front|)
    ensures ScanEnd(body[|front|..], START) == Some(|obj|)
    ensures body[|front|..][..|obj|] == obj
  {
    var rest := body[|front|..];
    assert body == front + rest;
    assert rest[..|obj|] == obj by {
      assert (front + obj)[|front|..] == obj;
      assert body[..|front + obj|] == front + obj;
    }
    BalancedEnds(obj);
    assert rest[0] == obj[0] == '{';
    FindAfter(front, rest, '{');
    ScansExactlyBalanced(rest, |obj|);
  }

  lemma BalancedEnds(s: string)
    requires Balanced(s)
    ensures |s| >= 2 && s[0] == '{' && s[|s| - 1] == '}'
  {
  }

  /** Extraction inverts printing: whatever brace-free text stands before the printed object and
      whatever text follows it, the printed object comes back exactly. */
  lemma ExtractsWhatWasPrinted(prefix: string, ms: Members, suffix: string)
    requires MembersOk(ms)
    requires '{' !in prefix
    requires FenceLineEnds(prefix, Print(Object(ms)) + RStrip(suffix))
    ensures Extract(prefix + Print(Object(ms)) + suffix) == Print(Object(ms))
  {
    PrintedObjectIsBalanced(ms);
    ExtractsBalanced(prefix, Print(Object(ms)), suffix);
  }

  lemma Assoc(a: string, b: string, c: string)
    ensures (a + b) + c == a + (b + c)
  {
  }

  lemma LStripAround(prefix: string, obj: string, suffix: string)
    requires obj != "" && obj[0] == '{'
    ensures LStrip(prefix + obj + suffix) == LStrip(prefix) + obj + suffix
  {
    Assoc(prefix, obj, suffix);
    LStripAppend(prefix, obj + suffix);
    Assoc(LStrip(prefix), obj, suffix);
  }

  lemma StripAround(prefix: string, obj: string, suffix: string)
    requires obj != "" && obj[0] == '{' && obj[|obj| - 1] == '}'
    ensures Strip(prefix + obj + suffix) == LStrip(prefix) + (obj + RStrip(suffix))
  {
    LStripAround(prefix, obj, suffix);
    RStripAppend(LStrip(prefix) + obj, suffix);
    Assoc(LStrip(prefix), obj, RStrip(suffix));
  }

  lemma ExtractBy(content: string, body: string, start: nat, length: nat)
    requires Strip(content) != "" && StripFence(Strip(content)) == body
    requires Find(body, '{') == Some(start) && ScanEnd(body[start..], START) == Some(length)
    ensures Extract(content) == body[start..][..length]
  {
  }

  lemma ExtractsBalanced(prefix: string, obj: string, suffix: string)
    requires Balanced(obj) && '{' !in prefix
    requires FenceLineEnds(prefix, obj + RStrip(suffix))
    ensures Extract(prefix + obj + suffix) == obj
  {
    BalancedEnds(obj);
    StripAround(prefix, obj, suffix);
    var p := LStrip(prefix);
    assert forall c :: c in p ==> c in prefix;
    var body := StripFence(p + (obj + RStrip(suffix)));
    var front := StrippedShape(p, obj, RStrip(suffix));
    ExtractsPrefixObject(body, front, obj);
    ExtractBy(prefix + obj + suffix, body, |front|, |obj|);
  }

  lemma ClosingFenceAddsNoBrace(text: string)
    requires '{' !in text
    ensures '{' !in DropClosingFence(text)
  {
    var trimmed := RStrip(text);
    assert forall c :: c in trimmed ==> c in text;
    if EndsWith(trimmed, FENCE) {
      assert forall c :: c in RStrip(trimmed[..|trimmed| - 3]) ==> c in trimmed;
    }
  }

  lemma FirstLineDrops(front: string, tail: string)
    requires '\n' !in front && '\n' in tail
    ensures DropFirstLine(front + tail) == tail[Find(tail, '\n').value + 1..]
  {
    FindAfter(front, tail, '\n');
    SkipFront(front, tail, Find(tail, '\n').value + 1);
  }

  lemma SkipFront(front: string, tail: string, k: nat)
    requires k <= |tail|
    ensures (front + tail)[|front| + k..] == tail[k..]
  {
  }

  lemma FenceCutLosesObject(p: string, obj: string, tail: string)
    requires obj != "" && obj[0] == '{' && StartsWith(p, FENCE)
    requires '\n' !in p && '\n' !in obj && '\n' in tail && '{' !in tail
    ensures '{' !in StripFence(p + (obj + tail))
  {
    OpensWithFence(p, obj + tail);
    Assoc(p, obj, tail);
    FirstLineDrops(p + obj, tail);
    var rest := tail[Find(tail, '\n').value + 1..];
    assert forall c :: c in rest ==> c in tail;
    ClosingFenceAddsNoBrace(rest);
  }

  lemma NoBraceFallsBack(content: string)
    requires Strip(content) != "" && '{' !in StripFence(Strip(content))
    ensures Extract(content) == content
  {
  }

  function Opens(s: string): nat {
    if s == "" then 0 else (if s[0] == '{' then 1 else 0) + Opens(s[1..])
  }

  lemma {:induction false} OpensConcat(a: string, b: string)
    ensures Opens(a + b) == Opens(a) + Opens(b)
  {
    if a == "" {
      assert a + b == b;
    } else {
      assert (a + b)[1..] == a[1..] + b;
      OpensConcat(a[1..], b);
    }
  }

  lemma {:induction false} NoOpens(s: string)
    requires '{' !in s
    ensures Opens(s) == 0
  {
    if s != "" {
      assert s[0] in s && forall c :: c in s[1..] ==> c in s;
      NoOpens(s[1..]);
    }
  }

  lemma DropsOpens(s: string, k: nat)
    requires k <= |s|
    ensures Opens(s[k..]) <= Opens(s)
  {
    assert s == s[..k] + s[k..];
    OpensConcat(s[..k], s[k..]);
  }

  lemma TakesOpens(s: string, k: nat)
    requires k <= |s|
    ensures Opens(s[..k]) <= Opens(s)
  {
    assert s == s[..k] + s[k..];
    OpensConcat(s[..k], s[k..]);
  }

  lemma ClosingFenceTakesPrefix(text: string)
    ensures Opens(DropClosingFence(text)) <= Opens(text)
  {
    var kept := DropClosingFence(text);
    assert kept == text[..|kept|];
    TakesOpens(text, |kept|);
  }

  /** The dropped fence line takes the object's own opening brace with it. */
  lemma FenceCutTakesABrace(p: string, obj: string, tail: string)
    requires obj != "" && obj[0] == '{' && StartsWith(p, FENCE)
    requires '\n' !in p && '\n' in obj + tail && '{' !in tail
    ensures Opens(StripFence(p + (obj + tail))) < Opens(obj)
  {
    var rest := obj + tail;
    OpensWithFence(p, rest);
    FirstLineDrops(p, rest);
    var k := Find(rest, '\n').value + 1;
    DropTakesABrace(rest, k);
    OpensConcat(obj, tail);
    NoOpens(tail);
    ClosingFenceTakesPrefix(rest[k..]);
  }

  lemma DropTakesABrace(s: string, k: nat)
    requires 1 <= k <= |s| && s[0] == '{'
    ensures Opens(s[k..]) < Opens(s)
  {
    DropsOpens(s[1..], k - 1);
    assert s[1..][k - 1..] == s[k..];
  }

  /** A result is the content itself or a part of the fence-stripped text. */
  lemma ResultIsContentOrPart(content: string)
    requires Strip(content) != ""
    ensures Extract(content) == content || Opens(Extract(content)) <= Opens(StripFence(Strip(content)))
  {
    var body := StripFence(Strip(content));
    var start := Find(body, '{');
    if start.Some? {
      var tail := body[start.value..];
      DropsOpens(body, start.value);
      if ScanEnd(tail, START).Some? {
        TakesOpens(tail, ScanEnd(tail, START).value);
      }
    }
  }

  lemma FenceLineLosesObject(prefix: string, obj: string, suffix: string)
    requires Balanced(obj) && '{' !in prefix && '{' !in suffix
    requires !FenceLineEnds(prefix, obj + RStrip(suffix))
    ensures Extract(prefix + obj + suffix) != obj
  {
    BalancedEnds(obj);
    StripAround(prefix, obj, suffix);
    assert forall c :: c in RStrip(suffix) ==> c in suffix;
    FenceCutTakesABrace(LStrip(prefix), obj, RStrip(suffix));
    ResultIsContentOrPart(prefix + obj + suffix);
    assert |prefix| > 0;
    assert |prefix + obj + suffix| > |obj|;
  }

  /** With brace-free text around a balanced object, extraction returns it exactly when the
      opening fence line ends before it. */
  lemma ExtractsExactlyWhenFenceLineEnds(prefix: string, obj: string, suffix: string)
    requires Balanced(obj) && '{' !in prefix && '{' !in suffix
    ensures Extract(prefix + obj + suffix) == obj <==> FenceLineEnds(prefix, obj + RStrip(suffix))
  {
    if FenceLineEnds(prefix, obj + RStrip(suffix)) {
      ExtractsBalanced(prefix, obj, suffix);
    } else {
      FenceLineLosesObject(prefix, obj, suffix);
    }
  }

  /** Where it fails for a one-line object, the whole content comes back. */
  lemma LostLineFallsBack(prefix: string, obj: string, suffix: string)
    requires Balanced(obj) && '{' !in prefix && '{' !in suffix
    requires '\n' !in obj && !FenceLineEnds(prefix, obj + RStrip(suffix))
    ensures Extract(prefix + obj + suffix) == prefix + obj + suffix
  {
    BalancedEnds(obj);
    StripAround(prefix, obj, suffix);
    assert forall c :: c in RStrip(suffix) ==> c in suffix;
    FenceCutLosesObject(LStrip(prefix), obj, RStrip(suffix));
    NoBraceFallsBack(prefix + obj + suffix);
  }

  lemma NothingToStrip(s: string)
    requires s != ""
    ensures !IsSpace(s[0]) ==> LStrip(s) == s
    ensures !IsSpace(s[|s| - 1]) ==> RStrip(s) == s
  {
  }

  /** A fence opened on the object's own line loses the object when a line follows it. */
  lemma FenceOnOneLineLosesObject(obj: string, line: string)
    requires Balanced(obj) && '\n' !in obj
    requires line != "" && !IsSpace(line[|line| - 1]) && '{' !in line
    ensures Extract(FENCE + obj + (['\n'] + line)) == FENCE + obj + (['\n'] + line)
  {
    var suffix := ['\n'] + line;
    NothingToStrip(FENCE);
    NothingToStrip(suffix);
    NewlineIn(obj, line);
    LostLineFallsBack(FENCE, obj, suffix);
  }

  lemma NewlineIn(obj: string, line: string)
    ensures '\n' in obj + (['\n'] + line)
  {
    assert (obj + (['\n'] + line))[|obj|] == '\n';
  }

  /** An object of several lines that opens on its fence line loses its first line, and a balanced
      text inside it comes back in its place. */
  lemma InnerObjectComesBack(first: string, gap: string, inner: string, last: string)
    requires '\n' !in first && '{' !in gap && Balanced(inner)
    requires last != "" && !IsSpace(last[|last| - 1])
    ensures var obj := first + (['\n'] + (gap + inner + last)); Extract(FENCE + obj) == inner
  {
    var line := ['\n'] + (gap + inner + last);
    FencedIsTrimmed(first, line);
    FencedBody(first, gap + inner + last);
    BalancedEnds(inner);
    ClosingFenceKeepsObject(gap + inner, last);
    var body := DropClosingFence(gap + inner + last);
    ExtractsPrefixObject(body, gap, inner);
    ExtractBy(FENCE + (first + line), body, |gap|, |inner|);
  }

  lemma FencedIsTrimmed(first: string, line: string)
    requires line != "" && !IsSpace(line[|line| - 1])
    ensures Strip(FENCE + (first + line)) == FENCE + (first + line)
  {
    var content := FENCE + (first + line);
    assert content[|content| - 1] == line[|line| - 1];
    NothingToStrip(content);
  }

  lemma FencedBody(first: string, kept: string)
    requires '\n' !in first
    ensures StripFence(FENCE + (first + (['\n'] + kept))) == DropClosingFence(kept)
  {
    var line := ['\n'] + kept;
    Assoc(FENCE, first, line);
    FirstLineDrops(FENCE + first, line);
    assert Find(line, '\n') == Some(0) && line[1..] == kept;
  }

  const INNER := Object(NoMembers(""))
  const OUTER := LastMember(Pair("\n", [Bare('a')], "", "", INNER, ""))

  lemma OuterText()
    ensures Print(Object(OUTER)) == "{" + (['\n'] + ("\"a\":" + "{}" + "}")) && Print(INNER) == "{}"
  {
    assert LettersText([Bare('a')]) == "a" by {
      assert [Bare('a')][1..] == [];
    }
  }

  /** So a whole object is silently replaced by its inner one. */
  lemma WrongObjectReturned()
    ensures MembersOk(OUTER) && Balanced(Print(Object(OUTER)))
    ensures Extract(FENCE + Print(Object(OUTER))) == Print(INNER) != Print(Object(OUTER))
  {
    PrintedObjectIsBalanced(OUTER);
    PrintedObjectIsBalanced(NoMembers(""));
    OuterText();
    InnerObjectComesBack("{", "\"a\":", "{}", "}");
  }
}
