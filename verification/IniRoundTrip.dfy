/** Writing required tests as INI text and parsing them back. */
module IniRoundTrip {
  import opened Sequences
  import opened RequiredTests
  import opened IniFile
  import opened IniParser

  // ----- decimal numbers -----

  function Digits(n: nat): (s: string)
    ensures |s| > 0 && forall i :: 0 <= i < |s| ==> IsDigit(s[i])
  {
    if n < 10 then [(n as char) + '0'] else Digits(n / 10) + [((n % 10) as char) + '0']
  }

  function Decimal(v: int): string {
    if v < 0 then "-" + Digits(-v) else Digits(v)
  }

  lemma {:induction false} DigitsValue(n: nat)
    ensures Value(Digits(n)) == n
  {
    if n < 10 {
      assert Digits(n)[..0] == [];
    } else {
      var front := Digits(n / 10);
      assert Digits(n)[..|front|] == front;
      DigitsValue(n / 10);
    }
  }

  lemma {:induction false} DigitRunIs(s: string, n: nat)
    requires n <= |s| && (forall i :: 0 <= i < n ==> IsDigit(s[i])) && (n == |s| || !IsDigit(s[n]))
    ensures DigitRun(s) == n
  {
    if n > 0 {
      DigitRunIs(s[1..], n - 1);
    }
  }

  /** A decimal literal is read back exactly when it fits a long. */
  lemma ParseDecimal(v: int)
    ensures ParseLong(Decimal(v)) == if LONG_MIN <= v <= LONG_MAX then Some(v) else None
  {
    var s := Decimal(v);
    var digits := if v < 0 then Digits(-v) else Digits(v);
    DigitsValue(if v < 0 then -v else v);
    DigitRunIs(digits, |digits|);
    assert digits[..|digits|] == digits;
    assert s[0] == (if v < 0 then '-' else digits[0]);
    assert SkipSpaces(s) == 0;
    assert s[if v < 0 then 1 else 0..] == digits;
  }

  // ----- lines -----

  /** What may surround the content of a line: blanks and tabs before it, spaces
      and CRs after it, and a comment. */
  datatype Decor = Decor(lead: string, trail: string, comment: Option<string>)

  predicate DecorOk(d: Decor) {
    && (forall i :: 0 <= i < |d.lead| ==> IsBlank(d.lead[i]))
    && (forall i :: 0 <= i < |d.trail| ==> d.trail[i] == ' ' || d.trail[i] == '\r')
    && (d.comment.Some? ==> '\n' !in d.comment.value && '\0' !in d.comment.value)
  }

  function CommentText(d: Decor): string {
    if d.comment.Some? then ['#'] + d.comment.value else []
  }

  function Render(core: string, d: Decor): string {
    d.lead + core + d.trail + CommentText(d) + ['\n']
  }

  /** What a line can carry for sanitize to give it back. */
  predicate CoreOk(core: string) {
    && '\n' !in core && '\0' !in core && '#' !in core
    && (core != [] ==> !IsBlank(core[0]) && !IsTail(core[|core| - 1]))
  }

  lemma RenderPlain(core: string, d: Decor)
    requires CoreOk(core) && DecorOk(d)
    ensures CString(Render(core, d)) == Render(core, d)
    ensures '\n' !in Render(core, d)[..|Render(core, d)| - 1]
  {
    var line := Render(core, d);
    assert '\0' !in d.lead && '\0' !in d.trail && '\0' !in CommentText(d);
    assert '\n' !in d.lead && '\n' !in d.trail && '\n' !in CommentText(d);
    assert line[..|line|] == line;
    CStringIs(line, |line|);
    assert line[..|line| - 1] == d.lead + core + d.trail + CommentText(d);
  }

  /** sanitize recovers the content, whatever decoration is around it. */
  lemma SanitizedRender(core: string, d: Decor)
    requires CoreOk(core) && DecorOk(d)
    ensures Sanitized(Render(core, d)) == core
  {
    if core == [] {
      SanitizedFiller(d);
    } else {
      var line, rest := Render(core, d), core + d.trail + CommentText(d) + ['\n'];
      assert line == d.lead + rest;
      DropLeadIs(line, |d.lead|);
      SanitizedRest(core, d, rest);
    }
  }

  lemma SanitizedFiller(d: Decor)
    requires DecorOk(d)
    ensures Sanitized(Render([], d)) == []
  {
    var line := Render([], d);
    assert line == d.lead + d.trail + CommentText(d) + ['\n'];
    // the blanks of the trail go with the lead
    var skip := DropLeadSplit(line);
    BlankPrefix(d, line, skip);
    var trail := d.trail[skip - |d.lead|..];
    assert [] + trail == trail;
    SanitizedRest([], d.(trail := trail), line[skip..]);
  }

  lemma BlankPrefix(d: Decor, line: string, skip: nat)
    requires DecorOk(d) && line == d.lead + d.trail + CommentText(d) + ['\n']
    requires skip <= |line| && (forall i :: 0 <= i < skip ==> IsBlank(line[i]))
    requires skip == |line| || !IsBlank(line[skip])
    ensures |d.lead| <= skip <= |d.lead| + |d.trail|
    ensures line[skip..] == d.trail[skip - |d.lead|..] + CommentText(d) + ['\n']
  {
    var m := |d.lead| + |d.trail|;
    assert !IsBlank(line[m]);
    assert forall i :: 0 <= i < |d.lead| ==> line[i] == d.lead[i];
  }

  lemma SanitizedRest(core: string, d: Decor, rest: string)
    requires CoreOk(core) && DecorOk(d) && rest == core + d.trail + CommentText(d) + ['\n']
    ensures DropTail(BeforeHash(rest)) == core
  {
    var body := core + d.trail + if d.comment.Some? then [] else ['\n'];
    assert '#' !in d.trail;
    assert rest[..|body|] == body;
    BeforeHashIs(rest, |body|);
    assert forall i :: |core| <= i < |body| ==> IsTail(body[i]);
    assert body[..|core|] == core;
    DropTailIs(body, |core|);
  }

  // ----- files -----

  datatype Item = Filler | SectionItem(name: string) | TestItem(name: string, level: int)

  predicate SectionNameOk(name: string) {
    ']' !in name && '=' !in name && '#' !in name && '\n' !in name && '\0' !in name
  }

  predicate TestNameOk(name: string) {
    && '=' !in name && '#' !in name && '\n' !in name && '\0' !in name
    && (name != [] ==> !IsBlank(name[0]))
  }

  predicate ItemOk(item: Item) {
    match item
    case Filler => true
    case SectionItem(name) => SectionNameOk(name)
    case TestItem(name, level) => TestNameOk(name) && LONG_MIN <= level <= LONG_MAX
  }

  function Core(item: Item): string {
    match item
    case Filler => []
    case SectionItem(name) => ['['] + name + [']']
    case TestItem(name, level) => name + ['='] + Decimal(level)
  }

  /** An item with its decoration, short enough for one fgets. */
  predicate EntryOk(e: (Item, Decor)) {
    ItemOk(e.0) && DecorOk(e.1) && |Render(Core(e.0), e.1)| < MAX_LINE_SIZE
  }

  function Text(entries: seq<(Item, Decor)>): string {
    if entries == [] then [] else Render(Core(entries[0].0), entries[0].1) + Text(entries[1..])
  }

  /** What a reader of the file takes it to say, tests before the first section
      left out; the lists are the ones nvgpu_list_add builds, latest first. */
  function Said(units: seq<UnitNode>, item: Item): seq<UnitNode> {
    match item
    case Filler => units
    case SectionItem(name) => [UnitNode(name, [])] + units
    case TestItem(name, level) => if units == [] then units else AddTest(units, name, level)
  }

  function SaidAll(units: seq<UnitNode>, entries: seq<(Item, Decor)>): seq<UnitNode>
    decreases |entries|
  {
    if entries == [] then units else SaidAll(Said(units, entries[0].0), entries[1..])
  }

  lemma {:induction false} DecimalPlain(v: int)
    ensures Decimal(v) != [] && IsDigit(Decimal(v)[|Decimal(v)| - 1])
    ensures forall i :: 0 <= i < |Decimal(v)| ==> IsDigit(Decimal(v)[i]) || Decimal(v)[i] == '-'
  {
  }

  lemma CoreFits(item: Item)
    requires ItemOk(item)
    ensures CoreOk(Core(item)) && (Core(item) == [] <==> item.Filler?)
  {
    match item
    case Filler =>
    case SectionItem(name) => assert Core(item)[|name| + 1] == ']';
    case TestItem(name, level) =>
      DecimalPlain(level);
      var core, d := Core(item), Decimal(level);
      assert core[|core| - 1] == d[|d| - 1];
      assert '\n' !in d && '\0' !in d && '#' !in d;
  }

  lemma {:induction false} FindIs(s: string, c: char, n: nat)
    requires n < |s| && s[n] == c && c !in s[..n]
    ensures Find(s, c) == Some(n)
  {
    if n > 0 {
      assert s[0] == s[..n][0];
      assert s[1..][..n - 1] == s[..n][1..];
      FindIs(s[1..], c, n - 1);
    }
  }

  lemma ClassifySection(name: string)
    requires SectionNameOk(name)
    ensures Classify(Core(SectionItem(name))) == Section(name)
  {
    var core := Core(SectionItem(name));
    assert '=' !in core;
    assert core[..0] == [] && core[..|name| + 1] == ['['] + name;
    FindIs(core, '[', 0);
    FindIs(core, ']', |name| + 1);
    assert core[1..|name| + 1] == name;
  }

  lemma ClassifyTest(name: string, level: int)
    requires TestNameOk(name) && LONG_MIN <= level <= LONG_MAX
    ensures Classify(Core(TestItem(name, level))) == Pair(name, Some(level))
  {
    var core := Core(TestItem(name, level));
    assert core[..|name|] == name && core[|name| + 1..] == Decimal(level);
    FindIs(core, '=', |name|);
    ParseDecimal(level);
    hide Decimal;
    hide ParseLong;
  }

  lemma ClassifyCore(item: Item)
    requires ItemOk(item) && !item.Filler?
    ensures Classify(Core(item)) ==
            match item
            case SectionItem(name) => Section(name)
            case TestItem(name, level) => Pair(name, Some(level))
  {
    match item
    case SectionItem(name) => ClassifySection(name);
    case TestItem(name, level) => ClassifyTest(name, level);
  }

  lemma ParseEntry(units: seq<UnitNode>, e: (Item, Decor))
    requires EntryOk(e)
    ensures ParseLine(units, Render(Core(e.0), e.1)) == Parsed(Said(units, e.0), true)
  {
    CoreFits(e.0);
    RenderPlain(Core(e.0), e.1);
    SanitizedRender(Core(e.0), e.1);
    if !e.0.Filler? {
      ClassifyCore(e.0);
    }
  }

  lemma {:induction false} ChunkLenLine(line: string, rest: string, room: nat)
    requires line != [] && line[|line| - 1] == '\n' && '\n' !in line[..|line| - 1] && |line| <= room
    ensures ChunkLen(line + rest, room) == |line|
  {
    if |line| == 1 {
      assert (line + rest)[0] == '\n';
    } else {
      assert line[0] == line[..|line| - 1][0];
      assert (line + rest)[1..] == line[1..] + rest;
      assert line[1..][..|line| - 2] == line[..|line| - 1][1..];
      ChunkLenLine(line[1..], rest, room - 1);
    }
  }

  lemma ChunksLine(line: string, rest: string)
    requires line != [] && line[|line| - 1] == '\n' && '\n' !in line[..|line| - 1] && |line| < MAX_LINE_SIZE
    ensures Chunks(line + rest) == [line] + Chunks(rest)
  {
    ChunkLenLine(line, rest, MAX_LINE_SIZE - 1);
    assert (line + rest)[..|line|] == line && (line + rest)[|line|..] == rest;
  }

  lemma ParseChunksHead(units: seq<UnitNode>, chunk: string, chunks: seq<string>)
    requires ParseLine(units, chunk).ok
    ensures ParseChunks(units, [chunk] + chunks) == ParseChunks(ParseLine(units, chunk).units, chunks)
  {
    assert ([chunk] + chunks)[1..] == chunks;
  }

  /** Round trip: the parser reads from any well-formed file what it says,
      however it is indented, padded, commented and spaced out. */
  lemma {:induction false} ParseText(units: seq<UnitNode>, entries: seq<(Item, Decor)>)
    requires forall i :: 0 <= i < |entries| ==> EntryOk(entries[i])
    ensures ParseChunks(units, Chunks(Text(entries))) == Parsed(SaidAll(units, entries), true)
    decreases |entries|
  {
    if entries != [] {
      var e, rest := entries[0], entries[1..];
      var line := Render(Core(e.0), e.1);
      CoreFits(e.0);
      RenderPlain(Core(e.0), e.1);
      ChunksLine(line, Text(rest));
      ParseEntry(units, e);
      ParseChunksHead(units, line, Chunks(Text(rest)));
      ParseText(Said(units, e.0), rest);
    }
  }

  // ----- sections -----

  /** The items of a list of sections, in writing order. */
  function TestItems(tests: seq<TestNode>): seq<Item> {
    if tests == [] then [] else [TestItem(tests[0].name, tests[0].level)] + TestItems(tests[1..])
  }

  function Items(units: seq<UnitNode>): seq<Item> {
    if units == [] then [] else [SectionItem(units[0].name)] + TestItems(units[0].tests) + Items(units[1..])
  }

  /** The items of a file that are not fillers. */
  function Contents(entries: seq<(Item, Decor)>): seq<Item> {
    if entries == [] then []
    else if entries[0].0.Filler? then Contents(entries[1..])
    else [entries[0].0] + Contents(entries[1..])
  }

  function SaidItems(units: seq<UnitNode>, items: seq<Item>): seq<UnitNode>
    decreases |items|
  {
    if items == [] then units else SaidItems(Said(units, items[0]), items[1..])
  }

  function Reverse<T>(s: seq<T>): (r: seq<T>)
    ensures |r| == |s|
  {
    if s == [] then [] else Reverse(s[1..]) + [s[0]]
  }

  /** The units in list order: the last section first, each with its last test
      first. */
  function Listed(units: seq<UnitNode>): (r: seq<UnitNode>)
    ensures |r| == |units|
  {
    if units == [] then [] else Listed(units[1..]) + [UnitNode(units[0].name, Reverse(units[0].tests))]
  }

  lemma {:induction false} FillersSayNothing(units: seq<UnitNode>, entries: seq<(Item, Decor)>)
    ensures SaidAll(units, entries) == SaidItems(units, Contents(entries))
    decreases |entries|
  {
    if entries != [] {
      FillersSayNothing(Said(units, entries[0].0), entries[1..]);
      if !entries[0].0.Filler? {
        assert Contents(entries)[1..] == Contents(entries[1..]);
      }
    }
  }

  lemma {:induction false} SaidItemsConcat(units: seq<UnitNode>, a: seq<Item>, b: seq<Item>)
    ensures SaidItems(units, a + b) == SaidItems(SaidItems(units, a), b)
    decreases |a|
  {
    if a == [] {
      assert a + b == b;
    } else {
      assert (a + b)[1..] == a[1..] + b;
      SaidItemsConcat(Said(units, a[0]), a[1..], b);
    }
  }

  lemma SaidItemsHead(units: seq<UnitNode>, item: Item, items: seq<Item>)
    ensures SaidItems(units, [item] + items) == SaidItems(Said(units, item), items)
  {
    assert ([item] + items)[1..] == items;
  }

  lemma ReverseCons<T>(s: seq<T>, rest: seq<T>)
    requires s != []
    ensures Reverse(s[1..]) + ([s[0]] + rest) == Reverse(s) + rest
  {
  }

  /** The tests of a section end up in front of those its unit has. */
  lemma {:induction false} SaidTests(name: string, have: seq<TestNode>, before: seq<UnitNode>, tests: seq<TestNode>)
    ensures SaidItems([UnitNode(name, have)] + before, TestItems(tests))
            == [UnitNode(name, Reverse(tests) + have)] + before
    decreases |tests|
  {
    var units := [UnitNode(name, have)] + before;
    if tests == [] {
      assert Reverse(tests) + have == have;
    } else {
      var t, rest := tests[0], tests[1..];
      SaidItemsHead(units, TestItem(t.name, t.level), TestItems(rest));
      assert units[1..] == before;
      assert AddTest(units, t.name, t.level) == [UnitNode(name, [t] + have)] + before;
      SaidTests(name, [t] + have, before, rest);
      ReverseCons(tests, have);
    }
  }

  lemma SaidSection(before: seq<UnitNode>, u: UnitNode)
    ensures SaidItems(before, [SectionItem(u.name)] + TestItems(u.tests))
            == [UnitNode(u.name, Reverse(u.tests))] + before
  {
    SaidItemsHead(before, SectionItem(u.name), TestItems(u.tests));
    SaidTests(u.name, [], before, u.tests);
    assert Reverse(u.tests) + [] == Reverse(u.tests);
  }

  lemma {:induction false} SaidSections(before: seq<UnitNode>, units: seq<UnitNode>)
    ensures SaidItems(before, Items(units)) == Listed(units) + before
    decreases |units|
  {
    if units == [] {
      assert Listed(units) + before == before;
    } else {
      var u, rest := units[0], units[1..];
      var closed := [UnitNode(u.name, Reverse(u.tests))] + before;
      var items := [SectionItem(u.name)] + TestItems(u.tests);
      SaidItemsConcat(before, items, Items(rest));
      assert Items(units) == items + Items(rest);
      SaidSection(before, u);
      SaidSections(closed, rest);
      ListedCons(units, before);
    }
  }

  lemma ListedCons(units: seq<UnitNode>, before: seq<UnitNode>)
    requires units != []
    ensures Listed(units[1..]) + ([UnitNode(units[0].name, Reverse(units[0].tests))] + before) == Listed(units) + before
  {
  }

  /** Any sections, written with any decoration and any filler lines between
      their lines, are parsed back: the same units with the same tests, in the
      order in which the code's lists hold them. */
  lemma FileRoundTrip(units: seq<UnitNode>, entries: seq<(Item, Decor)>)
    requires Contents(entries) == Items(units)
    requires forall i :: 0 <= i < |entries| ==> EntryOk(entries[i])
    ensures ParseFile(Text(entries)) == Parsed(Listed(units), true)
  {
    ParseText([], entries);
    FillersSayNothing([], entries);
    SaidSections([], units);
    assert Listed(units) + [] == Listed(units);
  }

  lemma {:induction false} ReverseSameElements<T>(s: seq<T>)
    ensures multiset(Reverse(s)) == multiset(s)
  {
    if s != [] {
      ReverseSameElements(s[1..]);
      assert s == [s[0]] + s[1..];
    }
  }

  /** Per section, what was parsed is what was written, as a multiset. */
  lemma {:induction false} ListedSameTests(units: seq<UnitNode>, i: nat)
    requires i < |units|
    ensures var u := Listed(units)[|units| - 1 - i];
            u.name == units[i].name && multiset(u.tests) == multiset(units[i].tests)
  {
    if i == 0 {
      ReverseSameElements(units[0].tests);
    } else {
      ListedSameTests(units[1..], i - 1);
    }
  }

  // ----- tabs after a level -----

  /** A decoration whose trail may hold tabs too. */
  predicate TabbedOk(d: Decor) {
    && (forall i :: 0 <= i < |d.lead| ==> IsBlank(d.lead[i]))
    && (forall i :: 0 <= i < |d.trail| ==> d.trail[i] == ' ' || d.trail[i] == '\r' || d.trail[i] == '\t')
    && (d.comment.Some? ==> '\n' !in d.comment.value && '\0' !in d.comment.value)
  }

  function Magnitude(v: int): (s: string)
    ensures |s| > 0 && forall i :: 0 <= i < |s| ==> IsDigit(s[i])
  {
    if v < 0 then Digits(-v) else Digits(v)
  }

  lemma NumberParts(level: int, tail: string)
    requires tail != [] && !IsDigit(tail[0])
    ensures var value, sign := Decimal(level) + tail, if level < 0 then 1 else 0;
            && SkipSpaces(value) == 0
            && value[0] != '+' && (value[0] == '-' <==> level < 0)
            && value[sign..] == Magnitude(level) + tail
            && DigitRun(value[sign..]) == |Magnitude(level)| < |value| - sign
  {
    var value, digits := Decimal(level) + tail, Magnitude(level);
    assert value[0] == if level < 0 then '-' else digits[0];
    assert value[if level < 0 then 1 else 0..] == digits + tail;
    DigitRunIs(digits + tail, |digits|);
  }

  /** strtol stops at what follows the digits. */
  lemma StopsTail(level: int, tail: string)
    requires tail != [] && !IsDigit(tail[0])
    ensures ParseLong(Decimal(level) + tail).None?
  {
    NumberParts(level, tail);
    hide Decimal;
    hide Magnitude;
    hide Value;
    hide DigitRun;
    hide SkipSpaces;
  }

  lemma LastTab(trail: string) returns (n: nat)
    requires '\t' in trail
    ensures 0 < n <= |trail| && trail[n - 1] == '\t' && '\t' !in trail[n..]
  {
    n := |trail|;
    while trail[n - 1] != '\t'
      invariant 0 < n <= |trail| && '\t' !in trail[n..]
      invariant '\t' in trail[..n]
      decreases n
    {
      assert trail[..n] == trail[..n - 1] + [trail[n - 1]];
      n := n - 1;
    }
  }

  /** sanitize trims the trail down to its last tab: up to there it is content. */
  lemma SanitizedTabbed(core: string, d: Decor, n: nat)
    requires CoreOk(core) && core != [] && TabbedOk(d)
    requires 0 < n <= |d.trail| && d.trail[n - 1] == '\t' && '\t' !in d.trail[n..]
    ensures Sanitized(CString(Render(core, d))) == core + d.trail[..n]
  {
    var content, rest := core + d.trail[..n], d.(trail := d.trail[n..]);
    assert content[|content| - 1] == '\t' && content[0] == core[0];
    assert '\n' !in d.trail[..n] && '\0' !in d.trail[..n] && '#' !in d.trail[..n];
    assert CoreOk(content) && DecorOk(rest);
    assert d.trail == d.trail[..n] + rest.trail;
    assert Render(content, rest) == Render(core, d);
    hide CoreOk;
    hide Render;
    RenderPlain(content, rest);
    SanitizedRender(content, rest);
  }

  lemma TabbedLine(name: string, level: int, tail: string)
    requires '=' !in name && tail != [] && !IsDigit(tail[0])
    ensures Classify(name + ['='] + Decimal(level) + tail) == Pair(name, None)
  {
    var line := name + ['='] + Decimal(level) + tail;
    assert line[..|name|] == name && line[|name| + 1..] == Decimal(level) + tail;
    FindIs(line, '=', |name|);
    StopsTail(level, tail);
  }

  /** Spaces and CRs after a level are trimmed, tabs are not, and strtol stops
      at them: in an open section a test line, however indented, padded and
      commented, is accepted if and only if no tab follows its level. */
  lemma TrailingTab(units: seq<UnitNode>, name: string, level: int, d: Decor)
    requires units != [] && ItemOk(TestItem(name, level)) && TabbedOk(d)
    ensures ParseLine(units, Render(Core(TestItem(name, level)), d)).ok <==> '\t' !in d.trail
  {
    var item := TestItem(name, level);
    CoreFits(item);
    hide CoreOk;
    hide Render;
    hide Classify;
    if '\t' !in d.trail {
      assert DecorOk(d);
      RenderPlain(Core(item), d);
      SanitizedRender(Core(item), d);
      ClassifyCore(item);
    } else {
      var n := LastTab(d.trail);
      SanitizedTabbed(Core(item), d, n);
      TabbedLine(name, level, d.trail[..n]);
    }
  }

  // ----- the end of the file -----

  lemma {:induction false} CStringNewline(s: string)
    ensures CString(s + ['\n']) == CString(s) || CString(s + ['\n']) == CString(s) + ['\n']
  {
    if s != [] {
      assert (s + ['\n'])[1..] == s[1..] + ['\n'];
      CStringNewline(s[1..]);
    }
  }

  lemma {:induction false} DropLeadNewline(s: string)
    ensures DropLead(s + ['\n']) == DropLead(s) + ['\n']
  {
    if s != [] {
      assert (s + ['\n'])[1..] == s[1..] + ['\n'];
      DropLeadNewline(s[1..]);
    }
  }

  lemma {:induction false} BeforeHashNewline(s: string)
    ensures BeforeHash(s + ['\n']) == BeforeHash(s) || BeforeHash(s + ['\n']) == BeforeHash(s) + ['\n']
  {
    if s != [] {
      assert (s + ['\n'])[1..] == s[1..] + ['\n'];
      BeforeHashNewline(s[1..]);
    }
  }

  lemma ParseLineNewline(units: seq<UnitNode>, s: string)
    ensures ParseLine(units, s + ['\n']) == ParseLine(units, s)
  {
    var c := CString(s);
    CStringNewline(s);
    DropLeadNewline(c);
    BeforeHashNewline(DropLead(c));
    var text := BeforeHash(DropLead(c));
    assert (text + ['\n'])[..|text|] == text;
  }

  lemma {:induction false} ChunkLenNewline(s: string, room: nat)
    ensures var n := ChunkLen(s, room);
            ChunkLen(s + ['\n'], room) ==
            if n == |s| && n < room && (s == [] || s[n - 1] != '\n') then n + 1 else n
  {
    if s != [] && room > 0 && s[0] != '\n' {
      assert (s + ['\n'])[1..] == s[1..] + ['\n'];
      ChunkLenNewline(s[1..], room - 1);
    }
  }

  lemma {:induction false} ChunksNewline(units: seq<UnitNode>, file: string)
    ensures ParseChunks(units, Chunks(file + ['\n'])) == ParseChunks(units, Chunks(file))
    decreases |file|
  {
    var longer := file + ['\n'];
    ChunkLenNewline(file, MAX_LINE_SIZE - 1);
    if file == [] {
      ParseLineNewline(units, []);
      assert longer == ['\n'] && longer[..1] == ['\n'] && longer[1..] == [];
      assert Chunks(longer) == [['\n']];
    } else {
      var n := ChunkLen(file, MAX_LINE_SIZE - 1);
      var line, rest := file[..n], file[n..];
      if ChunkLen(longer, MAX_LINE_SIZE - 1) == n {
        assert longer[..n] == line && longer[n..] == rest + ['\n'];
        ChunksNewline(ParseLine(units, line).units, rest);
      } else {
        assert line == file && rest == [];
        assert longer[..n + 1] == longer && longer[n + 1..] == [];
        ParseLineNewline(units, file);
        assert Chunks(longer) == [longer] && Chunks(file) == [file];
      }
    }
  }

  /** Whether the last line ends in a newline makes no difference, for any file
      whatever: with full buffers, NULs and errors in it. */
  lemma FinalNewline(file: string)
    ensures ParseFile(file + ['\n']) == ParseFile(file)
  {
    ChunksNewline([], file);
  }
}
