/** What the parser of the required-tests file makes of any text: of its lines, of
    what is on a line, and of what counts as a number, in plain terms. */
module IniLines {
  import opened Sequences
  import opened RequiredTests
  import opened IniFile
  import opened IniParser
  import opened IniRoundTrip

  // ----- lines -----

  function Flatten(chunks: seq<string>): string {
    if chunks == [] then [] else chunks[0] + Flatten(chunks[1..])
  }

  /** A line as it is read: it ends with its only newline, or the buffer is full,
      or the file ends. */
  ghost predicate IsChunk(chunk: string, last: bool) {
    && 0 < |chunk| <= 255 && '\n' !in chunk[..|chunk| - 1]
    && (chunk[|chunk| - 1] == '\n' || |chunk| == 255 || last)
  }

  lemma {:induction false} ChunkLenIs(file: string, room: nat)
    requires file != [] && room > 0
    ensures var n := ChunkLen(file, room);
            && 0 < n <= room && n <= |file| && '\n' !in file[..n - 1]
            && (file[n - 1] == '\n' || n == room || n == |file|)
  {
    if file[0] != '\n' && |file| > 1 && room > 1 {
      ChunkLenIs(file[1..], room - 1);
      var n := ChunkLen(file[1..], room - 1);
      assert file[..n] == [file[0]] + file[1..][..n - 1];
    }
  }

  /** Nothing of the file is left out or read twice. */
  lemma {:induction false} ChunksAre(file: string)
    ensures Flatten(Chunks(file)) == file
    ensures forall i :: 0 <= i < |Chunks(file)| ==> IsChunk(Chunks(file)[i], i == |Chunks(file)| - 1)
    decreases |file|
  {
    if file != [] {
      var n := ChunkLen(file, MAX_LINE_SIZE - 1);
      ChunkLenIs(file, MAX_LINE_SIZE - 1);
      ChunksAre(file[n..]);
      var rest := Chunks(file[n..]);
      assert Chunks(file) == [file[..n]] + rest;
      assert Chunks(file)[1..] == rest;
      assert file[..n][..n - 1] == file[..n - 1];
      forall i | 0 <= i < |Chunks(file)|
        ensures IsChunk(Chunks(file)[i], i == |Chunks(file)| - 1)
      {
        if i > 0 {
          assert Chunks(file)[i] == rest[i - 1];
        } else if n == |file| {
          assert rest == [];
        }
      }
    }
  }

  // ----- the clean text of a line -----

  /** `core` is `s` without blanks and tabs in front, without a comment, and
      without spaces, CRs and LFs behind. */
  ghost predicate Clean(s: string, lead: string, core: string, tail: string, rest: string) {
    && s == lead + core + tail + rest
    && (forall i :: 0 <= i < |lead| ==> lead[i] == ' ' || lead[i] == '\t')
    && (forall i :: 0 <= i < |tail| ==> tail[i] == ' ' || tail[i] == '\r' || tail[i] == '\n')
    && '#' !in core && (rest == [] || rest[0] == '#')
    && (core != [] ==>
          && core[0] != ' ' && core[0] != '\t'
          && core[|core| - 1] != ' ' && core[|core| - 1] != '\r' && core[|core| - 1] != '\n')
  }

  lemma CleanForm(s: string) returns (lead: string, core: string, tail: string, rest: string)
    ensures Clean(s, lead, core, tail, rest) && core == Sanitized(s)
  {
    hide DropLead;
    hide BeforeHash;
    hide DropTail;
    var i := DropLeadSplit(s);
    var after := s[i..];
    var j := BeforeHashSplit(after);
    var body := after[..j];
    var k := DropTailSplit(body);
    lead, core, tail, rest := s[..i], body[..k], body[k..], after[j..];
    TailIs(body, k);
    hide Sanitized;
    Joined(s, i, j, k);
    CoreIs(after, j, k);
  }

  lemma Joined(s: string, i: nat, j: nat, k: nat)
    requires i <= |s| && j <= |s| - i && k <= j
    ensures s == s[..i] + s[i..][..j][..k] + s[i..][..j][k..] + s[i..][j..]
  {
    var after := s[i..];
    var body := after[..j];
    assert s == s[..i] + after && after == body + after[j..] && body == body[..k] + body[k..];
    assert s[..i] + (body[..k] + body[k..] + after[j..]) == s[..i] + body[..k] + body[k..] + after[j..];
  }

  lemma CoreIs(after: string, j: nat, k: nat)
    requires j <= |after| && k <= j && '#' !in after[..j] && (after == [] || !IsBlank(after[0]))
    requires k == 0 || !IsTail(after[..j][k - 1])
    ensures var core := after[..j][..k];
            && '#' !in core
            && (core != [] ==> !IsBlank(core[0]) && !IsTail(core[|core| - 1]))
  {
    var core := after[..j][..k];
    assert forall n :: 0 <= n < |core| ==> core[n] in after[..j];
  }

  lemma {:induction false} TailIs(body: string, k: nat)
    requires k <= |body| && DropTail(body) == body[..k]
    ensures forall n :: k <= n < |body| ==> body[n] == ' ' || body[n] == '\r' || body[n] == '\n'
  {
    if body != [] && IsTail(body[|body| - 1]) {
      var shorter := body[..|body| - 1];
      assert |DropTail(body)| == |body[..k]|;
      ShortTail(shorter);
      assert shorter[..k] == body[..k];
      TailIs(shorter, k);
    } else {
      assert |body[..k]| == |body|;
    }
  }

  lemma {:induction false} ShortTail(s: string)
    ensures |DropTail(s)| <= |s|
  {
    if s != [] && IsTail(s[|s| - 1]) {
      ShortTail(s[..|s| - 1]);
    }
  }

  lemma CleanIs(s: string, lead: string, core: string, tail: string, rest: string)
    requires Clean(s, lead, core, tail, rest)
    ensures Sanitized(s) == core
  {
    if core == [] {
      var n := DropLeadSplit(s);
      assert n >= |lead| by {
        assert forall i :: 0 <= i < |lead| ==> s[i] == lead[i];
      }
      var t := if n < |lead| + |tail| then tail[n - |lead|..] else [];
      assert forall i :: 0 <= i < |t| ==> t[i] in tail;
      if rest != [] {
        assert s[|lead| + |tail|] == '#';
      }
      assert s[n..] == t + rest;
      assert '#' !in tail;
      assert (t + rest)[..|t|] == t;
      BeforeHashIs(t + rest, |t|);
      DropTailIs(t, 0);
      assert t[..0] == [];
    } else {
      var after := core + tail + rest;
      assert s == lead + after && after[0] == core[0];
      DropLeadIs(s, |lead|);
      assert s[|lead|..] == after;
      var body := core + tail;
      assert '#' !in tail && after[..|body|] == body;
      BeforeHashIs(after, |body|);
      assert body[..|core|] == core;
      DropTailIs(body, |core|);
    }
  }

  /** The clean text of a line, for every line. */
  lemma SanitizedIff(s: string, core: string)
    ensures Sanitized(s) == core <==> exists lead, tail, rest :: Clean(s, lead, core, tail, rest)
  {
    if Sanitized(s) == core {
      var lead, c, tail, rest := CleanForm(s);
    }
    if exists lead, tail, rest :: Clean(s, lead, core, tail, rest) {
      var lead, tail, rest :| Clean(s, lead, core, tail, rest);
      CleanIs(s, lead, core, tail, rest);
    }
  }

  // ----- numbers -----

  /** Decimal notation, from single digits up. */
  lemma DigitsAre(n: nat, d: nat)
    requires d < 10
    ensures Digits(d) == ["0123456789"[d]]
    ensures n > 0 ==> Digits(10 * n + d) == Digits(n) + ["0123456789"[d]]
  {
  }

  predicate AllOf(s: string, c: char) {
    forall i :: 0 <= i < |s| ==> s[i] == c
  }

  /** White space, a sign, zeros and the decimal digits of a number that fits a
      long. */
  ghost predicate Written(s: string, v: int, spaces: string, sign: string, zeros: string, n: nat) {
    && s == spaces + sign + zeros + Digits(n)
    && (forall i :: 0 <= i < |spaces| ==> spaces[i] in {' ', '\t', '\n', '\U{b}', '\U{c}', '\r'})
    && sign in {"", "+", "-"} && AllOf(zeros, '0')
    && (if sign == "-" then v + n == 0 else v == n)
    && -0x8000_0000_0000_0000 <= v <= 0x7fff_ffff_ffff_ffff
  }

  ghost predicate Number(s: string, v: int) {
    exists spaces, sign, zeros, n :: Written(s, v, spaces, sign, zeros, n)
  }

  ghost predicate NoNumber(s: string) {
    forall v :: !Number(s, v)
  }

  lemma {:induction false} ValueZeros(zeros: string, digits: string)
    requires AllOf(zeros, '0') && forall i :: 0 <= i < |digits| ==> IsDigit(digits[i])
    ensures forall i :: 0 <= i < |zeros + digits| ==> IsDigit((zeros + digits)[i])
    ensures Value(zeros + digits) == Value(digits)
    decreases |zeros| + |digits|
  {
    var s := zeros + digits;
    if digits != [] {
      var n := |digits| - 1;
      ValueZeros(zeros, digits[..n]);
      assert s[..|s| - 1] == zeros + digits[..n];
    } else if zeros != [] {
      var n := |zeros| - 1;
      ValueZeros(zeros[..n], []);
      assert s == zeros && zeros[..n] + [] == zeros[..n];
    }
  }

  lemma {:induction false} SkipSpacesIs(s: string, n: nat)
    requires n <= |s| && (forall i :: 0 <= i < n ==> IsSpace(s[i])) && (n == |s| || !IsSpace(s[n]))
    ensures SkipSpaces(s) == n
  {
    if n > 0 {
      SkipSpacesIs(s[1..], n - 1);
    }
  }

  lemma AllDigits(zeros: string, n: nat)
    requires AllOf(zeros, '0')
    ensures var digits := zeros + Digits(n);
            && (forall i :: 0 <= i < |digits| ==> IsDigit(digits[i]))
            && |digits| > 0 && Value(digits) == n && DigitRun(digits) == |digits|
  {
    ValueZeros(zeros, Digits(n));
    DigitsValue(n);
    DigitRunIs(zeros + Digits(n), |zeros + Digits(n)|);
  }

  lemma SkipTo(s: string, spaces: string, rest: string)
    requires s == spaces + rest && rest != [] && !IsSpace(rest[0])
    requires forall i :: 0 <= i < |spaces| ==> IsSpace(spaces[i])
    ensures SkipSpaces(s) == |spaces| && s[|spaces|] == rest[0]
  {
    assert forall i :: 0 <= i < |spaces| ==> s[i] == spaces[i];
    SkipSpacesIs(s, |spaces|);
  }

  lemma WholeParses(s: string, i: nat, j: nat, digits: string)
    requires SkipSpaces(s) == i && i < |s| && j == (if s[i] in {'-', '+'} then i + 1 else i)
    requires j < |s| && s[j..] == digits && DigitRun(digits) == |digits|
    requires forall k :: 0 <= k < |digits| ==> IsDigit(digits[k])
    ensures var v: int := if s[i] == '-' then 0 - Value(digits) else Value(digits);
            ParseLong(s) == if LONG_MIN <= v <= LONG_MAX then Some(v) else None
  {
    assert digits[..|digits|] == digits;
    hide Value;
    hide DigitRun;
    hide SkipSpaces;
    hide IsDigit;
  }

  lemma PlainDigit(c: char)
    requires IsDigit(c)
    ensures !IsSpace(c) && c != '-' && c != '+'
    ensures "0123456789"[(c - '0') as nat] == c && (c - '0') as nat < 10
  {
  }

  lemma SignedParses(s: string, spaces: string, sign: string, digits: string)
    requires s == spaces + (sign + digits) && digits != [] && sign in {"", "+", "-"}
    requires forall i :: 0 <= i < |spaces| ==> IsSpace(spaces[i])
    requires forall i :: 0 <= i < |digits| ==> IsDigit(digits[i])
    ensures var v: int := if sign == "-" then 0 - Value(digits) else Value(digits);
            ParseLong(s) == if LONG_MIN <= v <= LONG_MAX then Some(v) else None
  {
    hide Value;
    hide DigitRun;
    hide SkipSpaces;
    hide ParseLong;
    DigitRunIs(digits, |digits|);
    PlainDigit(digits[0]);
    assert !IsSpace('-') && !IsSpace('+');
    hide IsSpace;
    hide IsDigit;
    var i, rest := |spaces|, sign + digits;
    if sign == "" {
      assert rest == digits;
      SkipTo(s, spaces, rest);
      WholeParses(s, i, i, digits);
    } else {
      assert rest[0] == sign[0] && rest[1..] == digits;
      SkipTo(s, spaces, rest);
      assert s[i + 1..] == digits;
      WholeParses(s, i, i + 1, digits);
    }
  }

  lemma WrittenParses(s: string, v: int, spaces: string, sign: string, zeros: string, n: nat)
    requires Written(s, v, spaces, sign, zeros, n)
    ensures ParseLong(s) == Some(v)
  {
    var digits := zeros + Digits(n);
    AllDigits(zeros, n);
    assert forall i :: 0 <= i < |spaces| ==> IsSpace(spaces[i]);
    hide IsSpace;
    hide Digits;
    hide Value;
    hide DigitRun;
    hide AllOf;
    hide ParseLong;
    Parted(spaces, sign, zeros, Digits(n), digits);
    hide IsDigit;
    SignedParses(s, spaces, sign, digits);
  }

  /** A string of digits is some zeros and the notation of its value. */
  lemma {:induction false} Notation(digits: string) returns (zeros: string)
    requires digits != [] && forall i :: 0 <= i < |digits| ==> IsDigit(digits[i])
    ensures AllOf(zeros, '0') && digits == zeros + Digits(Value(digits))
  {
    hide Digits;
    var k := |digits| - 1;
    var front, d := digits[..k], (digits[k] - '0') as nat;
    assert digits == front + [digits[k]];
    assert Value(digits) == 10 * Value(front) + d && Value([]) == 0;
    PlainDigit(digits[k]);
    if front == [] {
      zeros := [];
      DigitsAre(0, d);
    } else {
      zeros := Notation(front);
      hide Value;
      hide IsDigit;
      DigitsAre(Value(front), d);
      DigitsAre(0, 0);
      if Value(front) == 0 {
        assert front == zeros + ["0123456789"[0]];
        zeros := front;
      }
    }
  }

  lemma ParsesWritten(s: string, v: int)
    requires ParseLong(s) == Some(v)
    ensures Number(s, v)
  {
    var i := SkipSpaces(s);
    SpacesOnly(s);
    hide SkipSpaces;
    hide Digits;
    hide Value;
    hide DigitRun;
    var j := if i < |s| && s[i] in {'-', '+'} then i + 1 else i;
    var digits := s[j..];
    assert DigitRun(digits) == |digits|;
    assert digits[..|digits|] == digits;
    var zeros := Notation(digits);
    var spaces, sign := s[..i], s[i..j];
    assert sign == if j == i then "" else [s[i]];
    assert s == spaces + sign + digits;
    Parted(spaces, sign, zeros, Digits(Value(digits)), digits);
    assert Written(s, v, spaces, sign, zeros, Value(digits));
  }

  lemma Parted(spaces: string, sign: string, zeros: string, core: string, digits: string)
    requires digits == zeros + core
    ensures spaces + sign + zeros + core == spaces + sign + digits == spaces + (sign + digits)
  {
  }

  lemma {:induction false} SpacesOnly(s: string)
    ensures forall i :: 0 <= i < SkipSpaces(s) ==> s[i] in {' ', '\t', '\n', '\U{b}', '\U{c}', '\r'}
  {
    if s != [] && IsSpace(s[0]) {
      SpacesOnly(s[1..]);
      assert forall i :: 1 <= i < SkipSpaces(s) ==> s[i] == s[1..][i - 1];
    }
  }

  /** What counts as a number after the '='. */
  lemma NumberIff(s: string, v: int)
    ensures ParseLong(s) == Some(v) <==> Number(s, v)
  {
    if ParseLong(s) == Some(v) {
      ParsesWritten(s, v);
    }
    if Number(s, v) {
      var spaces, sign, zeros, n :| Written(s, v, spaces, sign, zeros, n);
      WrittenParses(s, v, spaces, sign, zeros, n);
    }
  }

  // ----- what a line does -----

  ghost predicate FirstAt(line: string, c: char, i: nat) {
    i < |line| && line[i] == c && c !in line[..i]
  }

  /** The line opens a section, named by what is between the brackets. */
  ghost predicate Opens(line: string, open: nat, close: nat) {
    '=' !in line && FirstAt(line, '[', open) && FirstAt(line, ']', close) && open < close
  }

  /** The line is a test with a level. */
  ghost predicate Lists(line: string, equal: nat, level: int) {
    FirstAt(line, '=', equal) && Number(line[equal + 1..], level)
  }

  /** The line ends the parsing: it has no '=' and lacks a bracket; or it has one,
      a section is open, and what follows the first '=' is no number. */
  ghost predicate Stops(line: string, inSection: bool) {
    || ('=' !in line && ('[' !in line || ']' !in line))
    || (inSection && exists e: nat :: FirstAt(line, '=', e) && NoNumber(line[e + 1..]))
  }

  lemma NotBefore(line: string, c: char, i: nat)
    requires FirstAt(line, c, i)
    ensures forall n :: 0 <= n < i ==> line[n] != c
  {
    assert forall n :: 0 <= n < i ==> line[n] in line[..i];
  }

  lemma FirstIs(line: string, c: char)
    ensures match Find(line, c)
            case None => c !in line
            case Some(i) => FirstAt(line, c, i) && forall j: nat :: FirstAt(line, c, j) ==> j == i
  {
    if Find(line, c).Some? {
      var i := Find(line, c).value;
      assert c !in line[..i];
      NotBefore(line, c, i);
      forall j: nat | FirstAt(line, c, j)
        ensures j == i
      {
        NotBefore(line, c, j);
      }
    }
  }

  lemma NumberOrNot(s: string)
    ensures match ParseLong(s)
            case None => NoNumber(s)
            case Some(w) => Number(s, w) && forall v :: Number(s, v) ==> v == w
  {
    forall v
      ensures ParseLong(s) == Some(v) <==> Number(s, v)
    {
      NumberIff(s, v);
    }
  }

  /** The effect of a clean line, in terms of the line. */
  ghost predicate Effect(units: seq<UnitNode>, line: string, p: Parsed) {
    && (p.ok <==> !Stops(line, units != []))
    && (forall o: nat, c: nat :: Opens(line, o, c) ==> p.units == [UnitNode(line[o + 1..c], [])] + units)
    && (forall e: nat, v :: units != [] && Lists(line, e, v) ==>
          p.units == [UnitNode(units[0].name, [TestNode(line[..e], v)] + units[0].tests)] + units[1..])
    && (&& (forall o: nat, c: nat :: !Opens(line, o, c))
        && (units == [] || forall e: nat, v :: !Lists(line, e, v))
        ==> p.units == units)
  }

  lemma PairMeans(units: seq<UnitNode>, line: string, e: nat)
    requires FirstAt(line, '=', e) && forall j: nat :: FirstAt(line, '=', j) ==> j == e
    ensures Effect(units, line, Act(units, Pair(line[..e], ParseLong(line[e + 1..]))))
  {
    NumberOrNot(line[e + 1..]);
    SeenAt(line, '=', e);
    hide Number;
    hide ParseLong;
    hide FirstAt;
    if units != [] && ParseLong(line[e + 1..]).Some? {
      assert Lists(line, e, ParseLong(line[e + 1..]).value);
    }
  }

  lemma SectionMeans(units: seq<UnitNode>, line: string, o: nat, c: nat)
    requires '=' !in line && FirstAt(line, '[', o) && FirstAt(line, ']', c)
    requires forall j: nat :: FirstAt(line, '[', j) ==> j == o
    requires forall j: nat :: FirstAt(line, ']', j) ==> j == c
    ensures Effect(units, line, Act(units, if o > c then Crossed else Section(line[o + 1..c])))
  {
    NotSeen(line, '=');
    SeenAt(line, '[', o);
    SeenAt(line, ']', c);
    assert line[o] == '[' && line[c] == ']';
    hide FirstAt;
    hide Number;
    if o < c {
      assert Opens(line, o, c);
    }
  }

  lemma UnknownMeans(units: seq<UnitNode>, line: string)
    requires '=' !in line && ('[' !in line || ']' !in line)
    ensures Effect(units, line, Act(units, Unknown))
  {
    NotSeen(line, '=');
    if '[' !in line {
      NotSeen(line, '[');
    } else {
      NotSeen(line, ']');
    }
    hide FirstAt;
    hide Number;
  }

  lemma ActMeans(units: seq<UnitNode>, line: string)
    ensures Effect(units, line, Act(units, Classify(line)))
  {
    FirstIs(line, '=');
    FirstIs(line, '[');
    FirstIs(line, ']');
    hide Effect;
    hide FirstAt;
    hide ParseLong;
    if Find(line, '=').Some? {
      PairMeans(units, line, Find(line, '=').value);
    } else if Find(line, '[').Some? && Find(line, ']').Some? {
      SectionMeans(units, line, Find(line, '[').value, Find(line, ']').value);
    } else {
      UnknownMeans(units, line);
    }
  }

  lemma SeenAt(line: string, c: char, i: nat)
    requires FirstAt(line, c, i)
    ensures c in line && i < |line|
  {
  }

  lemma NotSeen(line: string, c: char)
    requires c !in line
    ensures forall i: nat :: !FirstAt(line, c, i)
  {
  }

  // ----- any file -----

  function CleanLines(chunks: seq<string>): (lines: seq<string>)
    ensures |lines| == |chunks|
    ensures forall i :: 0 <= i < |chunks| ==> lines[i] == Sanitized(CString(chunks[i]))
  {
    seq(|chunks|, i requires 0 <= i < |chunks| => Sanitized(CString(chunks[i])))
  }

  /** Some line up to the n-th has opened a section. */
  ghost predicate Opened(lines: seq<string>, n: nat) {
    exists j: nat, o: nat, c: nat :: j < n && j < |lines| && Opens(lines[j], o, c)
  }

  /** No line stops the parser. */
  ghost predicate Readable(lines: seq<string>, inSection: bool) {
    forall i: nat :: i < |lines| && lines[i] != [] ==> !Stops(lines[i], inSection || Opened(lines, i))
  }

  lemma OpenedTail(lines: seq<string>, i: nat)
    requires lines != []
    ensures Opened(lines, i + 1) <==> Opened(lines[..1], 1) || Opened(lines[1..], i)
  {
    var first, rest := lines[..1], lines[1..];
    if Opened(lines, i + 1) {
      var j: nat, o: nat, c: nat :| j < i + 1 && j < |lines| && Opens(lines[j], o, c);
      if j > 0 {
        assert rest[j - 1] == lines[j];
      } else {
        assert first[0] == lines[0];
      }
    }
    if Opened(first, 1) {
      var j: nat, o: nat, c: nat :| j < 1 && j < |first| && Opens(first[j], o, c);
      assert Opens(lines[0], o, c);
    }
    if Opened(rest, i) {
      var j: nat, o: nat, c: nat :| j < i && j < |rest| && Opens(rest[j], o, c);
      assert Opens(lines[j + 1], o, c);
    }
  }

  lemma ReadableTail(lines: seq<string>, inSection: bool)
    requires lines != []
    ensures Readable(lines, inSection) <==>
              && (lines[0] != [] ==> !Stops(lines[0], inSection))
              && Readable(lines[1..], inSection || Opened(lines[..1], 1))
  {
    var rest, now := lines[1..], inSection || Opened(lines[..1], 1);
    assert !Opened(lines, 0);
    hide Stops;
    forall i: nat
      ensures Opened(lines, i + 1) <==> Opened(lines[..1], 1) || Opened(rest, i)
    {
      OpenedTail(lines, i);
    }
    hide Opened;
    if Readable(lines, inSection) {
      assert lines[0] != [] ==> !Stops(lines[0], inSection || Opened(lines, 0));
      forall i: nat | i < |rest| && rest[i] != []
        ensures !Stops(rest[i], now || Opened(rest, i))
      {
        assert !Stops(lines[i + 1], inSection || Opened(lines, i + 1));
      }
    }
    if (lines[0] != [] ==> !Stops(lines[0], inSection)) && Readable(rest, now) {
      forall i: nat | i < |lines| && lines[i] != []
        ensures !Stops(lines[i], inSection || Opened(lines, i))
      {
        if i > 0 {
          assert !Stops(rest[i - 1], now || Opened(rest, i - 1));
          assert Opened(lines, i - 1 + 1) <==> Opened(lines[..1], 1) || Opened(rest, i - 1);
        }
      }
    }
  }

  lemma LineOpens(units: seq<UnitNode>, chunk: string)
    ensures var line := Sanitized(CString(chunk));
            && (ParseLine(units, chunk).ok <==> line == [] || !Stops(line, units != []))
            && (ParseLine(units, chunk).units != [] <==> units != [] || Opened([line], 1))
  {
    var line := Sanitized(CString(chunk));
    ActMeans(units, line);
    var p := ParseLine(units, chunk);
    if units == [] && p.units != [] {
      var o: nat, c: nat :| Opens(line, o, c);
      assert Opens([line][0], o, c);
    }
    if Opened([line], 1) {
      var j: nat, o: nat, c: nat :| j < 1 && Opens([line][j], o, c);
      assert Opens(line, o, c);
    }
    if units != [] {
      NeverEmptied(units, Classify(line));
    }
  }

  lemma NeverEmptied(units: seq<UnitNode>, line: Line)
    requires units != []
    ensures Act(units, line).units != []
  {
  }

  lemma {:induction false} ChunksReadable(units: seq<UnitNode>, chunks: seq<string>)
    ensures ParseChunks(units, chunks).ok <==> Readable(CleanLines(chunks), units != [])
    decreases |chunks|
  {
    var lines := CleanLines(chunks);
    if chunks != [] {
      var line := lines[0];
      LineOpens(units, chunks[0]);
      ReadableTail(lines, units != []);
      assert lines[..1] == [line] && lines[1..] == CleanLines(chunks[1..]);
      hide Stops;
      hide Opened;
      hide Readable;
      hide ParseLine;
      if ParseLine(units, chunks[0]).ok {
        ChunksReadable(ParseLine(units, chunks[0]).units, chunks[1..]);
      }
    }
  }

  /** For any text at all: the file is parsed to its end if and only if none of
      its lines stops the parser. */
  lemma FileReadable(text: string)
    ensures ParseFile(text).ok <==> Readable(CleanLines(Chunks(text)), false)
  {
    ChunksReadable([], Chunks(text));
  }
}
