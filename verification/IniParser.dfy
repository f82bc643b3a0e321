/** Parsing the file of required tests (userspace/src/required_tests.c,
    parse_long and parse_req_file). */
module IniParser {
  import opened Sequences
  import opened Limits
  import opened RequiredTests
  import opened IniFile

  // ----- strtol(str, &tmp, 10), section 7.22.1.4 of ISO/IEC 9899:2011 -----

  predicate IsSpace(c: char) {
    c in {' ', '\t', '\n', '\U{b}', '\U{c}', '\r'}
  }

  predicate IsDigit(c: char) {
    '0' <= c <= '9'
  }

  function SkipSpaces(s: string): (n: nat)
    ensures n <= |s|
  {
    if s != [] && IsSpace(s[0]) then 1 + SkipSpaces(s[1..]) else 0
  }

  function DigitRun(s: string): (n: nat)
    ensures n <= |s| && forall i :: 0 <= i < n ==> IsDigit(s[i])
    ensures n < |s| ==> !IsDigit(s[n])
  {
    if s != [] && IsDigit(s[0]) then 1 + DigitRun(s[1..]) else 0
  }

  function Value(digits: string): nat
    requires forall i :: 0 <= i < |digits| ==> IsDigit(digits[i])
  {
    if digits == [] then 0
    else
      assert IsDigit(digits[|digits| - 1]);
      10 * Value(digits[..|digits| - 1]) + (digits[|digits| - 1] - '0') as nat
  }

  /** The value, where the subject sequence ends (0 if there is none), and
      whether errno is set to ERANGE. */
  datatype StrtolResult = StrtolResult(value: int, end: nat, erange: bool)

  function Strtol(s: string): StrtolResult {
    var i := SkipSpaces(s);
    var j := if i < |s| && s[i] in {'-', '+'} then i + 1 else i;
    var n := DigitRun(s[j..]);
    if n == 0 then StrtolResult(0, 0, false)
    else
      var v: int := Value(s[j..][..n]);
      var signed: int := if s[i] == '-' then -v else v;
      if signed > LONG_MAX then StrtolResult(LONG_MAX, j + n, true)
      else if signed < LONG_MIN then StrtolResult(LONG_MIN, j + n, true)
      else StrtolResult(signed, j + n, false)
  }

  /** parse_long. */
  function ParseLong(s: string): Option<int> {
    var r := Strtol(s);
    if r.end == 0 || r.end < |s| || ((r.value == LONG_MIN || r.value == LONG_MAX) && r.erange) then None
    else Some(r.value)
  }

  // ----- lines -----

  datatype Line = Pair(name: string, value: Option<int>) | Section(name: string) | Crossed | Unknown

  /** What a clean, non-empty line is: a '=' makes it a test whatever else is
      in it. */
  function Classify(line: string): Line {
    match Find(line, '=')
    case Some(e) => Pair(line[..e], ParseLong(line[e + 1..]))
    case None =>
      match (Find(line, '['), Find(line, ']'))
      case (Some(open), Some(close)) => if open > close then Crossed else Section(line[open + 1..close])
      case _ => Unknown
  }

  /** `ok` is whether parse_req_file goes on. */
  datatype Parsed = Parsed(units: seq<UnitNode>, ok: bool)

  function AddTest(units: seq<UnitNode>, name: string, level: int): seq<UnitNode>
    requires units != []
  {
    [UnitNode(units[0].name, [TestNode(name, level)] + units[0].tests)] + units[1..]
  }

  /** What a line does.  nvgpu_list_add puts new nodes first, so the current
      unit is the head of the list. */
  function Act(units: seq<UnitNode>, line: Line): Parsed {
    match line
    case Pair(name, value) =>
      if units == [] then Parsed(units, true)
      else if value.None? then Parsed(units, false)
      else Parsed(AddTest(units, name, value.value), true)
    case Section(name) => Parsed([UnitNode(name, [])] + units, true)
    case Crossed => Parsed(units, true)
    case Unknown => Parsed(units, false)
  }

  /** One line read by fgets. */
  function ParseLine(units: seq<UnitNode>, chunk: string): Parsed {
    var line := Sanitized(CString(chunk));
    if line == [] then Parsed(units, true) else Act(units, Classify(line))
  }

  function ParseChunks(units: seq<UnitNode>, chunks: seq<string>): Parsed
    decreases |chunks|
  {
    if chunks == [] then Parsed(units, true)
    else
      var p := ParseLine(units, chunks[0]);
      if p.ok then ParseChunks(p.units, chunks[1..]) else p
  }

  function ParseFile(file: string): Parsed {
    ParseChunks([], Chunks(file))
  }

  /** How many list nodes there are, sections and tests. */
  function Nodes(units: seq<UnitNode>): nat {
    if units == [] then 0 else 1 + |units[0].tests| + Nodes(units[1..])
  }

  /** A line allocates at most one node. */
  lemma NodesAct(units: seq<UnitNode>, line: Line)
    ensures Nodes(Act(units, line).units) == Nodes(units) + if Act(units, line).units == units then 0 else 1
    ensures line.Section? ==> Act(units, line).units != units
  {
    match line
    case Pair(name, value) =>
      if units != [] && value.Some? {
        var units' := AddTest(units, name, value.value);
        assert units'[1..] == units[1..];
        assert |units'[0].tests| == |units[0].tests| + 1;
      }
    case Section(name) =>
      var units' := [UnitNode(name, [])] + units;
      assert units'[1..] == units && |units'| == |units| + 1;
    case _ =>
  }

  lemma {:induction false} NodesGrow(units: seq<UnitNode>, chunks: seq<string>)
    ensures Nodes(units) <= Nodes(ParseChunks(units, chunks).units)
    decreases |chunks|
  {
    if chunks != [] {
      var line := Sanitized(CString(chunks[0]));
      if line != [] {
        NodesAct(units, Classify(line));
      }
      NodesGrow(ParseLine(units, chunks[0]).units, chunks[1..]);
    }
  }

  // ----- the code -----

  /** fgets from `pos`; `next` is the file's new position. */
  method Fgets(buf: array<char>, file: string, pos: nat) returns (next: nat, got: bool)
    requires buf.Length == MAX_LINE_SIZE && pos <= |file|
    modifies buf
    ensures got <==> pos < |file|
    ensures got ==> var n := ChunkLen(file[pos..], MAX_LINE_SIZE - 1);
                    next == pos + n && buf[..n] == file[pos..next] && buf[n] == '\0'
  {
    next := pos;
    got := pos < |file|;
    if !got {
      return;
    }
    var n := 0;
    ghost var total := ChunkLen(file[pos..], MAX_LINE_SIZE - 1);
    while n < MAX_LINE_SIZE - 1 && next < |file| && (n == 0 || file[next - 1] != '\n')
      invariant 0 <= n <= MAX_LINE_SIZE - 1 && next == pos + n <= |file|
      invariant forall i :: 0 <= i < n ==> buf[i] == file[pos + i]
      invariant total == n + if n > 0 && file[next - 1] == '\n' then 0
                             else ChunkLen(file[next..], MAX_LINE_SIZE - 1 - n)
    {
      assert file[next..][0] == file[next] && file[next..][1..] == file[next + 1..];
      buf[n] := file[next];
      n, next := n + 1, next + 1;
    }
    buf[n] := '\0';
  }

  /** The C string in a buffer. */
  method ReadString(buf: array<char>) returns (s: string)
    ensures s == CString(buf[..])
  {
    var i := 0;
    while i < buf.Length && buf[i] != '\0'
      invariant 0 <= i <= buf.Length
      invariant forall j :: 0 <= j < i ==> buf[j] != '\0'
    {
      i := i + 1;
    }
    s := buf[..i];
    CStringIs(buf[..], i);
  }

  /** The clean text of one line in `raw`. */
  method CleanLine(raw: array<char>, ghost chunk: string) returns (text: string)
    requires raw.Length == MAX_LINE_SIZE && |chunk| < MAX_LINE_SIZE
    requires raw[..|chunk|] == chunk && raw[|chunk|] == '\0'
    ensures text == Sanitized(CString(chunk))
  {
    ghost var n := match Find(chunk, '\0') case Some(i) => i case None => |chunk|;
    CStringIs(chunk, n);
    assert raw[..n] == chunk[..n];
    var line := new char[MAX_LINE_SIZE];
    line[0] := '\0';
    Sanitize(line, raw, chunk[..n]);
    text := ReadString(line);
  }

  /** The body of the loop of parse_req_file; `room` is how many nodes can be
      allocated in all, and a refusal leaves the list as it is. */
  method ParseOne(list: RequiredList, line: string, room: nat) returns (ret: int)
    requires line != [] && Nodes(list.units) <= room
    modifies list
    ensures var p := Act(old(list.units), Classify(line));
            if Nodes(p.units) <= room then list.units == p.units && ret == (if p.ok then 0 else -1)
            else list.units == old(list.units) && Nodes(list.units) == room && ret == -ENOMEM
  {
    NodesAct(list.units, Classify(line));
    var openBracket, closeBracket, equal := Find(line, '['), Find(line, ']'), Find(line, '=');
    if equal.Some? {
      if list.units == [] {
        return 0;
      }
      var name := line[..equal.value];
      var value := ParseLong(line[equal.value + 1..]);
      if value.None? {
        return -1;
      }
      if Nodes(list.units) == room {
        return -ENOMEM;
      }
      list.units := AddTest(list.units, name, value.value);
    } else if openBracket.Some? && closeBracket.Some? {
      if openBracket.value > closeBracket.value {
        return 0;
      }
      if Nodes(list.units) == room {
        return -ENOMEM;
      }
      list.units := [UnitNode(line[openBracket.value + 1..closeBracket.value], [])] + list.units;
    } else {
      return -1;
    }
    return 0;
  }

  /** parse_req_file; None is a file that cannot be opened. */
  method ParseReqFile(list: RequiredList, file: Option<string>, room: nat) returns (ret: int)
    modifies list
    ensures file.None? ==> ret == -1 && list.units == old(list.units)
    ensures file.Some? ==>
              var p := ParseFile(file.value);
              if Nodes(p.units) <= room then list.units == p.units && ret == (if p.ok then 0 else -1)
              else Nodes(list.units) == room && ret == -ENOMEM
  {
    if file.None? {
      return -1;
    }
    list.units := [];
    var text := file.value;
    var raw := new char[MAX_LINE_SIZE];
    var pos := 0;
    assert text[0..] == text;
    while true
      invariant 0 <= pos <= |text| && Nodes(list.units) <= room
      invariant ParseChunks(list.units, Chunks(text[pos..])) == ParseFile(text)
      decreases |text| - pos
    {
      var next, got := Fgets(raw, text, pos);
      if !got {
        return 0;
      }
      ghost var rest := text[pos..];
      ghost var n := ChunkLen(rest, MAX_LINE_SIZE - 1);
      assert rest[..n] == text[pos..next] && rest[n..] == text[next..];
      assert Chunks(rest)[1..] == Chunks(text[next..]);
      NodesGrow(ParseLine(list.units, rest[..n]).units, Chunks(text[next..]));
      var line := CleanLine(raw, rest[..n]);
      if line != [] {
        ret := ParseOne(list, line, room);
        if ret != 0 {
          return;
        }
      }
      pos := next;
    }
  }
}
