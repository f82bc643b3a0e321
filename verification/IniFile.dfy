/** The file of required tests (userspace/src/required_tests.c, sanitize,
    parse_long and parse_req_file): line reading, clean-up and parsing as
    functions on strings, and the code proved against them. */
module IniFile {
  import opened Sequences

  const MAX_LINE_SIZE: nat := 256
  const LONG_MAX: int := 0x7fff_ffff_ffff_ffff
  const LONG_MIN: int := -0x8000_0000_0000_0000

  // ----- C strings -----

  /** The characters before the first NUL. */
  function CString(s: string): string {
    if s == [] || s[0] == '\0' then [] else [s[0]] + CString(s[1..])
  }

  /** strchr, as an index. */
  function Find(s: string, c: char): (r: Option<nat>)
    ensures r.Some? ==> r.value < |s| && s[r.value] == c && forall i :: 0 <= i < r.value ==> s[i] != c
    ensures r.None? ==> c !in s
  {
    if s == [] then None
    else if s[0] == c then Some(0)
    else
      match Find(s[1..], c)
      case None => None
      case Some(i) =>
        assert forall j :: 1 <= j < i + 1 ==> s[j] == s[1..][j - 1];
        Some(i + 1)
  }

  lemma {:induction false} CStringIs(s: string, n: nat)
    requires n <= |s| && '\0' !in s[..n] && (n == |s| || s[n] == '\0')
    ensures CString(s) == s[..n]
  {
    if n > 0 {
      assert s[0] == s[..n][0];
      assert s[1..][..n - 1] == s[..n][1..];
      CStringIs(s[1..], n - 1);
    }
  }

  // ----- fgets -----

  /** How many characters one fgets takes: up to and including a newline, or as
      many as there is room for. */
  function ChunkLen(file: string, room: nat): (n: nat)
    ensures n <= |file| && n <= room
    ensures file != [] && room > 0 ==> n > 0
  {
    if file == [] || room == 0 then 0
    else if file[0] == '\n' then 1
    else 1 + ChunkLen(file[1..], room - 1)
  }

  /** What the loop's fgets calls read, one after the other. */
  function Chunks(file: string): seq<string> {
    if file == [] then []
    else
      var n := ChunkLen(file, MAX_LINE_SIZE - 1);
      [file[..n]] + Chunks(file[n..])
  }

  // ----- sanitize -----

  predicate IsBlank(c: char) {
    c == ' ' || c == '\t'
  }

  predicate IsTail(c: char) {
    c == ' ' || c == '\r' || c == '\n'
  }

  function DropLead(s: string): string {
    if s != [] && IsBlank(s[0]) then DropLead(s[1..]) else s
  }

  function BeforeHash(s: string): string {
    if s == [] || s[0] == '#' then [] else [s[0]] + BeforeHash(s[1..])
  }

  function DropTail(s: string): string {
    if s != [] && IsTail(s[|s| - 1]) then DropTail(s[..|s| - 1]) else s
  }

  /** Without leading blanks and tabs, comment, trailing spaces, CRs and LFs
      (but with trailing tabs). */
  function Sanitized(s: string): string {
    DropTail(BeforeHash(DropLead(s)))
  }

  lemma {:induction false} DropLeadIs(s: string, n: nat)
    requires n <= |s| && (forall i :: 0 <= i < n ==> IsBlank(s[i])) && (n == |s| || !IsBlank(s[n]))
    ensures DropLead(s) == s[n..]
  {
    if n > 0 {
      DropLeadIs(s[1..], n - 1);
    }
  }

  lemma {:induction false} BeforeHashIs(s: string, n: nat)
    requires n <= |s| && '#' !in s[..n] && (n == |s| || s[n] == '#')
    ensures BeforeHash(s) == s[..n]
  {
    if n > 0 {
      assert s[0] == s[..n][0];
      assert s[1..][..n - 1] == s[..n][1..];
      BeforeHashIs(s[1..], n - 1);
    }
  }

  lemma {:induction false} DropTailIs(s: string, n: nat)
    requires n <= |s| && (forall i :: n <= i < |s| ==> IsTail(s[i])) && (n == 0 || !IsTail(s[n - 1]))
    ensures DropTail(s) == s[..n]
  {
    if n < |s| {
      assert s[..|s| - 1][..n] == s[..n];
      DropTailIs(s[..|s| - 1], n);
    } else {
      assert s[..n] == s;
    }
  }

  lemma {:induction false} DropLeadSplit(s: string) returns (n: nat)
    ensures n <= |s| && (forall i :: 0 <= i < n ==> IsBlank(s[i])) && (n == |s| || !IsBlank(s[n]))
    ensures DropLead(s) == s[n..]
  {
    n := 0;
    while n < |s| && IsBlank(s[n])
      invariant n <= |s| && forall i :: 0 <= i < n ==> IsBlank(s[i])
    {
      n := n + 1;
    }
    DropLeadIs(s, n);
  }

  lemma BeforeHashSplit(s: string) returns (n: nat)
    ensures n <= |s| && '#' !in s[..n] && (n == |s| || s[n] == '#') && BeforeHash(s) == s[..n]
  {
    n := match Find(s, '#') case Some(i) => i case None => |s|;
    BeforeHashIs(s, n);
  }

  lemma DropTailSplit(s: string) returns (n: nat)
    ensures n <= |s| && (n == 0 || !IsTail(s[n - 1])) && DropTail(s) == s[..n]
  {
    n := |s|;
    while n > 0 && IsTail(s[n - 1])
      invariant 0 <= n <= |s| && forall i :: n <= i < |s| ==> IsTail(s[i])
    {
      n := n - 1;
    }
    DropTailIs(s, n);
  }

  /** A clean line has nothing left to clean, and is never longer. */
  lemma SanitizedIdempotent(s: string)
    ensures Sanitized(Sanitized(s)) == Sanitized(s)
    ensures |Sanitized(s)| <= |s|
  {
    var lead := DropLeadSplit(s);
    var hash := BeforeHashSplit(s[lead..]);
    var body := s[lead..][..hash];
    var tail := DropTailSplit(body);
    var r := Sanitized(s);
    assert r == body[..tail];
    assert r != [] ==> r[0] == s[lead];
    assert forall i :: 0 <= i < |r| ==> r[i] == body[i] && r[i] in body;
    assert r != [] ==> r[|r| - 1] == body[tail - 1];
    DropLeadIs(r, 0);
    assert r[0..] == r && r[..|r|] == r;
    BeforeHashIs(r, |r|);
    DropTailIs(r, |r|);
  }

  /** sanitize, on NUL-terminated buffers. */
  method Sanitize(dest: array<char>, src: array<char>, ghost text: string)
    requires dest != src && |text| < src.Length && |text| < dest.Length
    requires src[..|text|] == text && src[|text|] == '\0' && '\0' !in text
    modifies dest
    ensures CString(dest[..]) == Sanitized(text)
  {
    ghost var n := |text|;
    assert forall j :: 0 <= j < n ==> src[j] == text[j] && text[j] != '\0';
    var i := 0;
    // trim leading blanks
    while src[i] == ' ' || src[i] == '\t'
      invariant 0 <= i <= n
      invariant forall j :: 0 <= j < i ==> IsBlank(text[j])
      decreases n - i
    {
      i := i + 1;
    }
    DropLeadIs(text, i);
    ghost var rest := text[i..];
    ghost var lead := i;
    // copy up to a comment
    var d := 0;
    while src[i] != '\0'
      invariant 0 <= d <= |rest| && i == lead + d
      invariant forall j :: 0 <= j < d ==> dest[j] == rest[j] && rest[j] != '#'
      decreases n - i
    {
      if src[i] == '#' {
        break;
      }
      dest[d] := src[i];
      d, i := d + 1, i + 1;
    }
    BeforeHashIs(rest, d);
    dest[d] := '\0';
    // backtrack over what may not end the line
    Backtrack(dest, d, rest[..d]);
  }

  /** The last loop of sanitize: it starts on the NUL and turns NULs, CRs, LFs
      and spaces into NULs until it meets anything else or leaves the buffer. */
  method Backtrack(dest: array<char>, len: nat, ghost body: string)
    requires len == |body| < dest.Length && '\0' !in body
    requires dest[..|body|] == body && dest[|body|] == '\0'
    modifies dest
    ensures CString(dest[..]) == DropTail(body)
  {
    assert forall j :: 0 <= j < len ==> dest[j] == body[j] && body[j] != '\0';
    var d: int := len;
    while 0 <= d
      invariant -1 <= d <= len
      invariant forall j :: 0 <= j <= d && j < len ==> dest[j] == body[j]
      invariant forall j :: d < j <= len ==> dest[j] == '\0'
      invariant forall j :: d < j < len ==> IsTail(body[j])
      invariant d == len ==> dest[d] == '\0'
      decreases d
    {
      if dest[d] == '\0' || dest[d] == '\r' || dest[d] == '\n' || dest[d] == ' ' {
        dest[d] := '\0';
      } else {
        break;
      }
      d := d - 1;
    }
    DropTailIs(body, d + 1);
    assert dest[..d + 1] == body[..d + 1];
    CStringIs(dest[..], d + 1);
  }
}
