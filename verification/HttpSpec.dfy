/** What one call of the parser's readRequest does, said about the bytes of the request
    instead of about offsets into a buffer that moves. */
module HttpSpec {
  import opened Bytes

  const MAXREQUESTSIZE := 8192

  predicate IsSpace(c: byte) { c == SPACE || TAB <= c <= CR }

  function ToLower(c: byte): byte { if 65 <= c <= 90 then c + 32 else c }

  /** s2 must already be lower case, as every caller in the library has it. */
  predicate CiEquals(s1: seq<byte>, s2: seq<byte>) {
    |s1| == |s2| && forall i :: 0 <= i < |s1| ==> ToLower(s1[i]) == s2[i]
  }

  /** `s` spells `word`, with any of its letters in upper case; `word` is in lower case. */
  predicate Casing(s: seq<byte>, word: seq<byte>) {
    |s| == |word| && forall i :: 0 <= i < |s| ==> if 65 <= s[i] <= 90 then word[i] == s[i] + 32 else word[i] == s[i]
  }

  lemma CasingIs(s: seq<byte>, word: seq<byte>)
    ensures CiEquals(s, word) <==> Casing(s, word)
  {
  }

  function Trim(s: seq<byte>): (r: seq<byte>)
    ensures r == [] || (!IsSpace(r[0]) && !IsSpace(r[|r| - 1]))
  {
    if s != [] && IsSpace(s[0]) then Trim(s[1..])
    else if s != [] && IsSpace(s[|s| - 1]) then Trim(s[..|s| - 1])
    else s
  }

  /** atoi: spaces, a sign, then as many digits as follow. Out of range is undefined in C; here it is unbounded. */
  function Atoi(s: seq<byte>): int {
    if s == [] then 0
    else if IsSpace(s[0]) then Atoi(s[1..])
    else if s[0] == 45 then 0 - Digits(s[1..], 0)
    else if s[0] == 43 then Digits(s[1..], 0)
    else Digits(s, 0)
  }

  function Digits(s: seq<byte>, acc: nat): nat {
    if s != [] && 48 <= s[0] <= 57 then Digits(s[1..], acc * 10 + (s[0] - 48)) else acc
  }

  /** A NUL ends the number, whatever follows it. */
  lemma AtoiStopsAtNul(s: seq<byte>, rest: seq<byte>)
    ensures Atoi(s + [0] + rest) == Atoi(s)
  {
    var all := s + [0] + rest;
    DigitsStopAtNul([], rest, 0);
    DigitsStopAtNul(s, rest, 0);
    if s != [] {
      assert all[1..] == s[1..] + [0] + rest;
      DigitsStopAtNul(s[1..], rest, 0);
      if IsSpace(s[0]) { AtoiStopsAtNul(s[1..], rest); }
    }
  }

  lemma DigitsStopAtNul(s: seq<byte>, rest: seq<byte>, acc: nat)
    ensures Digits(s + [0] + rest, acc) == Digits(s, acc)
  {
    if s != [] && 48 <= s[0] <= 57 {
      assert (s + [0] + rest)[1..] == s[1..] + [0] + rest;
      DigitsStopAtNul(s[1..], rest, acc * 10 + (s[0] - 48));
    }
  }

  datatype Field = Field(name: seq<byte>, value: seq<byte>)

  /** Everything recorded about a request while its header lines are read. */
  datatype Head = Head(line: Option<seq<byte>>, verb: seq<byte>, path: seq<byte>, host: seq<byte>,
                       length: int, fields: seq<Field>, malformed: bool)

  const EMPTY_HEAD := Head(None, [], [], [], 0, [], false)

  /** The effect of one header line (its CR LF excluded). */
  function AddLine(h: Head, line: seq<byte>): Head {
    if h.line.None? then AddRequestLine(h, line) else AddField(h, line)
  }

  function AddRequestLine(h: Head, line: seq<byte>): Head {
    var h1 := h.(line := Some(line));
    match FindChar(line, 0, SPACE)
    case None => h1.(malformed := true)
    case Some(i) =>
      var h2 := h1.(verb := line[..i]);
      match FindChar(line[i + 1..], 0, SPACE)
      case None => h2.(malformed := true)
      case Some(j) => h2.(path := line[i + 1..][..j])
  }

  /** Head `h` with one more field. */
  function WithField(h: Head, name: seq<byte>, value: seq<byte>): Head {
    h.(length := if CiEquals(name, Ascii("content-length")) then Atoi(value) else h.length,
       host := if CiEquals(name, Ascii("host")) then value else h.host,
       fields := h.fields + [Field(name, value)])
  }

  function AddField(h: Head, line: seq<byte>): Head {
    match FindChar(line, 0, 58)
    case None => h.(malformed := true)
    case Some(i) =>
      WithField(h, Trim(line[..i]), Trim(line[i + 1..]))
  }

  datatype Phase = ReadHeaders | ReadContent

  /** Where a partially read request stands: `pos` of its bytes are consumed. */
  datatype Cursor = Cursor(pos: nat, head: Head, phase: Phase)

  const START := Cursor(0, EMPTY_HEAD, ReadHeaders)

  datatype Step = More(c: Cursor) | Done(c: Cursor, body: seq<byte>)

  function Malformed(c: Cursor): Cursor { c.(head := c.head.(malformed := true)) }

  /** readRequest on the bytes `s` of the current request (and whatever follows it), without the size test. */
  function Advance(s: seq<byte>, c: Cursor): (r: Step)
    requires c.pos <= |s|
    ensures c.pos <= r.c.pos <= |s|
    ensures r.Done? && !r.c.head.malformed ==> r.c.phase.ReadHeaders?
    decreases |s| - c.pos
  {
    if c.phase.ReadContent? then ReadBody(s, c)
    else
      match FindCRLF(s, c.pos)
      case None => More(c)
      case Some(i) =>
        if i == c.pos then EndOfHeaders(s, c.(pos := i + 2))
        else Advance(s, NextLine(s, c, i))
  }

  /** The cursor after the line that ends at `i`. */
  function NextLine(s: seq<byte>, c: Cursor, i: nat): Cursor
    requires c.pos <= i <= |s|
  {
    c.(pos := i + 2, head := AddLine(c.head, s[c.pos..i]))
  }

  /** The empty line: `c` is just past it. */
  function EndOfHeaders(s: seq<byte>, c: Cursor): (r: Step)
    requires c.pos <= |s|
    ensures c.pos <= r.c.pos <= |s|
    ensures r.Done? && !r.c.head.malformed ==> r.c.phase == ReadHeaders || r.c.phase == c.phase
  {
    if c.head.line.None? then Done(Malformed(c), [])
    else if CiEquals(c.head.verb, Ascii("get")) || c.head.length == 0 then Done(c, [])
    else ReadBody(s, c.(phase := ReadContent))
  }

  function ReadBody(s: seq<byte>, c: Cursor): (r: Step)
    requires c.pos <= |s|
    ensures c.pos <= r.c.pos <= |s|
    ensures r.Done? && !r.c.head.malformed ==> r.c.phase.ReadHeaders?
  {
    if c.head.length < 0 || c.head.length > MAXREQUESTSIZE then Done(Malformed(c), [])
    else if |s| - c.pos >= c.head.length then
      Done(c.(pos := c.pos + c.head.length, phase := ReadHeaders), s[c.pos..c.pos + c.head.length])
    else More(c)
  }

  /** readRequest, size test included: too many buffered bytes are malformed whatever they say. */
  function Read(s: seq<byte>, c: Cursor): (r: Step)
    requires c.pos <= |s|
    ensures c.pos <= r.c.pos <= |s|
    ensures |s| >= MAXREQUESTSIZE ==> r.Done? && r.c.head.malformed
  {
    if |s| >= MAXREQUESTSIZE then Done(Malformed(c), []) else Advance(s, c)
  }

  /** A finished request as the connection handler sees it. */
  datatype Request = Request(verb: seq<byte>, path: seq<byte>, host: seq<byte>, fields: seq<Field>,
                             contents: seq<byte>, malformed: bool)

  function RequestOf(h: Head, body: seq<byte>): Request {
    Request(h.verb, h.path, h.host, h.fields, body, h.malformed)
  }

  // ---------------------------------------------------------------- resuming after a partial read

  /** A verdict is final: bytes that arrive after it change nothing. */
  lemma {:induction false} AdvanceDoneGrows(s: seq<byte>, t: seq<byte>, c: Cursor)
    requires c.pos <= |s|
    requires Advance(s, c).Done?
    ensures Advance(s + t, c) == Advance(s, c)
    decreases |s| - c.pos
  {
    if c.phase.ReadContent? {
      BodyGrows(s, t, c);
    } else {
      FindCRLFGrows(s, t, c.pos);
      var i := FindCRLF(s, c.pos).value;
      if i == c.pos {
        EndOfHeadersGrows(s, t, c.(pos := i + 2));
      } else {
        NextLineGrows(s, t, c, i);
        AdvanceDoneGrows(s, t, NextLine(s, c, i));
      }
    }
  }

  lemma BodyGrows(s: seq<byte>, t: seq<byte>, c: Cursor)
    requires c.pos <= |s|
    ensures ReadBody(s, c).Done? ==> ReadBody(s + t, c) == ReadBody(s, c)
  {
    if ReadBody(s, c).Done? && 0 <= c.head.length <= MAXREQUESTSIZE {
      assert (s + t)[c.pos..c.pos + c.head.length] == s[c.pos..c.pos + c.head.length];
    }
  }

  lemma EndOfHeadersGrows(s: seq<byte>, t: seq<byte>, c: Cursor)
    requires c.pos <= |s|
    ensures EndOfHeaders(s, c).Done? ==> EndOfHeaders(s + t, c) == EndOfHeaders(s, c)
  {
    BodyGrows(s, t, c.(phase := ReadContent));
  }

  lemma NextLineGrows(s: seq<byte>, t: seq<byte>, c: Cursor, i: nat)
    requires c.pos <= i <= |s|
    ensures NextLine(s + t, c, i) == NextLine(s, c, i)
  {
    assert (s + t)[c.pos..i] == s[c.pos..i];
  }

  /** A partial read can be resumed: continuing from the saved cursor is the same as starting over. */
  lemma {:induction false} AdvanceResumes(s: seq<byte>, t: seq<byte>, c: Cursor)
    requires c.pos <= |s|
    requires Advance(s, c).More?
    ensures Advance(s + t, c) == Advance(s + t, Advance(s, c).c)
    decreases |s| - c.pos
  {
    if c.phase.ReadHeaders? && FindCRLF(s, c.pos).Some? {
      FindCRLFGrows(s, t, c.pos);
      var i := FindCRLF(s, c.pos).value;
      if i != c.pos {
        NextLineGrows(s, t, c, i);
        AdvanceResumes(s, t, NextLine(s, c, i));
      }
    }
  }
}
