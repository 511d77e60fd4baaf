/** An independent, one-shot reading of an HTTP request, and the proof that the resumable parser computes it.
    Nothing here has a cursor: the header block ends at the first empty line of the whole text, its lines are
    the pieces between CR LF pairs, and each part of the request is looked up in the list of lines. */
module HttpReference {
  import opened Bytes
  import opened HttpSpec

  const GET: seq<byte> := [103, 101, 116]
  const HOST: seq<byte> := [104, 111, 115, 116]
  const CONTENT_LENGTH: seq<byte> := [99, 111, 110, 116, 101, 110, 116, 45, 108, 101, 110, 103, 116, 104]
  const CONNECTION: seq<byte> := [99, 111, 110, 110, 101, 99, 116, 105, 111, 110]
  const CLOSE: seq<byte> := [99, 108, 111, 115, 101]

  lemma Names()
    ensures Ascii("get") == GET && Ascii("host") == HOST && Ascii("content-length") == CONTENT_LENGTH
  {
  }

  lemma ConnectionNames()
    ensures Ascii("connection") == CONNECTION && Ascii("close") == CLOSE
  {
  }

  /** The value of the first field so named; nothing when there is none. */
  ghost predicate FirstNamed(fields: seq<Field>, name: seq<byte>, value: seq<byte>) {
    || (exists k :: 0 <= k < |fields| && Casing(fields[k].name, name) && fields[k].value == value
                    && forall l :: 0 <= l < k ==> !Casing(fields[l].name, name))
    || (value == [] && forall l :: 0 <= l < |fields| ==> !Casing(fields[l].name, name))
  }

  /** The value of the last field so named; nothing when there is none. */
  ghost predicate LastNamed(fields: seq<Field>, name: seq<byte>, value: seq<byte>) {
    || (exists k :: 0 <= k < |fields| && Casing(fields[k].name, name) && fields[k].value == value
                    && forall l :: k < l < |fields| ==> !Casing(fields[l].name, name))
    || (value == [] && forall l :: 0 <= l < |fields| ==> !Casing(fields[l].name, name))
  }

  /** An empty line: a CR LF pair at the very start, or right behind another one. */
  predicate BlankAt(s: seq<byte>, i: int) {
    CrlfAt(s, i) && (i == 0 || CrlfAt(s, i - 2))
  }

  function FindBlank(s: seq<byte>, from: nat): (r: Option<nat>)
    requires from <= |s|
    ensures r.Some? ==> from <= r.value && BlankAt(s, r.value) && forall j :: from <= j < r.value ==> !BlankAt(s, j)
    ensures r.None? ==> forall j :: from <= j ==> !BlankAt(s, j)
    decreases |s| - from
  {
    if from == |s| then None
    else if BlankAt(s, from) then Some(from)
    else FindBlank(s, from + 1)
  }

  /** The CR LF terminated lines of `s`. */
  function Lines(s: seq<byte>): seq<seq<byte>>
    decreases |s|
  {
    match FindCRLF(s, 0)
    case None => []
    case Some(i) => [s[..i]] + Lines(s[i + 2..])
  }

  function VerbOf(line: seq<byte>): seq<byte> {
    match FindChar(line, 0, SPACE)
    case None => []
    case Some(i) => line[..i]
  }

  function PathOf(line: seq<byte>): seq<byte> {
    match FindChar(line, 0, SPACE)
    case None => []
    case Some(i) => VerbOf(line[i + 1..])
  }

  predicate HasTwoSpaces(line: seq<byte>) {
    SPACE in line && SPACE in line[|VerbOf(line)| + 1..]
  }

  /** The header fields: one for every line with a colon. */
  function FieldsOf(lines: seq<seq<byte>>): seq<Field> {
    if lines == [] then []
    else
      var line := lines[|lines| - 1];
      FieldsOf(lines[..|lines| - 1]) + if 58 in line then [FieldOf(line)] else []
  }

  function FieldOf(line: seq<byte>): Field
    requires 58 in line
  {
    FindCharSpec(line, 0, 58);
    var i := FindChar(line, 0, 58).value;
    Field(Trim(line[..i]), Trim(line[i + 1..]))
  }

  /** The value of the last field with that name; empty when there is none. */
  function LastValue(fields: seq<Field>, name: seq<byte>): seq<byte> {
    if fields == [] then []
    else if CiEquals(fields[|fields| - 1].name, name) then fields[|fields| - 1].value
    else LastValue(fields[..|fields| - 1], name)
  }

  function HeadOf(lines: seq<seq<byte>>): Head {
    if lines == [] then EMPTY_HEAD
    else
      var fields := FieldsOf(lines[1..]);
      Head(Some(lines[0]), VerbOf(lines[0]), PathOf(lines[0]),
           LastValue(fields, Ascii("host")), Atoi(LastValue(fields, Ascii("content-length"))), fields,
           !HasTwoSpaces(lines[0]) || Colonless(lines))
  }

  datatype Verdict = Pending | Complete(request: Request, size: nat)

  /** The first request of `s`, and how many bytes it takes; Pending when `s` does not hold all of it. */
  function OneShot(s: seq<byte>): (r: Verdict)
    ensures r.Complete? ==> 2 <= r.size <= |s|
  {
    match FindBlank(s, 0)
    case None => Pending
    case Some(e) => OneShotBody(s, HeadOf(Lines(s[..e])), e)
  }

  /** The part of a one-shot reading that depends on the header block only through `head`. */
  function OneShotBody(s: seq<byte>, head: Head, e: nat): (r: Verdict)
    requires e + 2 <= |s|
    ensures r.Complete? ==> 2 <= r.size <= |s|
  {
    if head.line.None? then Complete(Request([], [], [], [], [], true), e + 2)
    else if CiEquals(head.verb, Ascii("get")) || head.length == 0 then Complete(RequestOf(head, []), e + 2)
    else if head.length < 0 || head.length > MAXREQUESTSIZE then
      Complete(RequestOf(head, []).(malformed := true), e + 2)
    else if |s| < e + 2 + head.length then Pending
    else Complete(RequestOf(head, s[e + 2..e + 2 + head.length]), e + 2 + head.length)
  }

  function VerdictOf(r: Step): Verdict {
    match r
    case More(_) => Pending
    case Done(c, body) => Complete(RequestOf(c.head, body), c.pos)
  }

  // ---------------------------------------------------------------- the parser computes the reference

  /** A text made of whole lines. */
  predicate Block(s: seq<byte>) { s == [] || CrlfAt(s, |s| - 2) }

  lemma {:induction false} LinesAppend(block: seq<byte>, line: seq<byte>)
    requires Block(block)
    requires forall j :: !CrlfAt(line, j)
    ensures Lines(block + line + [CR, LF]) == Lines(block) + [line]
    decreases |block|
  {
    var end := line + [CR, LF];
    Associative(block, line, [CR, LF]);
    if block == [] {
      assert [] + end == end;
      OneLineBlock(line);
    } else {
      FindCRLFSpec(block, 0);
      var i := FindCRLF(block, 0).value;
      var more := block[i + 2..];
      FirstLineOff(block, end, i);
      assert Block(more) by {
        if i + 2 < |block| {
          assert i < |block| - 2 && i + 1 != |block| - 2;
        }
      }
      hide *;
      Associative(more, line, [CR, LF]);
      LinesAppend(more, line);
      Associative([block[..i]], Lines(more), [line]);
    }
  }

  lemma OneLineBlock(line: seq<byte>)
    requires forall j :: !CrlfAt(line, j)
    ensures Lines(line + [CR, LF]) == [line] && Lines([]) == []
  {
    var all := line + [CR, LF];
    assert CrlfAt(all, |line|);
    assert forall j :: 0 <= j < |line| ==> CrlfAt(all, j) ==> CrlfAt(line, j);
    FindCRLFIs(all, 0, |line|);
    assert all[..|line|] == line;
    assert all[|line| + 2..] == [];
    hide CrlfAt;
  }

  /** The first line of a block comes off, whatever follows the block. */
  lemma FirstLineOff(block: seq<byte>, t: seq<byte>, i: nat)
    requires FindCRLF(block, 0) == Some(i)
    ensures i + 2 <= |block| && Lines(block) == [block[..i]] + Lines(block[i + 2..])
    ensures Lines(block + t) == [block[..i]] + Lines(block[i + 2..] + t)
  {
    FindCRLFGrows(block, t, 0);
    assert (block + t)[..i] == block[..i] && (block + t)[i + 2..] == block[i + 2..] + t;
    hide FindCRLF;
  }

  lemma HeadOfAppend(lines: seq<seq<byte>>, line: seq<byte>)
    ensures HeadOf(lines + [line]) == AddLine(HeadOf(lines), line)
  {
    var all := lines + [line];
    if lines == [] {
      RequestLine(line);
      assert all[1..] == [] && all[0] == line;
    } else {
      assert all[1..] == lines[1..] + [line] && all[0] == lines[0];
      FieldsAppend(lines[1..], line);
      ColonlessAppend(lines, line);
      AddFieldAppend(HeadOf(lines), line, FieldsOf(lines[1..]), HeadOf(all));
    }
  }

  /** The head rebuilt from all the lines is the head with one more field line added. */
  lemma AddFieldAppend(h: Head, line: seq<byte>, fields: seq<Field>, all: Head)
    requires h.line.Some? && h.fields == fields
    requires h.host == LastValue(fields, Ascii("host")) && h.length == Atoi(LastValue(fields, Ascii("content-length")))
    requires all.fields == fields + if 58 in line then [FieldOf(line)] else []
    requires all.host == LastValue(all.fields, Ascii("host"))
    requires all.length == Atoi(LastValue(all.fields, Ascii("content-length")))
    requires all.malformed == (h.malformed || 58 !in line)
    requires all.line == h.line && all.verb == h.verb && all.path == h.path
    ensures all == AddField(h, line)
  {
    FindCharSpec(line, 0, 58);
    if 58 in line {
      var f := FieldOf(line);
      LastValueAppend(fields, f, Ascii("host"));
      LastValueAppend(fields, f, Ascii("content-length"));
      assert f == AddField(h, line).fields[|fields|];
    }
  }

  lemma LastValueAppend(fields: seq<Field>, f: Field, name: seq<byte>)
    ensures LastValue(fields + [f], name) == if CiEquals(f.name, name) then f.value else LastValue(fields, name)
  {
    assert (fields + [f])[..|fields|] == fields;
  }

  predicate Colonless(lines: seq<seq<byte>>) { exists k :: 1 <= k < |lines| && 58 !in lines[k] }

  lemma ColonlessAppend(lines: seq<seq<byte>>, line: seq<byte>)
    requires lines != []
    ensures Colonless(lines + [line]) == (Colonless(lines) || 58 !in line)
  {
    var all := lines + [line];
    assert all[|lines|] == line;
    assert forall k :: 1 <= k < |lines| ==> all[k] == lines[k];
  }

  lemma FieldsAppend(lines: seq<seq<byte>>, line: seq<byte>)
    ensures FieldsOf(lines + [line]) == FieldsOf(lines) + if 58 in line then [FieldOf(line)] else []
  {
    assert (lines + [line])[..|lines|] == lines;
  }

  lemma RequestLine(line: seq<byte>)
    ensures AddRequestLine(EMPTY_HEAD, line)
         == Head(Some(line), VerbOf(line), PathOf(line), [], 0, [], !HasTwoSpaces(line))
  {
    FindCharSpec(line, 0, SPACE);
    match FindChar(line, 0, SPACE)
    case None =>
    case Some(i) => FindCharSpec(line[i + 1..], 0, SPACE);
  }

  /** The incremental loop, entered at any line start, gives the verdict of the one-shot reading. */
  lemma {:induction false} AdvanceIsOneShot(s: seq<byte>, pos: nat)
    requires pos <= |s| && Block(s[..pos])
    requires forall j :: 0 <= j < pos ==> !BlankAt(s, j)
    ensures VerdictOf(Advance(s, AtLine(s, pos))) == OneShot(s)
    decreases |s| - pos
  {
    hide HeadOf, Lines, AddLine, EndOfHeaders, OneShotBody, FindCRLF;
    FindCRLFSpec(s, pos);
    match FindCRLF(s, pos)
    case None =>
      NoBlankBehind(s, pos);
    case Some(i) =>
      LineStart(s, pos);
      if i == pos {
        AtBlankLine(s, pos);
      } else {
        NoBlankInLine(s, pos, i);
        NextLineIsAtLine(s, pos, i);
        hide OneShot, NextLine, FindBlank, AtLine;
        AdvanceIsOneShot(s, i + 2);
      }
  }

  lemma NoBlankBehind(s: seq<byte>, pos: nat)
    requires pos <= |s| && forall j :: pos <= j ==> !CrlfAt(s, j)
    requires forall j :: 0 <= j < pos ==> !BlankAt(s, j)
    ensures OneShot(s) == Pending
  {
    assert forall j :: pos <= j ==> !BlankAt(s, j);
    assert FindBlank(s, 0).None?;
  }

  /** The cursor the parser has reached when it has read the lines before `pos`. */
  function AtLine(s: seq<byte>, pos: nat): Cursor
    requires pos <= |s|
  {
    Cursor(pos, HeadOf(Lines(s[..pos])), ReadHeaders)
  }

  lemma NextLineIsAtLine(s: seq<byte>, pos: nat, i: nat)
    requires pos <= |s| && Block(s[..pos])
    requires pos <= i && CrlfAt(s, i) && forall j :: pos <= j < i ==> !CrlfAt(s, j)
    ensures Block(s[..i + 2])
    ensures NextLine(s, AtLine(s, pos), i) == AtLine(s, i + 2)
  {
    var line := s[pos..i];
    assert forall j :: CrlfAt(line, j) ==> CrlfAt(s, pos + j);
    assert s[..i + 2] == s[..pos] + line + [CR, LF];
    LinesAppend(s[..pos], line);
    HeadOfAppend(Lines(s[..pos]), line);
  }

  lemma AtBlankLine(s: seq<byte>, pos: nat)
    requires pos <= |s| && BlankAt(s, pos)
    requires forall j :: 0 <= j < pos ==> !BlankAt(s, j)
    ensures VerdictOf(EndOfHeaders(s, AtLine(s, pos).(pos := pos + 2))) == OneShot(s)
  {
    assert FindBlank(s, 0) == Some(pos);
    var head := HeadOf(Lines(s[..pos]));
    HeadOfNone(Lines(s[..pos]));
    BodyIsOneShotBody(s, head, pos);
  }

  lemma BodyIsOneShotBody(s: seq<byte>, head: Head, e: nat)
    requires e + 2 <= |s|
    requires head.line.None? ==> head == EMPTY_HEAD
    ensures VerdictOf(EndOfHeaders(s, Cursor(e + 2, head, ReadHeaders))) == OneShotBody(s, head, e)
  {
  }

  lemma HeadOfNone(lines: seq<seq<byte>>)
    ensures HeadOf(lines).line.None? ==> HeadOf(lines) == EMPTY_HEAD
  {
  }

  lemma LineStart(s: seq<byte>, pos: nat)
    requires pos <= |s| && Block(s[..pos])
    ensures pos == 0 || CrlfAt(s, pos - 2)
  {
  }

  lemma NoBlankInLine(s: seq<byte>, pos: nat, i: nat)
    requires pos == 0 || CrlfAt(s, pos - 2)
    requires pos < i && CrlfAt(s, i) && forall j :: pos <= j < i ==> !CrlfAt(s, j)
    ensures forall j :: pos <= j < i + 2 ==> !BlankAt(s, j)
  {
  }

  /** Reading a request in one piece: the loop of readRequest computes the reference on every text. */
  lemma ParserRefinesOneShot(s: seq<byte>)
    ensures VerdictOf(Advance(s, START)) == OneShot(s)
  {
    assert s[..0] == [];
    AdvanceIsOneShot(s, 0);
  }

  /** A request that is not malformed takes at least six bytes: a line with two spaces and two CR LF pairs. */
  lemma RequestTakesSixBytes(s: seq<byte>)
    ensures OneShot(s).Complete? && !OneShot(s).request.malformed ==> OneShot(s).size >= 6
  {
    if OneShot(s).Complete? && !OneShot(s).request.malformed {
      var block := s[..FindBlank(s, 0).value];
      var i := FindCRLF(block, 0).value;
      var line := Lines(block)[0];
      FindCharSpec(line, 0, SPACE);
      assert HasTwoSpaces(line) && line == block[..i];
      assert |VerbOf(line)| + 1 < |line|;
    }
  }

  /** A request line of two spaces and whatever follows them, and an empty line. */
  function BareRequest(pad: seq<byte>): seq<byte> { [SPACE, SPACE] + pad + [CR, LF] + [CR, LF] }

  /** Such a request is complete and well formed, and with nothing behind the spaces it attains the bound. */
  lemma BareRequestIs(pad: seq<byte>)
    requires CR !in pad
    ensures OneShot(BareRequest(pad)) == Complete(Request([], [], [], [], [], false), 6 + |pad|)
  {
    var line := [SPACE, SPACE] + pad;
    BareBlank(pad);
    BareLines(pad);
    BareHead(pad);
    assert BareRequest(pad)[..4 + |pad|] == line + [CR, LF];
    hide FindBlank, Lines, HeadOf, CiEquals;
  }

  lemma BareBlank(pad: seq<byte>)
    requires CR !in pad
    ensures FindBlank(BareRequest(pad), 0) == Some(4 + |pad|)
  {
    var s, e := BareRequest(pad), 4 + |pad|;
    assert BlankAt(s, e);
    forall j | 0 <= j < e ensures !BlankAt(s, j) {
      if 2 <= j < 2 + |pad| { assert s[j] == pad[j - 2] && pad[j - 2] in pad; }
    }
    hide BlankAt;
  }

  lemma BareLines(pad: seq<byte>)
    requires CR !in pad
    ensures Lines([SPACE, SPACE] + pad + [CR, LF]) == [[SPACE, SPACE] + pad]
  {
    var line := [SPACE, SPACE] + pad;
    forall j ensures !CrlfAt(line, j) {
      if 2 <= j < |line| { assert line[j] == pad[j - 2] && pad[j - 2] in pad; }
    }
    assert Lines([]) == [];
    hide Lines, CrlfAt;
    LinesAppend([], line);
    assert [] + line == line && [] + [line] == [line];
  }

  lemma BareHead(pad: seq<byte>)
    ensures HeadOf([[SPACE, SPACE] + pad]) == Head(Some([SPACE, SPACE] + pad), [], [], [], 0, [], false)
  {
    var line := [SPACE, SPACE] + pad;
    FindCharIs(line, 0, SPACE, 0);
    FindCharIs(line[1..], 0, SPACE, 0);
    var fields: seq<seq<byte>> := [line][1..];
    assert fields == [] && line[..0] == [] && line[1..][..0] == [];
    hide FindChar, Ascii;
  }

  /** Without a CR nothing is complete. */
  lemma NoCrIsPending(s: seq<byte>)
    requires CR !in s
    ensures OneShot(s) == Pending
  {
  }
}
