/** The parser object: a growable, compacting buffer with offsets into it. Its abstract state is a cursor over
    `raw`, the bytes of the current request exactly as they were received. */
module HttpParser {
  import opened Bytes
  import opened HttpSpec

  /** s2 must be all lower case. */
  method CiEqual(s1: seq<byte>, s2: seq<byte>) returns (r: bool)
    ensures r == CiEquals(s1, s2) == Casing(s1, s2)
  {
    CasingIs(s1, s2);
    if |s1| != |s2| { return false; }
    if |s1| == 0 { return true; }
    for i := 0 to |s1|
      invariant forall k :: 0 <= k < i ==> ToLower(s1[k]) == s2[k]
    {
      if ToLower(s1[i]) != s2[i] { return false; }
    }
    return true;
  }

  // ---------------------------------------------------------------- recorded offsets

  /** Offsets of a header's name and value, relative to the start of the request. */
  datatype Slot = Slot(nS: int, nE: int, vS: int, vE: int)

  /** Every offset recorded for a request; (-1, -1) is a slice that is not set. */
  datatype Marks = Marks(lineS: int, lineE: int, verbS: int, verbE: int, pathS: int, pathE: int,
                         hostS: int, hostE: int, headers: seq<Slot>)

  const NO_MARKS := Marks(-1, -1, -1, -1, -1, -1, -1, -1, [])

  /** The text of a recorded slice; an unset slice is empty. */
  function Text(raw: seq<byte>, s: int, e: int): seq<byte> {
    if 0 <= s <= e <= |raw| then raw[s..e] else []
  }

  function FieldsIn(raw: seq<byte>, slots: seq<Slot>): seq<Field> {
    if slots == [] then []
    else
      var h := slots[|slots| - 1];
      FieldsIn(raw, slots[..|slots| - 1]) + [Field(Text(raw, h.nS, h.nE), Text(raw, h.vS, h.vE))]
  }

  lemma FieldsInAppend(raw: seq<byte>, slots: seq<Slot>, h: Slot)
    ensures FieldsIn(raw, slots + [h])
         == FieldsIn(raw, slots) + [Field(Text(raw, h.nS, h.nE), Text(raw, h.vS, h.vE))]
  {
    assert (slots + [h])[..|slots|] == slots;
  }

  /** What the offsets say about the bytes `raw`. */
  function HeadIn(raw: seq<byte>, m: Marks, length: int, malformed: bool): (h: Head)
    ensures h.line.None? <==> m.lineS == -1
  {
    Head(if m.lineS == -1 then None else Some(Text(raw, m.lineS, m.lineE)),
         Text(raw, m.verbS, m.verbE), Text(raw, m.pathS, m.pathE), Text(raw, m.hostS, m.hostE),
         length, FieldsIn(raw, m.headers), malformed)
  }

  /** The slice is unset, or ends by `limit` and reads in the window `w` as it was received. */
  predicate Recorded(w: seq<byte>, raw: seq<byte>, s: int, e: int, limit: int) {
    (s == -1 && e == -1) || (0 <= s <= e <= limit <= |raw| == |w| && w[s..e] == raw[s..e])
  }

  /** Every recorded slice ends by `limit` and is intact, and so is every byte from `unread` on. */
  predicate Intact(w: seq<byte>, raw: seq<byte>, m: Marks, limit: int, unread: int) {
    && 0 <= limit <= |raw| == |w| && 0 <= unread <= |raw|
    && Recorded(w, raw, m.lineS, m.lineE, limit)
    && Recorded(w, raw, m.verbS, m.verbE, limit)
    && Recorded(w, raw, m.pathS, m.pathE, limit)
    && Recorded(w, raw, m.hostS, m.hostE, limit)
    && SlotsRecorded(w, raw, m.headers, limit)
    && (forall i :: unread <= i < |w| ==> w[i] == raw[i])
  }

  lemma RecordedGrows(w: seq<byte>, raw: seq<byte>, s: int, e: int, limit: int, t: seq<byte>)
    requires Recorded(w, raw, s, e, limit) && limit <= |raw| == |w|
    ensures Recorded(w + t, raw + t, s, e, limit)
    ensures Text(raw + t, s, e) == Text(raw, s, e)
  {
    if s != -1 {
      assert (w + t)[s..e] == w[s..e] && (raw + t)[s..e] == raw[s..e];
    }
  }

  lemma NothingRecorded(w: seq<byte>, raw: seq<byte>)
    requires |w| == |raw| && forall i :: 0 <= i < |w| ==> w[i] == raw[i]
    ensures Intact(w, raw, NO_MARKS, 0, 0) && HeadIn(raw, NO_MARKS, 0, false) == EMPTY_HEAD
  {
  }

  predicate SlotsRecorded(w: seq<byte>, raw: seq<byte>, slots: seq<Slot>, limit: int) {
    forall h :: h in slots ==> Recorded(w, raw, h.nS, h.nE, limit) && Recorded(w, raw, h.vS, h.vE, limit)
  }

  lemma FieldsGrow(w: seq<byte>, raw: seq<byte>, slots: seq<Slot>, limit: int, t: seq<byte>)
    requires SlotsRecorded(w, raw, slots, limit) && limit <= |raw| == |w|
    ensures SlotsRecorded(w + t, raw + t, slots, limit)
    ensures FieldsIn(raw + t, slots) == FieldsIn(raw, slots)
  {
    if slots != [] {
      var h := slots[|slots| - 1];
      RecordedGrows(w, raw, h.nS, h.nE, limit, t);
      RecordedGrows(w, raw, h.vS, h.vE, limit, t);
      assert forall g :: g in slots ==> g in slots[..|slots| - 1] || g == h;
      FieldsGrow(w, raw, slots[..|slots| - 1], limit, t);
    }
  }

  /** Bytes that arrive behind the request move no recorded slice. */
  lemma IntactGrows(w: seq<byte>, raw: seq<byte>, m: Marks, limit: int, unread: int, t: seq<byte>)
    requires Intact(w, raw, m, limit, unread)
    ensures Intact(w + t, raw + t, m, limit, unread)
    ensures forall length, bad :: HeadIn(raw + t, m, length, bad) == HeadIn(raw, m, length, bad)
  {
    RecordedGrows(w, raw, m.lineS, m.lineE, limit, t);
    RecordedGrows(w, raw, m.verbS, m.verbE, limit, t);
    RecordedGrows(w, raw, m.pathS, m.pathE, limit, t);
    RecordedGrows(w, raw, m.hostS, m.hostE, limit, t);
    FieldsGrow(w, raw, m.headers, limit, t);
  }

  /** Overwriting one byte past all recorded slices leaves them alone. */
  lemma IntactPatched(w: seq<byte>, raw: seq<byte>, m: Marks, limit: int, unread: int, at: int, b: byte)
    requires Intact(w, raw, m, limit, unread)
    requires limit <= at < |w| && unread <= at
    ensures Intact(w[at := b], raw, m, limit, at + 1)
  {
    assert forall s, e :: 0 <= s <= e <= limit ==> w[at := b][s..e] == w[s..e];
  }

  /** A slice of the line [b, e) is recorded as received. */
  lemma SliceOfLine(w: seq<byte>, raw: seq<byte>, m: Marks, b: int, e: int, s: int, t: int)
    requires Intact(w, raw, m, b, b) && b <= s <= t <= e <= |raw|
    ensures Recorded(w, raw, s, t, e) && Text(raw, s, t) == w[s..t] == w[b..e][s - b..t - b]
  {
    SubSlice(w, b, e, s - b, t - b);
    assert w[s..t] == raw[s..t];
  }

  /** The line [b, e) recorded as the request line, with whatever was split off it. */
  lemma RequestLineIntact(w: seq<byte>, raw: seq<byte>, m: Marks, b: int, e: int, n: Marks)
    requires Intact(w, raw, m, b, b) && b <= e <= |raw|
    requires n.lineS == b && n.lineE == e && n.hostS == m.hostS && n.hostE == m.hostE && n.headers == m.headers
    requires (n.verbS == m.verbS && n.verbE == m.verbE) || b <= n.verbS <= n.verbE <= e
    requires (n.pathS == m.pathS && n.pathE == m.pathE) || b <= n.pathS <= n.pathE <= e
    ensures Intact(w, raw, n, e, b)
  {
    SliceOfLine(w, raw, m, b, e, b, e);
    if b <= n.verbS <= n.verbE <= e { SliceOfLine(w, raw, m, b, e, n.verbS, n.verbE); }
    if b <= n.pathS <= n.pathE <= e { SliceOfLine(w, raw, m, b, e, n.pathS, n.pathE); }
  }

  /** The offsets RecordRequestLine records, and whether the line is in order. */
  function RequestLineMarks(line: seq<byte>, m: Marks, b: int): (Marks, bool) {
    var m1 := m.(lineS := b, lineE := b + |line|);
    match FindChar(line, 0, SPACE)
    case None => (m1, false)
    case Some(i) =>
      var m2 := m1.(verbS := b, verbE := b + i);
      match FindChar(line[i + 1..], 0, SPACE)
      case None => (m2, false)
      case Some(j) => (m2.(pathS := b + i + 1, pathE := b + i + 1 + j), true)
  }

  /** Recording one more part of the request line changes just that part of the head. */
  lemma HeadUpdates(raw: seq<byte>, m: Marks, length: int, bad: bool, s: int, e: int)
    requires 0 <= s <= e <= |raw|
    ensures HeadIn(raw, m.(lineS := s, lineE := e), length, bad)
            == HeadIn(raw, m, length, bad).(line := Some(raw[s..e]))
    ensures HeadIn(raw, m.(verbS := s, verbE := e), length, bad) == HeadIn(raw, m, length, bad).(verb := raw[s..e])
    ensures HeadIn(raw, m.(pathS := s, pathE := e), length, bad) == HeadIn(raw, m, length, bad).(path := raw[s..e])
    ensures HeadIn(raw, m, length, true) == HeadIn(raw, m, length, bad).(malformed := true)
  {
    hide FieldsIn;
  }

  lemma RequestLineHead(raw: seq<byte>, m: Marks, length: int, bad: bool, b: int, e: int)
    requires 0 <= b <= e <= |raw|
    requires m.lineS == -1
    ensures var (n, ok) := RequestLineMarks(raw[b..e], m, b);
            HeadIn(raw, n, length, bad || !ok) == AddRequestLine(HeadIn(raw, m, length, bad), raw[b..e])
  {
    hide HeadIn, FindChar;
    var line, m1 := raw[b..e], m.(lineS := b, lineE := e);
    HeadUpdates(raw, m, length, bad, b, e);
    match FindChar(line, 0, SPACE)
    case None => HeadUpdates(raw, m1, length, bad, b, e);
    case Some(i) =>
      var m2 := m1.(verbS := b, verbE := b + i);
      assert raw[b..b + i] == line[..i];
      HeadUpdates(raw, m1, length, bad, b, b + i);
      match FindChar(line[i + 1..], 0, SPACE) {
        case None => HeadUpdates(raw, m2, length, bad, b, e);
        case Some(j) =>
          PathInLine(raw, b, e, i + 1, j);
          HeadUpdates(raw, m2, length, bad, b + i + 1, b + i + 1 + j);
      }
  }

  lemma PathInLine(raw: seq<byte>, b: int, e: int, i: nat, j: nat)
    requires 0 <= b <= e <= |raw| && i + j <= e - b
    ensures raw[b + i..b + i + j] == raw[b..e][i..][..j]
  {
    SubSlice(raw, b, e, i, i + j);
    SubSlice(raw[b..e], i, e - b, 0, j);
  }

  lemma RequestLineStep(w: seq<byte>, raw: seq<byte>, m: Marks, b: int, e: int)
    requires Intact(w, raw, m, b, b) && b <= e <= |raw|
    ensures Intact(w, raw, RequestLineMarks(w[b..e], m, b).0, e, b)
  {
    RequestLineIntact(w, raw, m, b, e, RequestLineMarks(w[b..e], m, b).0);
  }

  /** The offsets RecordField records for a field in the line [b, e). */
  function FieldMarks(m: Marks, g: Slot, isHost: bool): Marks {
    (if isHost then m.(hostS := g.vS, hostE := g.vE) else m).(headers := m.headers + [g])
  }

  /** A field of the line [b, e) recorded, and the byte behind its value patched if `patch`. */
  lemma FieldIntact(w: seq<byte>, raw: seq<byte>, m: Marks, b: int, e: int, g: Slot, isHost: bool, patch: bool)
    requires Intact(w, raw, m, b, b) && b <= e < |raw|
    requires b <= g.nS <= g.nE <= g.vS <= g.vE <= e
    ensures Intact(if patch then w[g.vE := 0] else w, raw, FieldMarks(m, g, isHost), e, e + 1)
  {
    var n := FieldMarks(m, g, isHost);
    FieldSlices(w, raw, m, b, g, isHost);
    hide Intact, FieldMarks;
    if patch {
      IntactPatched(w, raw, n, g.vE, b, g.vE, 0);
      IntactRelaxed(w[g.vE := 0], raw, n, g.vE, g.vE + 1, e, e + 1);
    } else {
      IntactRelaxed(w, raw, n, g.vE, b, e, e + 1);
    }
  }

  lemma FieldSlices(w: seq<byte>, raw: seq<byte>, m: Marks, b: int, g: Slot, isHost: bool)
    requires Intact(w, raw, m, b, b)
    requires b <= g.nS <= g.nE <= g.vS <= g.vE < |raw|
    ensures Intact(w, raw, FieldMarks(m, g, isHost), g.vE, b)
  {
    SliceOfLine(w, raw, m, b, g.vE, g.nS, g.nE);
    SliceOfLine(w, raw, m, b, g.vE, g.vS, g.vE);
    assert forall h :: h in m.headers + [g] ==> h in m.headers || h == g;
  }

  /** `g` is what splitting a line at its first colon and trimming both halves gives. */
  predicate SplitsInto(line: seq<byte>, g: Option<Slot>) {
    match FindChar(line, 0, 58)
    case None => g.None?
    case Some(i) =>
      && g.Some?
      && 0 <= g.value.nS <= g.value.nE <= i < g.value.vS <= g.value.vE <= |line|
      && line[g.value.nS..g.value.nE] == Trim(line[..i])
      && line[g.value.vS..g.value.vE] == Trim(line[i + 1..])
  }

  /** A slot of a line that starts at offset b. */
  function At(g: Slot, b: int): Slot { Slot(b + g.nS, b + g.nE, b + g.vS, b + g.vE) }

  lemma SplitIsInLine(line: seq<byte>, g: Slot)
    requires SplitsInto(line, Some(g))
    ensures 0 <= g.nS <= g.nE < g.vS <= g.vE <= |line|
  {
  }

  lemma NoColonHead(raw: seq<byte>, m: Marks, length: int, bad: bool, line: seq<byte>)
    requires SplitsInto(line, None)
    ensures HeadIn(raw, m, length, true) == AddField(HeadIn(raw, m, length, bad), line)
  {
  }

  lemma AddFieldIs(h: Head, line: seq<byte>, g: Slot)
    requires SplitsInto(line, Some(g))
    ensures AddField(h, line) == WithField(h, line[g.nS..g.nE], line[g.vS..g.vE])
  {
  }

  lemma FieldMarksHead(raw: seq<byte>, m: Marks, length: int, length': int, bad: bool, g: Slot, isHost: bool)
    ensures var h := HeadIn(raw, m, length, bad);
            h.length == length &&
            HeadIn(raw, FieldMarks(m, g, isHost), length', bad)
            == h.(length := length', host := if isHost then Text(raw, g.vS, g.vE) else h.host,
                  fields := h.fields + [Field(Text(raw, g.nS, g.nE), Text(raw, g.vS, g.vE))])
  {
    hide Text, FieldsIn;
    FieldsInAppend(raw, m.headers, g);
  }

  lemma FieldHead(raw: seq<byte>, m: Marks, length: int, bad: bool, b: int, e: int, g: Slot)
    requires 0 <= b <= e <= |raw|
    requires 0 <= g.nS <= g.nE < g.vS <= g.vE <= e - b
    ensures var name, value := raw[b..e][g.nS..g.nE], raw[b..e][g.vS..g.vE];
      HeadIn(raw, FieldMarks(m, At(g, b), CiEquals(name, Ascii("host"))),
             if CiEquals(name, Ascii("content-length")) then Atoi(value) else length, bad)
      == WithField(HeadIn(raw, m, length, bad), name, value)
  {
    hide Atoi, CiEquals, FieldsIn, HeadIn, FieldMarks;
    SubSlice(raw, b, e, g.nS, g.nE);
    SubSlice(raw, b, e, g.vS, g.vE);
    var name, value := raw[b..e][g.nS..g.nE], raw[b..e][g.vS..g.vE];
    var length' := if CiEquals(name, Ascii("content-length")) then Atoi(value) else length;
    FieldMarksHead(raw, m, length, length', bad, At(g, b), CiEquals(name, Ascii("host")));
    hide Ascii;
  }

  /** One field of the line [b, e): what is recorded, and what remains as received. */
  lemma FieldStep(w: seq<byte>, raw: seq<byte>, m: Marks, length: int, bad: bool, b: int, e: int, g: Slot)
    requires Intact(w, raw, m, b, b) && 0 <= b <= e < |raw| == |w|
    requires 0 <= g.nS <= g.nE < g.vS <= g.vE <= e - b
    ensures var name, value := raw[b..e][g.nS..g.nE], raw[b..e][g.vS..g.vE];
            var isLength, isHost := CiEquals(name, Ascii("content-length")), CiEquals(name, Ascii("host"));
            && Intact(if isLength then w[b + g.vE := 0] else w, raw, FieldMarks(m, At(g, b), isHost), e, e + 1)
            && HeadIn(raw, FieldMarks(m, At(g, b), isHost), if isLength then Atoi(value) else length, bad)
               == WithField(HeadIn(raw, m, length, bad), name, value)
  {
    hide Intact, HeadIn, FieldMarks, WithField, Atoi, CiEquals, Ascii;
    var name := raw[b..e][g.nS..g.nE];
    FieldHead(raw, m, length, bad, b, e, g);
    FieldIntact(w, raw, m, b, e, At(g, b), CiEquals(name, Ascii("host")), CiEquals(name, Ascii("content-length")));
  }

  // ---------------------------------------------------------------- one line

  /** Narrow [start, end) past white space on both sides. */
  method TrimRange(s: seq<byte>, start: nat, end: nat) returns (first: nat, last: nat)
    requires start <= end <= |s|
    ensures start <= first <= last <= end
    ensures s[first..last] == Trim(s[start..end])
  {
    hide Trim, IsSpace;
    first, last := start, end;
    while first < last && IsSpace(s[first])
      invariant start <= first <= last == end
      invariant Trim(s[first..last]) == Trim(s[start..end])
    {
      TrimStep(s, first, last);
      first := first + 1;
    }
    while first < last && IsSpace(s[last - 1])
      invariant start <= first <= last <= end
      invariant first < last ==> !IsSpace(s[first])
      invariant Trim(s[first..last]) == Trim(s[start..end])
    {
      TrimStep(s, first, last);
      last := last - 1;
    }
    TrimStep(s, first, last);
  }

  lemma TrimStep(s: seq<byte>, first: nat, last: nat)
    requires first <= last <= |s|
    ensures Trim(s[first..last]) ==
              if first < last && IsSpace(s[first]) then Trim(s[first + 1..last])
              else if first < last && IsSpace(s[last - 1]) then Trim(s[first..last - 1])
              else s[first..last]
  {
    var t := s[first..last];
    if first < last {
      assert t[0] == s[first] && t[|t| - 1] == s[last - 1];
      assert t[1..] == s[first + 1..last] && t[..|t| - 1] == s[first..last - 1];
    }
  }

  /** Split a line by ':' and trim both sides. */
  method SplitField(line: seq<byte>) returns (slot: Option<Slot>)
    ensures SplitsInto(line, slot)
  {
    match FindChar(line, 0, 58)
    case None => slot := None;
    case Some(index) =>
      var nS, nE := TrimRange(line, 0, index);
      var vS, vE := TrimRange(line, index + 1, |line|);
      assert line[0..index] == line[..index] && line[index + 1..|line|] == line[index + 1..];
      slot := Some(Slot(nS, nE, vS, vE));
  }

  lemma IntactRelaxed(w: seq<byte>, raw: seq<byte>, m: Marks, limit: int, unread: int, limit': int, unread': int)
    requires Intact(w, raw, m, limit, unread)
    requires limit <= limit' <= |raw| && unread <= unread' <= |raw|
    ensures Intact(w, raw, m, limit', unread')
  {
  }

  // ---------------------------------------------------------------- the object

  class HTTPParser {
    /** The offsets recorded for the current request (requestLine, verb, path, host, headers). */
    var marks: Marks
    var contentsStart: int
    var contentsEnd: int

    var buffer: array<byte>
    var bufferSize: int
    var bufferBegin: int
    var bufferEnd: int
    var bufferProcessed: int
    var currContentLength: int
    var malformed: bool
    var state: Phase

    /** The current request and what follows it: as received, and as the buffer now holds it. */
    ghost var raw: seq<byte>
    ghost var window: seq<byte>

    ghost predicate Cursors()
      reads this`bufferBegin, this`bufferProcessed, this`bufferEnd, this`bufferSize, this`buffer, this`raw, this`window
      reads buffer
    {
      && 0 <= bufferBegin <= bufferProcessed <= bufferEnd <= bufferSize == buffer.Length
      && 0 < bufferSize
      && window == buffer[bufferBegin..bufferEnd]
      && |raw| == |window|
    }

    ghost function HeadNow(): Head
      reads this`raw, this`marks, this`currContentLength, this`malformed
    {
      HeadIn(raw, marks, currContentLength, malformed)
    }

    ghost function CursorNow(): Cursor
      requires bufferBegin <= bufferProcessed
      reads this
    {
      Cursor(bufferProcessed - bufferBegin, HeadNow(), state)
    }

    ghost predicate Valid()
      reads this, buffer
    {
      Cursors() && Intact(window, raw, marks, bufferProcessed - bufferBegin, bufferProcessed - bufferBegin)
    }

    constructor ()
      ensures Valid() && raw == [] && CursorNow() == START
      ensures fresh(buffer) && bufferSize == 4096
    {
      bufferSize := 4096;
      buffer := new byte[4096];
      new;
      Reset();
    }

    method Reset()
      requires 0 < bufferSize == buffer.Length
      modifies this
      ensures Valid() && Open() && raw == [] && CursorNow() == START
      ensures buffer == old(buffer) && bufferSize == old(bufferSize)
    {
      bufferBegin, bufferEnd, bufferProcessed := 0, 0, 0;
      raw, window := [], [];
      state := ReadHeaders;
      ClearRequest();
    }

    method ClearRequest()
      requires Cursors() && forall i :: bufferProcessed - bufferBegin <= i < |raw| ==> window[i] == raw[i]
      modifies this
      ensures Valid() && buffer == old(buffer) && bufferSize == old(bufferSize)
      ensures raw == old(raw[bufferProcessed - bufferBegin..])
      ensures CursorNow() == Cursor(0, EMPTY_HEAD, old(state))
      ensures contentsStart == contentsEnd == -1
    {
      hide *;
      Unread();
      currContentLength := 0;
      marks := NO_MARKS;
      contentsStart, contentsEnd := -1, -1;
      raw := raw[bufferProcessed - bufferBegin..];
      window := window[bufferProcessed - bufferBegin..];
      bufferBegin := bufferProcessed;
      malformed := false;
      NewRequest();
    }

    lemma Unread()
      requires Cursors() && forall i :: bufferProcessed - bufferBegin <= i < |raw| ==> window[i] == raw[i]
      ensures 0 <= bufferBegin <= bufferProcessed <= bufferEnd <= bufferSize == buffer.Length && 0 < bufferSize
      ensures |raw| == |window| == bufferEnd - bufferBegin
      ensures var u := bufferProcessed - bufferBegin;
              raw[u..] == window[u..] == buffer[bufferProcessed..bufferEnd]
    {
    }

    lemma NewRequest()
      requires 0 <= bufferBegin == bufferProcessed <= bufferEnd <= bufferSize == buffer.Length && 0 < bufferSize
      requires raw == window == buffer[bufferBegin..bufferEnd]
      requires marks == NO_MARKS && currContentLength == 0 && !malformed
      ensures Valid() && CursorNow() == Cursor(0, EMPTY_HEAD, state)
    {
      hide Intact, HeadIn;
      NothingRecorded(window, raw);
    }

    /** Make room for more bytes: returns where to put them and how many fit. */
    method BeginAddData() returns (at: int, room: int)
      requires Valid()
      modifies this`buffer, this`bufferSize, this`bufferBegin, this`bufferProcessed, this`bufferEnd, buffer
      ensures Valid() && raw == old(raw) && CursorNow() == old(CursorNow()) && window == old(window)
      ensures buffer == old(buffer) || fresh(buffer)
      ensures at == bufferEnd && room == bufferSize - bufferEnd && bufferBegin == 0
      ensures 2 * room >= bufferSize
      ensures bufferSize == if 2 * |raw| > old(bufferSize) then 2 * old(bufferSize) else old(bufferSize)
    {
      hide *;
      ValidParts();
      var curRequestSize := bufferEnd - bufferBegin;
      if curRequestSize <= 0 {
        bufferEnd, bufferBegin, bufferProcessed := 0, 0, 0;
      } else {
        MoveToFront(curRequestSize);
        bufferProcessed := bufferProcessed - bufferBegin;
        bufferBegin := 0;
        bufferEnd := curRequestSize;
      }
      at, room := bufferEnd, bufferSize - bufferEnd;
      ValidAtFront();
    }

    /** Bring the current request to the front of the buffer, or of one twice the size. */
    method MoveToFront(n: nat)
      requires 0 <= bufferBegin && 0 < n && bufferBegin + n <= bufferSize == buffer.Length
      modifies this`buffer, this`bufferSize, buffer
      ensures buffer == old(buffer) || fresh(buffer)
      ensures bufferSize == buffer.Length == if 2 * n > old(bufferSize) then 2 * old(bufferSize) else old(bufferSize)
      ensures buffer[..n] == old(buffer[bufferBegin..bufferBegin + n])
    {
      if n * 2 > bufferSize {
        Upsize(n);
      } else if bufferBegin > 0 {
        MemMove(buffer, buffer, bufferBegin, n);
      }
    }

    lemma ValidParts()
      requires Valid()
      ensures 0 <= bufferBegin <= bufferProcessed <= bufferEnd <= bufferSize == buffer.Length && 0 < bufferSize
      ensures window == buffer[bufferBegin..bufferEnd] && |raw| == |window|
      ensures Intact(window, raw, marks, bufferProcessed - bufferBegin, bufferProcessed - bufferBegin)
      ensures CursorNow()
              == Cursor(bufferProcessed - bufferBegin, HeadIn(raw, marks, currContentLength, malformed), state)
    {
    }

    lemma ValidAtFront()
      requires bufferBegin == 0 <= bufferProcessed <= bufferEnd <= bufferSize == buffer.Length && 0 < bufferSize
      requires window == buffer[..bufferEnd] && |raw| == |window|
      requires Intact(window, raw, marks, bufferProcessed, bufferProcessed)
      ensures Valid() && CursorNow() == Cursor(bufferProcessed, HeadIn(raw, marks, currContentLength, malformed), state)
    {
    }

    /** Twice the buffer, with the current request copied to its front. */
    method Upsize(n: nat)
      requires 0 <= bufferBegin && bufferBegin + n <= bufferSize == buffer.Length
      modifies this`buffer, this`bufferSize
      ensures fresh(buffer) && bufferSize == buffer.Length == 2 * old(bufferSize)
      ensures buffer[..n] == old(buffer[bufferBegin..bufferBegin + n])
    {
      var oldBuf := buffer;
      bufferSize := bufferSize * 2;
      buffer := new byte[bufferSize];
      MemMove(buffer, oldBuf, bufferBegin, n);
    }

    /** Place newly read bytes into view. */
    method EndAddData(len: nat)
      requires Valid() && bufferEnd + len <= bufferSize
      modifies this`bufferEnd, this`raw, this`window
      ensures Valid()
      ensures raw == old(raw) + buffer[old(bufferEnd)..old(bufferEnd) + len]
      ensures CursorNow() == old(CursorNow())
    {
      ghost var chunk := buffer[bufferEnd..bufferEnd + len];
      IntactGrows(window, raw, marks, bufferProcessed - bufferBegin, bufferProcessed - bufferBegin, chunk);
      raw, window := raw + chunk, window + chunk;
      bufferEnd := bufferEnd + len;
      assert window == buffer[bufferBegin..bufferEnd];
    }

    // -------------------------------------------------------------- reading

    /** Record the line [begin, end). Nothing moves, and at most one byte changes: `patch`, which is neither
        part of a recorded slice nor still to be read. */
    method AddHeader(begin: nat, end: nat) returns (ghost patch: Option<nat>)
      requires Valid() && begin == bufferProcessed && begin <= end && end + 2 <= bufferEnd
      modifies this`marks, this`malformed, this`currContentLength, this`window, buffer
      ensures Cursors() && Intact(window, raw, marks, end - bufferBegin, end + 1 - bufferBegin)
      ensures HeadNow() == AddLine(old(HeadNow()), raw[begin - bufferBegin..end - bufferBegin])
      ensures patch.Some? ==> begin < patch.value <= end
      ensures buffer[..] == if patch.Some? then old(buffer[..])[patch.value := 0] else old(buffer[..])
    {
      hide Intact, AddField, AddRequestLine, HeadIn, Valid, Cursors, CursorNow, HeadNow;
      CursorsHold();
      patch := None;
      if marks.lineS == -1 {
        RecordRequestLine(begin, end);
      } else {
        patch := RecordFieldLine(begin, end);
      }
    }

    /** The first line: verb and path up to its second space. */
    method RecordRequestLine(begin: nat, end: nat)
      requires Valid() && begin == bufferProcessed && begin <= end && end + 2 <= bufferEnd && marks.lineS == -1
      modifies this`marks, this`malformed
      ensures Cursors() && Intact(window, raw, marks, end - bufferBegin, end + 1 - bufferBegin)
      ensures HeadNow() == AddRequestLine(old(HeadNow()), raw[begin - bufferBegin..end - bufferBegin])
    {
      hide *;
      ValidParts();
      CursorsHold();
      var line := buffer[begin..end];
      var b := begin - bufferBegin;
      ghost var e := end - bufferBegin;
      LineAsReceived(begin, end);
      RequestLineStep(window, raw, marks, b, e);
      RequestLineHead(raw, marks, currContentLength, malformed, b, e);
      var (m, ok) := RequestLineMarks(line, marks, b);
      IntactRelaxed(window, raw, m, e, b, e, e + 1);
      marks, malformed := m, malformed || !ok;
      HeadNowIs();
    }

    /** Any further line: a field, or malformed without a colon. */
    method RecordFieldLine(begin: nat, end: nat) returns (ghost patch: Option<nat>)
      requires Valid() && begin == bufferProcessed && begin <= end && end + 2 <= bufferEnd
      modifies this`marks, this`malformed, this`currContentLength, this`window, buffer
      ensures Cursors() && Intact(window, raw, marks, end - bufferBegin, end + 1 - bufferBegin)
      ensures HeadNow() == AddField(old(HeadNow()), raw[begin - bufferBegin..end - bufferBegin])
      ensures patch.Some? ==> begin < patch.value <= end
      ensures buffer[..] == if patch.Some? then old(buffer[..])[patch.value := 0] else old(buffer[..])
    {
      hide *;
      ValidParts();
      CursorsHold();
      patch := None;
      var line := buffer[begin..end];
      ghost var b, e := begin - bufferBegin, end - bufferBegin;
      LineAsReceived(begin, end);
      var slot := SplitField(line);
      match slot
      case None =>
        NoColonHead(raw, marks, currContentLength, malformed, line);
        IntactRelaxed(window, raw, marks, b, b, e, e + 1);
        malformed := true;
        HeadNowIs();
      case Some(g) =>
        SplitIsInLine(line, g);
        AddFieldIs(HeadNow(), line, g);
        patch := RecordField(begin, end, g);
    }

    /** A field line with its colon found: act on the two names the parser knows, and record the slices. */
    method RecordField(begin: nat, end: nat, g: Slot) returns (ghost patch: Option<nat>)
      requires Valid() && begin == bufferProcessed && begin <= end && end + 2 <= bufferEnd
      requires 0 <= g.nS <= g.nE < g.vS <= g.vE <= end - begin
      modifies this`marks, this`currContentLength, this`window, buffer
      ensures Cursors() && Intact(window, raw, marks, end - bufferBegin, end + 1 - bufferBegin)
      ensures HeadNow() == (var line := old(buffer[begin..end]);
                            WithField(old(HeadNow()), line[g.nS..g.nE], line[g.vS..g.vE]))
      ensures patch.Some? ==> begin < patch.value <= end
      ensures buffer[..] == if patch.Some? then old(buffer[..])[patch.value := 0] else old(buffer[..])
    {
      hide *;
      ValidParts();
      CursorsHold();
      var line := buffer[begin..end];
      LineAsReceived(begin, end);
      FieldStep(window, raw, marks, currContentLength, malformed, begin - bufferBegin, end - bufferBegin, g);
      var isLength := CiEqual(line[g.nS..g.nE], Ascii("content-length"));
      var isHost := CiEqual(line[g.nS..g.nE], Ascii("host"));
      SubSlice(buffer[..], begin, end, g.vS, g.vE);
      patch := Convert(begin + g.vS, begin + g.vE, isLength);
      marks := FieldMarks(marks, At(g, begin - bufferBegin), isHost);
      HeadNowIs();
    }

    /** Convert a Content-Length in place. */
    method Convert(vS: nat, vE: nat, isLength: bool) returns (ghost patch: Option<nat>)
      requires Cursors() && bufferBegin <= vS <= vE < bufferEnd
      modifies this`currContentLength, this`window, buffer
      ensures Cursors() && patch == if isLength then Some(vE) else None
      ensures window == if isLength then old(window)[vE - bufferBegin := 0] else old(window)
      ensures currContentLength == if isLength then Atoi(old(buffer[vS..vE])) else old(currContentLength)
      ensures buffer[..] == if isLength then old(buffer[..])[vE := 0] else old(buffer[..])
    {
      hide Atoi;
      patch := None;
      if isLength {
        patch := Some(vE);
        currContentLength := PatchAndConvert(vS, vE);
      }
    }

    lemma CursorsHold()
      requires Valid()
      ensures Cursors()
      ensures HeadNow() == HeadIn(raw, marks, currContentLength, malformed)
    {
    }

    lemma HeadNowIs()
      ensures HeadNow() == HeadIn(raw, marks, currContentLength, malformed)
    {
    }

    lemma UnreadIntact()
      requires Valid()
      ensures forall i :: bufferProcessed - bufferBegin <= i < |raw| ==> window[i] == raw[i]
    {
    }

    lemma LineAsReceived(begin: int, end: int)
      requires Valid() && bufferProcessed <= begin <= end <= bufferEnd
      ensures buffer[begin..end] == raw[begin - bufferBegin..end - bufferBegin]
              == window[begin - bufferBegin..end - bufferBegin]
    {
      var b, e := begin - bufferBegin, end - bufferBegin;
      UnreadIntact();
      SubSlice(buffer[..], bufferBegin, bufferEnd, b, e);
      hide Intact;
      assert raw[b..e] == window[b..e];
    }

    /** End the value by a NUL in place and give it to atoi, which reads to the first NUL it meets. */
    method PatchAndConvert(vS: nat, vE: nat) returns (n: int)
      requires Cursors() && bufferBegin <= vS <= vE < bufferEnd
      modifies this`window, buffer
      ensures Cursors() && window == old(window)[vE - bufferBegin := 0]
      ensures n == Atoi(old(buffer[vS..vE]))
      ensures buffer[..] == old(buffer[..])[vE := 0]
    {
      ghost var value := buffer[vS..vE];
      buffer[vE] := 0;
      window := window[vE - bufferBegin := 0];
      AtoiStopsAtNul(value, buffer[vE + 1..]);
      assert buffer[vS..] == value + [0] + buffer[vE + 1..];
      n := Atoi(buffer[vS..]);
    }

    /** The body of the request just completed; empty when none was recorded. */
    function Contents(): seq<byte>
      requires contentsStart < contentsEnd ==> 0 <= contentsStart && contentsEnd <= buffer.Length
      reads this`contentsStart, this`contentsEnd, this`buffer, buffer
    {
      if contentsEnd <= contentsStart then [] else buffer[contentsStart..contentsEnd]
    }

    /** No body has been recorded since the last clearRequest. */
    predicate Open()
      reads this`contentsStart, this`contentsEnd
    {
      contentsStart == contentsEnd == -1
    }

    /** The object is what the specification's step says, for a step that started at cursor `c`. */
    ghost predicate Reached(step: Step, done: bool)
      requires Valid()
      reads this, buffer
    {
      && done == step.Done?
      && CursorNow() == step.c
      && (contentsStart < contentsEnd ==> 0 <= contentsStart && contentsEnd <= buffer.Length)
      && (if done then Contents() == step.body else Open())
    }

    /** Look for a usable request in the buffer. */
    method ReadRequest() returns (r: bool)
      requires Valid() && Open()
      modifies this`marks, this`malformed, this`currContentLength, this`window, this`bufferProcessed, this`state,
               this`contentsStart, this`contentsEnd, buffer
      ensures Valid() && Reached(Read(raw, old(CursorNow())), r)
    {
      hide Intact, HeadIn, AddLine, EndOfHeaders, ReadBody;
      var curRequestSize := bufferEnd - bufferBegin;
      if curRequestSize >= MAXREQUESTSIZE {
        SetMalformed();
        r := true;
      } else if state == ReadHeaders {
        r := ReadLines();
      } else {
        r := ReadContents();
      }
    }

    /** The READHEADERS half of readRequest: line after line until the empty one. */
    method ReadLines() returns (r: bool)
      requires Valid() && Open() && state == ReadHeaders
      modifies this`marks, this`malformed, this`currContentLength, this`window, this`bufferProcessed, this`state,
               this`contentsStart, this`contentsEnd, buffer
      ensures Valid() && Reached(Advance(raw, old(CursorNow())), r)
    {
      hide *;
      InRange();
      ghost var c0 := CursorNow();
      while bufferProcessed < bufferEnd
        invariant Valid() && Open() && state == ReadHeaders
        invariant bufferBegin <= bufferProcessed <= bufferEnd && CursorNow().pos <= |raw|
        invariant Advance(raw, CursorNow()) == Advance(raw, c0)
        decreases bufferEnd - bufferProcessed
      {
        InRange();
        var found := FindNextCRLF();
        AdvanceAt(found);
        if found.None? { return false; }
        var index := found.value;
        if bufferProcessed == index {
          SkipTo(index + 2);
          r := HeadersDone();
          return r;
        }
        ReadLine(index);
        InRange();
      }
      InRange();
      AllRead();
      r := false;
    }

    lemma InRange()
      requires Valid()
      ensures 0 <= bufferBegin <= bufferProcessed <= bufferEnd <= buffer.Length && |raw| == bufferEnd - bufferBegin
      ensures CursorNow().pos == bufferProcessed - bufferBegin && CursorNow().phase == state
    {
    }

    /** One turn of the loop, as the specification has it. */
    lemma AdvanceAt(found: Option<nat>)
      requires Valid() && Open() && state == ReadHeaders && CursorNow().pos <= |raw|
      requires match FindCRLF(raw, bufferProcessed - bufferBegin)
               case None => found == None
               case Some(i) => found == Some(bufferBegin + i)
      ensures found.None? ==> Reached(Advance(raw, CursorNow()), false)
      ensures found.Some? ==>
        var i := found.value - bufferBegin;
        && bufferProcessed <= found.value && found.value + 2 <= bufferEnd
        && Advance(raw, CursorNow())
           == if found.value == bufferProcessed then EndOfHeaders(raw, CursorNow().(pos := i + 2))
              else Advance(raw, NextLine(raw, CursorNow(), i))
    {
      hide Intact, HeadIn, NextLine, EndOfHeaders;
    }

    lemma AllRead()
      requires Valid() && Open() && state == ReadHeaders && bufferProcessed == bufferEnd && CursorNow().pos <= |raw|
      ensures Reached(Advance(raw, CursorNow()), false)
    {
      hide Intact, HeadIn;
    }

    /** Bytes up to `to` are processed. */
    method SkipTo(to: nat)
      requires Valid() && bufferProcessed <= to <= bufferEnd
      modifies this`bufferProcessed
      ensures Valid() && CursorNow() == old(CursorNow()).(pos := to - bufferBegin)
    {
      hide Intact, HeadIn;
      IntactRelaxed(window, raw, marks, bufferProcessed - bufferBegin, bufferProcessed - bufferBegin,
                    to - bufferBegin, to - bufferBegin);
      bufferProcessed := to;
    }

    /** Record the line that ends at `index` and skip past its CR LF. */
    method ReadLine(index: nat)
      requires Valid() && bufferProcessed < index && index + 2 <= bufferEnd
      modifies this`marks, this`malformed, this`currContentLength, this`window, this`bufferProcessed, buffer
      ensures Valid() && CursorNow() == NextLine(raw, old(CursorNow()), index - bufferBegin)
      ensures bufferProcessed == index + 2
    {
      hide Intact, HeadIn, AddLine;
      var patch := AddHeader(bufferProcessed, index);
      IntactRelaxed(window, raw, marks, index - bufferBegin, index + 1 - bufferBegin,
                    index + 2 - bufferBegin, index + 2 - bufferBegin);
      bufferProcessed := index + 2;
    }

    method SetMalformed()
      requires Valid()
      modifies this`malformed
      ensures Valid() && CursorNow() == Malformed(old(CursorNow()))
    {
      hide Intact;
      malformed := true;
    }

    /** The next CR LF pair among the bytes not yet processed. */
    method FindNextCRLF() returns (index: Option<nat>)
      requires Valid()
      ensures match FindCRLF(raw, bufferProcessed - bufferBegin)
              case None => index == None
              case Some(i) => index == Some(bufferBegin + i)
    {
      LineAsReceived(bufferProcessed, bufferEnd);
      var unread := buffer[bufferProcessed..bufferEnd];
      assert unread[0..] == raw[bufferProcessed - bufferBegin..];
      FindCRLFMoves(unread, 0, raw, bufferProcessed - bufferBegin);
      match FindCRLF(unread, 0)
      case None => index := None;
      case Some(i) => index := Some(bufferProcessed + i);
    }

    /** The empty line has been consumed. */
    method HeadersDone() returns (r: bool)
      requires Valid() && Open() && state == ReadHeaders
      modifies this`malformed, this`bufferProcessed, this`state, this`contentsStart, this`contentsEnd
      ensures Valid() && Reached(EndOfHeaders(raw, old(CursorNow())), r)
    {
      hide Intact;
      if marks.lineS == -1 {
        SetMalformed();
        return true;
      }
      var isGet := CiEqual(Verb(), Ascii("get"));
      if isGet || currContentLength == 0 { return true; }
      state := ReadContent;
      r := ReadContents();
    }

    /** A recorded slice as the accessors return it: cut out of the buffer. It reads what was received there. */
    function View(s: int, e: int): (v: seq<byte>)
      requires Valid() && Recorded(window, raw, s, e, |raw|)
      reads this, buffer
      ensures v == Text(raw, s, e)
    {
      hide Intact;
      if e <= s then []
      else
        SubSlice(buffer[..], bufferBegin, bufferEnd, s, e);
        buffer[bufferBegin + s..bufferBegin + e]
    }

    function Verb(): (v: seq<byte>)
      requires Valid()
      reads this, buffer
      ensures v == HeadNow().verb
    {
      View(marks.verbS, marks.verbE)
    }

    function Path(): (v: seq<byte>)
      requires Valid()
      reads this, buffer
      ensures v == HeadNow().path
    {
      View(marks.pathS, marks.pathE)
    }

    function Host(): (v: seq<byte>)
      requires Valid()
      reads this, buffer
      ensures v == HeadNow().host
    {
      View(marks.hostS, marks.hostE)
    }

    function Header(h: Slot): (f: Field)
      requires Valid() && h in marks.headers
      reads this, buffer
      ensures f == Field(Text(raw, h.nS, h.nE), Text(raw, h.vS, h.vE))
    {
      Field(View(h.nS, h.nE), View(h.vS, h.vE))
    }

    /** copyRequest: the finished request, every part cut out of the buffer. */
    method CopyRequest() returns (r: Request)
      requires Valid()
      requires contentsStart < contentsEnd ==> 0 <= contentsStart && contentsEnd <= buffer.Length
      ensures r == RequestOf(HeadNow(), Contents())
    {
      hide Intact, Text;
      var fields := [];
      for i := 0 to |marks.headers|
        invariant fields == FieldsIn(raw, marks.headers[..i])
      {
        fields := fields + [Header(marks.headers[i])];
        assert marks.headers[..i + 1] == marks.headers[..i] + [marks.headers[i]];
        FieldsInAppend(raw, marks.headers[..i], marks.headers[i]);
      }
      assert marks.headers[..|marks.headers|] == marks.headers;
      r := Request(Verb(), Path(), Host(), fields, Contents(), malformed);
    }

    method ReadContents() returns (r: bool)
      requires Valid() && Open() && state == ReadContent
      modifies this`malformed, this`bufferProcessed, this`state, this`contentsStart, this`contentsEnd
      ensures Valid() && Reached(ReadBody(raw, old(CursorNow())), r)
    {
      LengthNow();
      hide Intact, HeadIn;
      var contentsRead := bufferEnd - bufferProcessed;
      if currContentLength < 0 || currContentLength > MAXREQUESTSIZE {
        SetMalformed();
        return true;
      }
      if contentsRead >= currContentLength {
        TakeContents();
        return true;
      }
      return false;
    }

    lemma LengthNow()
      ensures HeadNow().length == currContentLength
    {
    }

    method TakeContents()
      requires Valid() && 0 <= currContentLength <= bufferEnd - bufferProcessed
      modifies this`bufferProcessed, this`state, this`contentsStart, this`contentsEnd
      ensures Valid() && 0 <= contentsStart <= contentsEnd <= buffer.Length
      ensures var c := old(CursorNow());
              && CursorNow() == c.(pos := c.pos + currContentLength, phase := ReadHeaders)
              && c.pos + currContentLength <= |raw| && Contents() == raw[c.pos..c.pos + currContentLength]
    {
      hide Intact, HeadIn;
      LineAsReceived(bufferProcessed, bufferProcessed + currContentLength);
      contentsStart := bufferProcessed;
      contentsEnd := bufferProcessed + currContentLength;
      SkipTo(contentsEnd);
      state := ReadHeaders;
    }
  }
}
