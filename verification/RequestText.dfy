/** What the bytes of a request say, in literal bytes: a text built from its parts is read back part by part. */
module RequestText {
  import opened Bytes
  import opened HttpReference
  import opened HttpSpec
  import Response
  import Session

  // ---------------------------------------------------------------- texts

  /** No CR LF pair inside. */
  predicate OneLine(s: seq<byte>) { forall i :: 0 <= i < |s| - 1 ==> s[i] != 13 || s[i + 1] != 10 }

  /** Spaces and the bytes 9 to 13. */
  predicate Blank(s: seq<byte>) { forall i :: 0 <= i < |s| ==> s[i] == 32 || 9 <= s[i] <= 13 }

  predicate Trimmed(s: seq<byte>) { s == [] || (!Blank([s[0]]) && !Blank([s[|s| - 1]])) }

  /** A header line: name and value, with blanks around both. */
  datatype Header = Header(before: seq<byte>, name: seq<byte>, between: seq<byte>, after: seq<byte>, value: seq<byte>,
                           behind: seq<byte>)

  function HeaderLine(h: Header): seq<byte> {
    h.before + h.name + h.between + [58] + (h.after + h.value + h.behind)
  }

  predicate GoodHeader(h: Header) {
    && Blank(h.before) && Blank(h.between) && Blank(h.after) && Blank(h.behind)
    && Trimmed(h.name) && Trimmed(h.value) && 58 !in h.name && OneLine(HeaderLine(h))
  }

  datatype Draft = Draft(verb: seq<byte>, path: seq<byte>, version: seq<byte>, headers: seq<Header>)

  function FirstLine(d: Draft): seq<byte> { d.verb + [32] + (d.path + [32] + d.version) }

  predicate GoodDraft(d: Draft) {
    && 32 !in d.verb && 32 !in d.path && OneLine(FirstLine(d))
    && forall h :: h in d.headers ==> GoodHeader(h)
  }

  function LinesIn(headers: seq<Header>): (lines: seq<seq<byte>>)
    ensures |lines| == |headers| && forall i :: 0 <= i < |lines| ==> lines[i] == HeaderLine(headers[i])
  {
    if headers == [] then [] else LinesIn(headers[..|headers| - 1]) + [HeaderLine(headers[|headers| - 1])]
  }

  function FieldsIn(headers: seq<Header>): (fields: seq<Field>)
    ensures |fields| == |headers|
    ensures forall i :: 0 <= i < |fields| ==> fields[i] == Field(headers[i].name, headers[i].value)
  {
    if headers == [] then []
    else
      var h := headers[|headers| - 1];
      FieldsIn(headers[..|headers| - 1]) + [Field(h.name, h.value)]
  }

  function AllLines(lines: seq<seq<byte>>): seq<byte> {
    if lines == [] then [] else AllLines(lines[..|lines| - 1]) + lines[|lines| - 1] + [13, 10]
  }

  /** Everything up to the body. */
  function HeadText(d: Draft): seq<byte> { AllLines([FirstLine(d)] + LinesIn(d.headers)) + [13, 10] }

  // ---------------------------------------------------------------- lines

  predicate GoodLines(lines: seq<seq<byte>>) { forall l :: l in lines ==> l != [] && OneLine(l) }

  lemma OneLineHasNoPair(s: seq<byte>)
    requires OneLine(s)
    ensures forall j :: !CrlfAt(s, j)
  {
  }

  lemma {:induction false} AllLinesAre(lines: seq<seq<byte>>)
    requires GoodLines(lines)
    ensures Block(AllLines(lines)) && Lines(AllLines(lines)) == lines
    decreases |lines|
  {
    if lines != [] {
      var before, line := lines[..|lines| - 1], lines[|lines| - 1];
      assert line in lines && forall l :: l in before ==> l in lines;
      OneLineHasNoPair(line);
      AllLinesAre(before);
      hide Lines, Block, OneLine;
      LinesAppend(AllLines(before), line);
      EndsInPair(AllLines(before) + line);
      assert lines == before + [line];
    }
  }

  lemma EndsInPair(s: seq<byte>)
    ensures Block(s + [13, 10])
  {
  }

  /** No empty line among lines that are not empty. */
  lemma {:induction false} NoBlankLine(s: seq<byte>, lines: seq<seq<byte>>)
    requires GoodLines(lines) && AllLines(lines) <= s
    ensures var n := |AllLines(lines)|; (n == 0 || CrlfAt(s, n - 2)) && forall j :: 0 <= j < n ==> !BlankAt(s, j)
    decreases |lines|
  {
    if lines != [] {
      var before, line := lines[..|lines| - 1], lines[|lines| - 1];
      assert line in lines && forall l :: l in before ==> l in lines;
      var pos := |AllLines(before)|;
      assert AllLines(lines) == AllLines(before) + line + [13, 10];
      LineInPlace(s, AllLines(before), line);
      NoBlankLine(s, before);
      hide GoodLines, OneLine, BlankAt, CrlfAt, AllLines;
      NoBlankInLine(s, pos, pos + |line|);
    }
  }

  lemma LineInPlace(s: seq<byte>, before: seq<byte>, line: seq<byte>)
    requires before + line + [13, 10] <= s && OneLine(line)
    ensures before <= s && CrlfAt(s, |before| + |line|)
    ensures forall j :: |before| <= j < |before| + |line| ==> !CrlfAt(s, j)
  {
    var i := |before| + |line|;
    assert s[i] == (before + line + [13, 10])[i] && s[i + 1] == (before + line + [13, 10])[i + 1];
    forall j | |before| <= j < i ensures !CrlfAt(s, j) {
      assert s[j] == line[j - |before|];
      if j + 1 < i { assert s[j + 1] == line[j + 1 - |before|]; }
    }
  }

  /** Whole lines and an empty one are a header block, whatever follows. */
  lemma BlockReads(lines: seq<seq<byte>>, rest: seq<byte>)
    requires GoodLines(lines)
    ensures var e := |AllLines(lines)|;
            var s := AllLines(lines) + [13, 10] + rest;
            OneShot(s) == OneShotBody(s, HeadOf(lines), e)
  {
    var s, e := AllLines(lines) + [13, 10] + rest, |AllLines(lines)|;
    NoBlankLine(s, lines);
    AllLinesAre(lines);
    hide *;
    assert s[..e] == AllLines(lines) && s[e] == 13 && s[e + 1] == 10;
    FirstBlank(s, e);
  }

  lemma FirstBlank(s: seq<byte>, e: nat)
    requires e + 1 < |s| && s[e] == 13 && s[e + 1] == 10 && (e == 0 || CrlfAt(s, e - 2))
    requires forall j :: 0 <= j < e ==> !BlankAt(s, j)
    ensures OneShot(s) == OneShotBody(s, HeadOf(Lines(s[..e])), e)
  {
    assert BlankAt(s, e);
    hide *;
    FoundBlank(s, e);
    OneShotAt(s, e);
  }

  lemma FoundBlank(s: seq<byte>, e: nat)
    requires e + 1 < |s| && BlankAt(s, e) && forall j :: 0 <= j < e ==> !BlankAt(s, j)
    ensures FindBlank(s, 0) == Some(e)
  {
    hide *;
  }

  lemma OneShotAt(s: seq<byte>, e: nat)
    requires e + 2 <= |s| && FindBlank(s, 0) == Some(e)
    ensures OneShot(s) == OneShotBody(s, HeadOf(Lines(s[..e])), e)
  {
    hide FindBlank, Lines, HeadOf, OneShotBody;
  }

  // ---------------------------------------------------------------- the parts of a line

  lemma {:induction false} TrimBlanks(p: seq<byte>, s: seq<byte>, q: seq<byte>)
    requires Blank(p) && Blank(q) && Trimmed(s)
    ensures Trim(p + s + q) == s
    decreases |p|
  {
    if p == [] {
      assert p + s + q == s + q;
      TrimBehind(s, q);
    } else {
      FirstBlankOf(p);
      hide *;
      TrimBlanks(p[1..], s, q);
      BlankInFront(p[0], p[1..] + s + q);
      Associative([p[0]], p[1..], s);
      Associative([p[0]], p[1..] + s, q);
      assert p == [p[0]] + p[1..];
    }
  }

  lemma FirstBlankOf(p: seq<byte>)
    requires Blank(p) && p != []
    ensures Blank([p[0]]) && Blank(p[1..])
  {
  }

  lemma BlankInFront(b: byte, t: seq<byte>)
    requires Blank([b])
    ensures Trim([b] + t) == Trim(t)
  {
    assert [b][0] == b && ([b] + t)[1..] == t;
  }

  lemma {:induction false} TrimBehind(s: seq<byte>, q: seq<byte>)
    requires Blank(q) && Trimmed(s)
    ensures Trim(s + q) == s
    decreases |q|
  {
    if s == [] {
      assert s + q == q;
      AllBlank(q);
    } else if q == [] {
      assert s + q == s;
      NotBlank(s);
    } else {
      var n := |q| - 1;
      NotBlank(s);
      TrimBehind(s, q[..n]);
      BlankBehind(s + q[..n], q[n]);
      assert s + q == s + q[..n] + [q[n]];
    }
  }

  lemma BlankBehind(t: seq<byte>, b: byte)
    requires Blank([b]) && t != [] && !IsSpace(t[0])
    ensures Trim(t + [b]) == Trim(t)
  {
    assert [b][0] == b && (t + [b])[..|t|] == t && (t + [b])[0] == t[0];
  }

  lemma NotBlank(s: seq<byte>)
    requires s != [] && Trimmed(s)
    ensures !IsSpace(s[0]) && !IsSpace(s[|s| - 1])
  {
    assert [s[0]][0] == s[0] && [s[|s| - 1]][0] == s[|s| - 1];
  }

  lemma {:induction false} AllBlank(s: seq<byte>)
    requires Blank(s)
    ensures Trim(s) == []
    decreases |s|
  {
    if s != [] { AllBlank(s[1..]); }
  }

  lemma HeaderReads(h: Header)
    requires GoodHeader(h)
    ensures 58 in HeaderLine(h) && FieldOf(HeaderLine(h)) == Field(h.name, h.value)
  {
    var line, left, right := HeaderLine(h), h.before + h.name + h.between, h.after + h.value + h.behind;
    forall j | 0 <= j < |left| ensures left[j] != 58 {
      var k := j - |h.before| - |h.name|;
      assert j >= |h.before| && k < 0 ==> left[j] == h.name[j - |h.before|] && left[j] in h.name;
      assert k >= 0 ==> left[j] == h.between[k];
    }
    assert line == left + [58] + right && line[|left|] == 58;
    assert forall j :: 0 <= j < |left| ==> line[j] == left[j];
    FindCharIs(line, 0, 58, |left|);
    assert line[..|left|] == left && line[|left| + 1..] == right;
    TrimBlanks(h.before, h.name, h.between);
    TrimBlanks(h.after, h.value, h.behind);
    hide Trim, Blank, Trimmed, OneLine;
  }

  lemma {:induction false} HeadersRead(headers: seq<Header>)
    requires forall h :: h in headers ==> GoodHeader(h)
    ensures FieldsOf(LinesIn(headers)) == FieldsIn(headers) && forall l :: l in LinesIn(headers) ==> 58 in l
    decreases |headers|
  {
    if headers != [] {
      var n := |headers| - 1;
      assert headers[n] in headers && forall h :: h in headers[..n] ==> h in headers;
      HeaderReads(headers[n]);
      HeadersRead(headers[..n]);
      hide GoodHeader, FieldOf, HeaderLine;
      assert LinesIn(headers)[..n] == LinesIn(headers[..n]);
    }
  }

  lemma FirstLineReads(d: Draft)
    requires 32 !in d.verb && 32 !in d.path
    ensures var line := FirstLine(d); VerbOf(line) == d.verb && PathOf(line) == d.path && HasTwoSpaces(line)
  {
    var line, more := FirstLine(d), d.path + [32] + d.version;
    assert forall j :: 0 <= j < |d.verb| ==> line[j] == d.verb[j];
    assert forall j :: 0 <= j < |d.path| ==> more[j] == d.path[j];
    FindCharIs(line, 0, SPACE, |d.verb|);
    FindCharIs(more, 0, SPACE, |d.path|);
    assert line[..|d.verb|] == d.verb && line[|d.verb| + 1..] == more && more[..|d.path|] == d.path;
    assert line[|d.verb|] == 32 && more[|d.path|] == 32;
  }

  lemma {:induction false} LastValueIs(fields: seq<Field>, name: seq<byte>, value: seq<byte>)
    requires LastNamed(fields, name, value)
    ensures LastValue(fields, name) == value
    decreases |fields|
  {
    if fields != [] {
      var n := |fields| - 1;
      CasingIs(fields[n].name, name);
      hide Casing, CiEquals;
      if !Casing(fields[n].name, name) {
        assert LastNamed(fields[..n], name, value);
        LastValueIs(fields[..n], name, value);
      }
    }
  }

  // ---------------------------------------------------------------- a request is read as it was written

  /** The length announced, when it is that of this body: a body that is not announced is empty. */
  ghost predicate Announces(fields: seq<Field>, body: seq<byte>) {
    || LastNamed(fields, CONTENT_LENGTH, Response.Decimal(|body|))
    || (LastNamed(fields, CONTENT_LENGTH, []) && body == [])
  }

  /** A verb that is a casing of get: the request ends with its header block, whatever length it announces and whatever
      follows. */
  lemma GetReads(d: Draft, rest: seq<byte>, host: seq<byte>)
    requires GoodDraft(d) && Casing(d.verb, GET) && LastNamed(FieldsIn(d.headers), HOST, host)
    ensures OneShot(HeadText(d) + rest)
         == Complete(Request(d.verb, d.path, host, FieldsIn(d.headers), [], false), |HeadText(d)|)
  {
    hide *;
    var lines := [FirstLine(d)] + LinesIn(d.headers);
    DraftLines(d);
    HeadReads(d, host);
    TextParts(d, [], rest);
    BlockReads(lines, rest);
    CasingIs(d.verb, GET);
    assert HeadText(d) + [] + rest == HeadText(d) + rest && [] + rest == rest;
    NoBody(HeadText(d) + rest, HeadOf(lines), |AllLines(lines)|);
    NoMalformed(HeadOf(lines), []);
  }

  lemma NoBody(s: seq<byte>, head: Head, e: nat)
    requires e + 2 <= |s| && head.line.Some? && CiEquals(head.verb, GET)
    ensures OneShotBody(s, head, e) == Complete(RequestOf(head, []), e + 2)
  {
    Names();
    hide CiEquals, Ascii, RequestOf;
  }

  /** Every well-formed text with at most 8192 bytes of body is read part by part, whatever follows: a verb that is
      a casing of get has no body, every other verb exactly the announced one; the host is the last one named so. */
  lemma WrittenReads(d: Draft, body: seq<byte>, rest: seq<byte>, host: seq<byte>)
    requires GoodDraft(d) && |body| <= 8192 && Announces(FieldsIn(d.headers), body)
    requires LastNamed(FieldsIn(d.headers), HOST, host)
    ensures var text := HeadText(d);
            var got := if Casing(d.verb, GET) then [] else body;
            OneShot(text + body + rest)
            == Complete(Request(d.verb, d.path, host, FieldsIn(d.headers), got, false), |text| + |got|)
  {
    hide *;
    if Casing(d.verb, GET) {
      GetReads(d, body + rest, host);
      Associative(HeadText(d), body, rest);
    } else {
      var lines := [FirstLine(d)] + LinesIn(d.headers);
      DraftLines(d);
      HeadReads(d, host);
      AnnouncedLength(FieldsIn(d.headers), body);
      TextParts(d, body, rest);
      BlockReads(lines, body + rest);
      CasingIs(d.verb, GET);
      BodyReads(HeadText(d) + body + rest, HeadOf(lines), |AllLines(lines)|, body);
      NoMalformed(HeadOf(lines), body);
    }
  }

  lemma TextParts(d: Draft, body: seq<byte>, rest: seq<byte>)
    ensures var text, lines := HeadText(d), AllLines([FirstLine(d)] + LinesIn(d.headers));
            && text == lines + [13, 10] && |text| == |lines| + 2
            && text + body + rest == lines + [13, 10] + (body + rest)
            && (text + body + rest)[|text|..|text| + |body|] == body
  {
    hide AllLines, FirstLine, LinesIn;
  }

  lemma NoMalformed(h: Head, body: seq<byte>)
    ensures RequestOf(h, body) == Request(h.verb, h.path, h.host, h.fields, body, h.malformed)
  {
  }

  lemma BodyReads(s: seq<byte>, head: Head, e: nat, body: seq<byte>)
    requires e + 2 + |body| <= |s| && s[e + 2..e + 2 + |body|] == body
    requires head.line.Some? && head.length == |body| <= 8192
    ensures OneShotBody(s, head, e)
         == if CiEquals(head.verb, GET) || body == [] then Complete(RequestOf(head, []), e + 2)
            else Complete(RequestOf(head, body), e + 2 + |body|)
  {
    Names();
    hide CiEquals, Ascii, RequestOf;
  }

  lemma DraftLines(d: Draft)
    requires GoodDraft(d)
    ensures GoodLines([FirstLine(d)] + LinesIn(d.headers))
  {
    var lines := [FirstLine(d)] + LinesIn(d.headers);
    forall l | l in lines ensures l != [] && OneLine(l) {
      var i :| 0 <= i < |lines| && lines[i] == l;
      if i > 0 {
        assert l == HeaderLine(d.headers[i - 1]) && d.headers[i - 1] in d.headers;
        assert 58 in l by { HeaderReads(d.headers[i - 1]); }
      }
    }
  }

  lemma HeadReads(d: Draft, host: seq<byte>)
    requires GoodDraft(d) && LastNamed(FieldsIn(d.headers), HOST, host)
    ensures HeadOf([FirstLine(d)] + LinesIn(d.headers))
         == Head(Some(FirstLine(d)), d.verb, d.path, host, Atoi(LastValue(FieldsIn(d.headers), CONTENT_LENGTH)),
                 FieldsIn(d.headers), false)
  {
    hide *;
    GoodParts(d);
    FirstLineReads(d);
    HeadersRead(d.headers);
    LastValueIs(FieldsIn(d.headers), HOST, host);
    HeadOfLines(FirstLine(d), LinesIn(d.headers));
  }

  lemma GoodParts(d: Draft)
    requires GoodDraft(d)
    ensures 32 !in d.verb && 32 !in d.path && forall h :: h in d.headers ==> GoodHeader(h)
  {
  }

  lemma HeadOfLines(first: seq<byte>, lines: seq<seq<byte>>)
    requires HasTwoSpaces(first) && forall l :: l in lines ==> 58 in l
    ensures HeadOf([first] + lines)
         == Head(Some(first), VerbOf(first), PathOf(first), LastValue(FieldsOf(lines), HOST),
                 Atoi(LastValue(FieldsOf(lines), CONTENT_LENGTH)), FieldsOf(lines), false)
  {
    var all := [first] + lines;
    Names();
    assert all[1..] == lines;
    assert forall k :: 1 <= k < |all| ==> all[k] == lines[k - 1] && all[k] in lines;
    hide FieldsOf, LastValue, Ascii, HasTwoSpaces, VerbOf, PathOf, Atoi;
  }

  lemma AnnouncedLength(fields: seq<Field>, body: seq<byte>)
    requires Announces(fields, body)
    ensures Atoi(LastValue(fields, CONTENT_LENGTH)) == |body|
  {
    if LastNamed(fields, CONTENT_LENGTH, Response.Decimal(|body|)) {
      LastValueIs(fields, CONTENT_LENGTH, Response.Decimal(|body|));
      Response.AtoiDecimal(|body|);
    } else {
      LastValueIs(fields, CONTENT_LENGTH, []);
    }
  }

  /** atoi: blanks, a sign, the digits, and nothing behind them counts; without a digit it is 0. */
  lemma AtoiReads(blanks: seq<byte>, n: nat, tail: seq<byte>)
    requires Blank(blanks) && (tail == [] || tail[0] < 48 || 57 < tail[0])
    ensures Atoi(blanks + (Response.Decimal(n) + tail)) == n
    ensures Atoi(blanks + ([43] + (Response.Decimal(n) + tail))) == n
    ensures Atoi(blanks + ([45] + (Response.Decimal(n) + tail))) == 0 - n
    ensures (tail == [] || (tail[0] != 32 && tail[0] != 43 && tail[0] != 45 && !(9 <= tail[0] <= 13))) ==>
              Atoi(blanks + tail) == 0
  {
    var d := Response.Decimal(n);
    hide *;
    AtoiOfDigits(n, tail);
    AfterBlanks(blanks, d + tail);
    AfterBlanks(blanks, [43] + (d + tail));
    AfterBlanks(blanks, [45] + (d + tail));
    AfterBlanks(blanks, tail);
    AtoiOfNothing(tail);
  }

  lemma AtoiOfDigits(n: nat, tail: seq<byte>)
    requires tail == [] || tail[0] < 48 || 57 < tail[0]
    ensures var t := Response.Decimal(n) + tail; Atoi(t) == Atoi([43] + t) == n && Atoi([45] + t) == 0 - n
  {
    var d := Response.Decimal(n);
    var t := d + tail;
    Response.DigitsOfDecimal(n);
    DigitsStop(d, tail, 0);
    assert t[0] == d[0] && ([43] + t)[1..] == t && ([45] + t)[1..] == t;
    hide Digits;
  }

  lemma AtoiOfNothing(tail: seq<byte>)
    requires tail == [] || tail[0] < 48 || 57 < tail[0]
    ensures (tail == [] || (tail[0] != 32 && tail[0] != 43 && tail[0] != 45 && !(9 <= tail[0] <= 13))) ==>
              Atoi(tail) == 0
  {
  }

  lemma {:induction false} AfterBlanks(blanks: seq<byte>, t: seq<byte>)
    requires Blank(blanks)
    ensures Atoi(blanks + t) == Atoi(t)
    decreases |blanks|
  {
    if blanks == [] {
      assert blanks + t == t;
    } else {
      AfterBlanks(blanks[1..], t);
      assert (blanks + t)[1..] == blanks[1..] + t;
    }
  }

  lemma {:induction false} DigitsStop(s: seq<byte>, t: seq<byte>, acc: nat)
    requires forall i :: 0 <= i < |s| ==> 48 <= s[i] <= 57
    requires t == [] || t[0] < 48 || 57 < t[0]
    ensures Digits(s + t, acc) == Digits(s, acc)
    decreases |s|
  {
    if s == [] {
      assert s + t == t;
    } else {
      DigitsStop(s[1..], t, acc * 10 + (s[0] - 48));
      assert (s + t)[1..] == s[1..] + t;
    }
  }

  /** A length that is negative or above 8192 makes any request malformed that is not a get. */
  lemma BadLength(d: Draft, rest: seq<byte>, host: seq<byte>, length: seq<byte>)
    requires GoodDraft(d) && !Casing(d.verb, GET) && LastNamed(FieldsIn(d.headers), HOST, host)
    requires LastNamed(FieldsIn(d.headers), CONTENT_LENGTH, length) && (Atoi(length) < 0 || Atoi(length) > 8192)
    ensures OneShot(HeadText(d) + rest)
         == Complete(Request(d.verb, d.path, host, FieldsIn(d.headers), [], true), |HeadText(d)|)
  {
    hide *;
    var lines := [FirstLine(d)] + LinesIn(d.headers);
    DraftLines(d);
    HeadReads(d, host);
    LastValueIs(FieldsIn(d.headers), CONTENT_LENGTH, length);
    TextParts(d, [], rest);
    BlockReads(lines, rest);
    CasingIs(d.verb, GET);
    assert HeadText(d) + [] + rest == HeadText(d) + rest && [] + rest == rest;
    BodyRefused(HeadText(d) + rest, HeadOf(lines), |AllLines(lines)|);
    NoMalformed(HeadOf(lines), []);
  }

  lemma BodyRefused(s: seq<byte>, head: Head, e: nat)
    requires e + 2 <= |s| && head.line.Some? && !CiEquals(head.verb, GET) && (head.length < 0 || head.length > 8192)
    ensures OneShotBody(s, head, e) == Complete(RequestOf(head, []).(malformed := true), e + 2)
  {
    Names();
    hide CiEquals, Ascii, RequestOf;
  }

  // ---------------------------------------------------------------- a stream of requests

  /** `r` is what the text of `d`, followed by r's contents, stands for. */
  ghost predicate StandsFor(d: Draft, r: Request) {
    && GoodDraft(d) && r.verb == d.verb && r.path == d.path && r.fields == FieldsIn(d.headers) && !r.malformed
    && LastNamed(r.fields, HOST, r.host)
    && if Casing(d.verb, GET) then r.contents == [] else |r.contents| <= 8192 && Announces(r.fields, r.contents)
  }

  function StreamOf(ds: seq<Draft>, rs: seq<Request>): seq<byte>
    requires |ds| == |rs|
  {
    if ds == [] then [] else HeadText(ds[0]) + rs[0].contents + StreamOf(ds[1..], rs[1..])
  }

  /** Requests written one behind the other are read back one by one, up to the first that closes the connection. */
  lemma {:induction false} StreamReads(ds: seq<Draft>, rs: seq<Request>, rest: seq<byte>)
    requires |ds| == |rs| && forall i :: 0 <= i < |ds| ==> StandsFor(ds[i], rs[i])
    requires forall i :: 0 <= i < |rs| - 1 ==> !Session.Closes(rs[i])
    ensures var closed := rs != [] && Session.Closes(rs[|rs| - 1]);
            Session.Requests(StreamOf(ds, rs) + rest) == rs + if closed then [] else Session.Requests(rest)
    decreases |ds|
  {
    hide *;
    if ds == [] {
      assert [] + rest == rest;
      StreamEnds(ds, rs);
    } else {
      var after := if Session.Closes(rs[|rs| - 1]) then [] else Session.Requests(rest);
      StreamStep(ds, rs, rest);
      FirstReads(ds[0], rs[0], StreamOf(ds[1..], rs[1..]) + rest);
      if |rs| > 1 || !Session.Closes(rs[0]) { StreamReads(ds[1..], rs[1..], rest); }
      Associative([rs[0]], rs[1..], after);
      assert rs == [rs[0]] + rs[1..];
    }
  }

  lemma StreamEnds(ds: seq<Draft>, rs: seq<Request>)
    requires ds == [] && rs == []
    ensures StreamOf(ds, rs) == []
  {
  }

  lemma StreamStep(ds: seq<Draft>, rs: seq<Request>, rest: seq<byte>)
    requires |ds| == |rs| > 0
    ensures StreamOf(ds, rs) + rest == HeadText(ds[0]) + rs[0].contents + (StreamOf(ds[1..], rs[1..]) + rest)
  {
    hide HeadText;
  }

  lemma FirstReads(d: Draft, r: Request, rest: seq<byte>)
    requires StandsFor(d, r)
    ensures Session.Requests(HeadText(d) + r.contents + rest)
         == [r] + if Session.Closes(r) then [] else Session.Requests(rest)
  {
    var s := HeadText(d) + r.contents;
    hide *;
    TextReads(d, r);
    Session.LastOrNot(s, rest);
    assert s[|s|..] == [] && [] + rest == rest;
  }

  lemma TextReads(d: Draft, r: Request)
    requires StandsFor(d, r)
    ensures OneShot(HeadText(d) + r.contents) == Complete(r, |HeadText(d)| + |r.contents|) && !r.malformed
  {
    if Casing(d.verb, GET) {
      GetReads(d, [], r.host);
    } else {
      WrittenReads(d, r.contents, [], r.host);
      assert HeadText(d) + r.contents + [] == HeadText(d) + r.contents;
    }
    hide OneShot, HeadText, Casing, LastNamed, Announces, GoodDraft, FieldsIn;
  }
}
