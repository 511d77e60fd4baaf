/** Response headers: they are appended behind a reserved headroom, and the status line, which is only known at the
    end, is filled in front of them from the right. */
module Response {
  import opened Bytes
  import opened HttpSpec
  import opened HttpReference
  import opened HtmlEscape
  import opened StringBuilder

  const INITIAL_SPACE := 160
  const CRLF: seq<byte> := [CR, LF]

  // ---------------------------------------------------------------- decimal numbers

  function Decimal(n: nat): (s: seq<byte>)
    ensures s != [] && forall i :: 0 <= i < |s| ==> 48 <= s[i] <= 57
  {
    if n < 10 then [48 + n] else Decimal(n / 10) + [48 + n % 10]
  }

  function Pow10(k: nat): nat { if k == 0 then 1 else 10 * Pow10(k - 1) }

  /** int(log10(n)), taken as exact. */
  function Log10(n: nat): nat { if n < 10 then 0 else 1 + Log10(n / 10) }

  lemma {:induction false} Log10IsExact(n: nat)
    requires n > 0
    ensures Pow10(Log10(n)) <= n < Pow10(Log10(n) + 1)
  {
    if n >= 10 { Log10IsExact(n / 10); }
  }

  lemma {:induction false} Pow10Grows(j: nat, k: nat)
    requires j <= k
    ensures Pow10(j) <= Pow10(k)
  {
    if j < k { Pow10Grows(j, k - 1); }
  }

  /** The digit count itoa64 starts from is the length of what it writes. */
  lemma {:induction false} DecimalLength(n: nat)
    ensures |Decimal(n)| == Log10(n) + 1
  {
    if n >= 10 { DecimalLength(n / 10); }
  }

  lemma Pow10Of19()
    ensures Pow10(19) > 0x8000_0000_0000_0000
  {
    assert Pow10(9) == 1_000_000_000;
    assert Pow10(14) == 100_000 * Pow10(9);
    assert Pow10(19) == 100_000 * Pow10(14);
  }

  lemma Int64Digits(n: nat)
    requires n < 0x8000_0000_0000_0000
    ensures |Decimal(n)| <= 19
  {
    DecimalLength(n);
    if n > 0 {
      Log10IsExact(n);
      Pow10Of19();
      if Log10(n) >= 19 { Pow10Grows(19, Log10(n)); }
    }
  }

  lemma {:induction false} DigitsAppend(s: seq<byte>, d: byte, acc: nat)
    requires 48 <= d <= 57 && forall i :: 0 <= i < |s| ==> 48 <= s[i] <= 57
    ensures Digits(s + [d], acc) == Digits(s, acc) * 10 + (d - 48)
  {
    var all := s + [d];
    if s == [] {
      assert all[0] == d && Digits(all[1..], acc * 10 + (d - 48)) == acc * 10 + (d - 48);
    } else {
      assert all[1..] == s[1..] + [d];
      DigitsAppend(s[1..], d, acc * 10 + (s[0] - 48));
    }
  }

  lemma {:induction false} DigitsOfDecimal(n: nat)
    ensures Digits(Decimal(n), 0) == n
  {
    if n < 10 {
      DigitsAppend([], 48 + n, 0);
      assert [] + Decimal(n) == Decimal(n);
    } else {
      DigitsOfDecimal(n / 10);
      DigitsAppend(Decimal(n / 10), 48 + n % 10, 0);
    }
  }

  /** The length the server announces is the length its own parser would read. */
  lemma AtoiDecimal(n: nat)
    ensures Atoi(Decimal(n)) == n
  {
    DigitsOfDecimal(n);
  }

  /** itoa64: write the digits from the last to the first, ending in a NUL; returns how many there are. */
  method Itoa64(n: int, b: array<byte>, at: nat) returns (l: nat)
    requires 0 <= n < 0x8000_0000_0000_0000 && at + 20 <= b.Length
    modifies b
    ensures l <= 19 && b[at..at + l] == Decimal(n)
    ensures b[..at] == old(b[..at])
  {
    hide *;
    Int64Digits(n);
    DecimalLength(n);
    l := Log10(n) + 1;
    b[at + l] := 0;
    PutDigits(n, b, at, at + l);
  }

  /** The loop of itoa64. */
  method PutDigits(n: nat, b: array<byte>, ghost at: nat, end: nat)
    requires at + |Decimal(n)| == end <= b.Length
    modifies b
    ensures b[at..end] == Decimal(n) && b[..at] == old(b[..at])
  {
    hide *;
    var p, i := end, n;
    assert Decimal(n) + b[end..end] == Decimal(n);
    while true
      invariant at < p <= end && p - at == |Decimal(i)|
      invariant Decimal(i) + b[p..end] == Decimal(n)
      invariant b[..at] == old(b[..at])
      decreases i
    {
      LastDigit(i, b[p..end]);
      p := p - 1;
      PutDigit(b, at, p, end, 48 + i % 10);
      i := i / 10;
      if i == 0 { break; }
    }
  }

  method PutDigit(b: array<byte>, ghost at: nat, p: nat, ghost end: nat, digit: byte)
    requires at <= p < end <= b.Length
    modifies b
    ensures b[p..end] == [digit] + old(b[p + 1..end]) && b[..at] == old(b[..at])
  {
    b[p] := digit;
  }

  lemma LastDigit(i: nat, tail: seq<byte>)
    ensures i / 10 == 0 ==> Decimal(i) + tail == [48 + i % 10] + tail && |Decimal(i)| == 1
    ensures i / 10 != 0 ==> Decimal(i) + tail == Decimal(i / 10) + ([48 + i % 10] + tail)
    ensures i / 10 != 0 ==> |Decimal(i)| == |Decimal(i / 10)| + 1
  {
  }

  // ---------------------------------------------------------------- what is composed

  /** A C string: the library's default, told by its address, or one the application supplied. */
  datatype Phrase = Default | Other(chars: seq<byte>)

  function StatusOf(t: Phrase): seq<byte> {
    if t.Default? then Ascii("200 OK") else t.chars
  }

  function ContentTypeOf(t: Phrase): seq<byte> {
    if t.Default? then Ascii("text/html; charset=UTF-8") else t.chars
  }

  function Line(s: seq<byte>): seq<byte> { s + CRLF }

  /** The three lines that go into the headroom. */
  function Prefix(status: seq<byte>, keepAlive: bool, contentType: seq<byte>): seq<byte> {
    Line(Ascii("HTTP/1.1 ") + status)
    + Line(if keepAlive then Ascii("Connection: keep-alive") else Ascii("Connection: close"))
    + Line(Ascii("Content-Type: ") + contentType)
  }

  function LengthLine(n: nat): seq<byte> { Ascii("Content-Length: ") + Decimal(n) }

  /** The last header and the empty line. */
  function Ending(n: nat): seq<byte> { Line(LengthLine(n)) + CRLF }

  lemma AsciiConcat(s: string, t: string)
    ensures Ascii(s + t) == Ascii(s) + Ascii(t)
  {
  }

  /** The literals of the fast path are the general prefix of the two defaults. */
  lemma FastPathIsGeneral(keepAlive: bool)
    ensures Prefix(StatusOf(Default), keepAlive, ContentTypeOf(Default)) == FastPrefix(keepAlive)
  {
    assert Ascii("\r\n") == CRLF;
    hide Ascii;
    AsciiConcat("HTTP/1.1 ", "200 OK");
    AsciiConcat("HTTP/1.1 " + "200 OK", "\r\n");
    AsciiConcat("Connection: keep-alive", "\r\n");
    AsciiConcat("Connection: close", "\r\n");
    AsciiConcat("Content-Type: ", "text/html; charset=UTF-8");
    AsciiConcat("Content-Type: " + "text/html; charset=UTF-8", "\r\n");
    FastLiterals();
    FastConnectionLiterals();
  }

  lemma FastLiterals()
    ensures "HTTP/1.1 200 OK\r\n" == "HTTP/1.1 " + "200 OK" + "\r\n"
    ensures "Content-Type: text/html; charset=UTF-8\r\n" == "Content-Type: " + "text/html; charset=UTF-8" + "\r\n"
  {
  }

  lemma FastConnectionLiterals()
    ensures "Connection: keep-alive\r\n" == "Connection: keep-alive" + "\r\n"
    ensures "Connection: close\r\n" == "Connection: close" + "\r\n"
  {
  }

  /** The fast path's literals. */
  function FastPrefix(keepAlive: bool): (s: seq<byte>)
    ensures |s| == 17 + (if keepAlive then 24 else 19) + 40
  {
    Ascii("HTTP/1.1 200 OK\r\n")
    + (if keepAlive then Ascii("Connection: keep-alive\r\n") else Ascii("Connection: close\r\n"))
    + Ascii("Content-Type: text/html; charset=UTF-8\r\n")
  }

  function PrefixLength(status: seq<byte>, keepAlive: bool, contentType: seq<byte>): (n: nat)
    ensures n == |Prefix(status, keepAlive, contentType)|
  {
    9 + |status| + 2 + (if keepAlive then 24 else 19) + 14 + |contentType| + 2
  }

  method WriteLengthHeader(data: array<byte>, at: nat, length: int) returns (end: nat)
    requires 0 <= length < 0x8000_0000_0000_0000 && at + 64 <= data.Length
    modifies data
    ensures at <= end <= at + 64
    ensures data[..end] == old(data[..at]) + Ending(length)
  {
    hide *;
    ghost var was := data[..at];
    var s := MemCpy(data, at, Ascii("Content-Length: "));
    ghost var name := data[..s];
    var l := Itoa64(length, data, s);
    s := s + l;
    assert data[..s] == name + Decimal(length);
    data[s], data[s + 1], data[s + 2], data[s + 3] := CR, LF, CR, LF;
    end := s + 4;
    assert data[..end] == name + Decimal(length) + [CR, LF, CR, LF];
    EndingParts(was, length);
  }

  lemma EndingParts(was: seq<byte>, n: nat)
    ensures was + Ascii("Content-Length: ") + Decimal(n) + [CR, LF, CR, LF] == was + Ending(n)
  {
    hide Ascii, Decimal;
  }

  /** What stands between the status and the content type. */
  function ConnectionPart(keepAlive: bool): (s: seq<byte>)
    ensures |s| == if keepAlive then 40 else 35
  {
    if keepAlive then Ascii("\r\nConnection: keep-alive\r\nContent-Type: ")
    else Ascii("\r\nConnection: close\r\nContent-Type: ")
  }

  lemma ConnectionPartIs(keepAlive: bool)
    ensures ConnectionPart(keepAlive)
         == CRLF + Ascii(if keepAlive then "Connection: keep-alive" else "Connection: close") + CRLF
            + Ascii("Content-Type: ")
  {
    assert CRLF == Ascii("\r\n");
    hide Ascii;
    var line := if keepAlive then "Connection: keep-alive" else "Connection: close";
    if keepAlive { KeepAliveLiteral(); } else { CloseLiteral(); }
    AsciiConcat("\r\n", line);
    AsciiConcat("\r\n" + line, "\r\n");
    AsciiConcat("\r\n" + line + "\r\n", "Content-Type: ");
  }

  lemma KeepAliveLiteral()
    ensures "\r\nConnection: keep-alive\r\nContent-Type: "
            == "\r\n" + "Connection: keep-alive" + "\r\n" + "Content-Type: "
  {
  }

  lemma CloseLiteral()
    ensures "\r\nConnection: close\r\nContent-Type: " == "\r\n" + "Connection: close" + "\r\n" + "Content-Type: "
  {
  }

  lemma PrefixPieces(status: seq<byte>, keepAlive: bool, contentType: seq<byte>)
    ensures Prefix(status, keepAlive, contentType)
         == Ascii("HTTP/1.1 ") + status + ConnectionPart(keepAlive) + contentType + [CR, LF]
  {
    ConnectionPartIs(keepAlive);
    hide Ascii, ConnectionPart;
  }

  /** The five copies of the general path. */
  method FillPrefix(data: array<byte>, sp: nat, status: seq<byte>, keepAlive: bool, contentType: seq<byte>)
    requires sp + PrefixLength(status, keepAlive, contentType) <= data.Length
    modifies data
    ensures var end := sp + PrefixLength(status, keepAlive, contentType);
            data[..end] == old(data[..sp]) + Prefix(status, keepAlive, contentType) && data[end..] == old(data[end..])
  {
    hide *;
    PrefixPieces(status, keepAlive, contentType);
    ghost var was := data[..];
    ghost var p0 := was[..sp];
    ghost var p1 := p0 + Ascii("HTTP/1.1 ");
    ghost var p2 := p1 + status;
    ghost var p3 := p2 + ConnectionPart(keepAlive);
    var s := CopyOn(data, sp, Ascii("HTTP/1.1 "), was, p0);
    s := CopyOn(data, s, status, was, p1);
    s := CopyOn(data, s, ConnectionPart(keepAlive), was, p2);
    s := CopyOn(data, s, contentType, was, p3);
    s := CopyOn(data, s, [CR, LF], was, p3 + contentType);
    Regroups(p0, Ascii("HTTP/1.1 "), status, ConnectionPart(keepAlive), contentType, [CR, LF]);
  }

  lemma Regroups(p: seq<byte>, a: seq<byte>, b: seq<byte>, c: seq<byte>, d: seq<byte>, e: seq<byte>)
    ensures p + a + b + c + d + e == p + (a + b + c + d + e)
  {
  }

  /** The next copy of a series: `done` is what the array holds before `at`, `was` what it held behind. */
  method CopyOn(dst: array<byte>, at: nat, s: seq<byte>, ghost was: seq<byte>, ghost done: seq<byte>) returns (end: nat)
    requires at + |s| <= dst.Length == |was| && dst[..at] == done && dst[at..] == was[at..]
    modifies dst
    ensures end == at + |s| && dst[..end] == done + s && dst[end..] == was[end..]
  {
    assert was[at + |s|..] == was[at..][|s|..] == dst[at + |s|..];
    end := MemCpy(dst, at, s);
  }

  /** Filling the headroom up to its end completes the block and leaves what was added as it was. */
  lemma Whole(was: seq<byte>, now: seq<byte>, sp: nat, len: nat, prefix: seq<byte>)
    requires sp <= INITIAL_SPACE <= len <= |was| == |now|
    requires now[..INITIAL_SPACE] == was[..sp] + prefix && now[INITIAL_SPACE..] == was[INITIAL_SPACE..]
    ensures now[..len][INITIAL_SPACE..] == was[..len][INITIAL_SPACE..]
    ensures now[sp..len] == prefix + was[..len][INITIAL_SPACE..]
  {
    assert forall i :: INITIAL_SPACE <= i < len ==> now[i] == now[INITIAL_SPACE..][i - INITIAL_SPACE] == was[i];
    assert now[sp..len] == now[..INITIAL_SPACE][sp..] + now[..len][INITIAL_SPACE..];
  }

  // ---------------------------------------------------------------- what is written

  const ERROR_STATUS := Ascii("500 Server Error")
  const HTML := Ascii("text/html")
  const PAGE_HEAD := Ascii("<html><head><title>Server error</title></head>\n")
  const PAGE_BODY :=
    Ascii("<body><h1 style=\"color: #aa1111\">Server error</h1><hr /><h2 style=\"color: #444\">")
  const PAGE_HEADING_END := Ascii("</h2>")
  const PAGE_END := Ascii("</body></html>")
  const TOO_LARGE := Ascii("Response status or content type too large")

  predicate Fits(status: seq<byte>, keepAlive: bool, contentType: seq<byte>) {
    |Prefix(status, keepAlive, contentType)| <= INITIAL_SPACE
  }

  /** What composeHeaders returns when it does not refuse; `middle` is the added headers and the date. */
  function HeaderBlock(status: seq<byte>, keepAlive: bool, contentType: seq<byte>, middle: seq<byte>,
                       n: nat): seq<byte> {
    Prefix(status, keepAlive, contentType) + middle + Ending(n)
  }

  function ErrorPage(what: seq<byte>): seq<byte> {
    PAGE_HEAD + PAGE_BODY + Escape(what, false) + PAGE_HEADING_END + PAGE_END
  }

  lemma TooLargeBound()
    ensures |TOO_LARGE| < 100
  {
    hide Ascii;
  }

  lemma PageBound(what: seq<byte>)
    requires |what| < 0x1_0000_0000
    ensures |ErrorPage(what)| < 0x8000_0000_0000_0000
  {
    hide Ascii, Escape;
    EscapeBound(what, false);
  }

  lemma PageParts(was: seq<byte>, what: seq<byte>)
    ensures was + PAGE_HEAD + PAGE_BODY + Escape(what, false) + PAGE_HEADING_END + PAGE_END == was + ErrorPage(what)
  {
    hide PAGE_HEAD, PAGE_BODY, PAGE_HEADING_END, PAGE_END, Escape;
  }

  method AppendPage(what: seq<byte>, out: StringBuilder)
    requires out.Valid()
    modifies out, out.data
    ensures out.Valid() && out.Contents() == old(out.Contents()) + ErrorPage(what)
    ensures out.data == old(out.data) || fresh(out.data)
  {
    hide *;
    PageParts(out.Contents(), what);
    out.Append(PAGE_HEAD);
    out.Append(PAGE_BODY);
    var n := Text(what, out);
    out.Append(PAGE_HEADING_END);
    out.Append(PAGE_END);
  }

  /** The page's own status and content type leave room to spare, so the handler is not entered again. */
  lemma ErrorFits(keepAlive: bool)
    ensures Fits(ERROR_STATUS, keepAlive, HTML)
  {
    hide Ascii;
    assert PrefixLength(ERROR_STATUS, keepAlive, HTML) <= 76;
  }

  /** The bytes of a finished response. After a refusal the date and the length of the page come on top of those
      the refused attempt has appended. */
  function Written(status: seq<byte>, keepAlive: bool, contentType: seq<byte>,
                   added: seq<byte>, date: seq<byte>, body: seq<byte>): seq<byte> {
    if Fits(status, keepAlive, contentType) then
      HeaderBlock(status, keepAlive, contentType, added + date, |body|) + body
    else
      var page := ErrorPage(TOO_LARGE);
      HeaderBlock(ERROR_STATUS, keepAlive, HTML, added + date + Ending(|body|) + date, |page|) + page
  }

  /** The two outcomes of composing, as finish sees them. */
  lemma WrittenParts(status: seq<byte>, keepAlive: bool, contentType: seq<byte>,
                     added: seq<byte>, date: seq<byte>, body: seq<byte>)
    ensures var prefix := Prefix(status, keepAlive, contentType);
            var written := Written(status, keepAlive, contentType, added, date, body);
            && prefix != [] && (Fits(status, keepAlive, contentType) <==> |prefix| <= INITIAL_SPACE)
            && if |prefix| <= INITIAL_SPACE then written == prefix + (added + date + Ending(|body|)) + body
               else var page := ErrorPage(TOO_LARGE);
                    written
                    == HeaderBlock(ERROR_STATUS, keepAlive, HTML, added + date + Ending(|body|) + date, |page|) + page
  {
    assert PrefixLength(status, keepAlive, contentType) > 0;
    hide Prefix, Ending, ErrorPage, ERROR_STATUS, HTML, TOO_LARGE, PrefixLength, Ascii, Escape;
    var prefix, ending := Prefix(status, keepAlive, contentType), Ending(|body|);
    assert prefix + (added + date) + ending == prefix + (added + date + ending);
  }

  // ---------------------------------------------------------------- in literal bytes

  lemma PrefixLiterals()
    ensures Ascii("HTTP/1.1 ") == [72, 84, 84, 80, 47, 49, 46, 49, 32]
    ensures Ascii("Content-Type: ") == [67, 111, 110, 116, 101, 110, 116, 45, 84, 121, 112, 101, 58, 32]
    ensures Ascii("Content-Length: ")
            == [67, 111, 110, 116, 101, 110, 116, 45, 76, 101, 110, 103, 116, 104, 58, 32]
  {
  }

  lemma KeepAliveBytes()
    ensures Ascii("Connection: keep-alive")
            == [67, 111, 110, 110, 101, 99, 116, 105, 111, 110, 58, 32]
               + [107, 101, 101, 112, 45, 97, 108, 105, 118, 101]
  {
  }

  lemma CloseBytes()
    ensures Ascii("Connection: close")
            == [67, 111, 110, 110, 101, 99, 116, 105, 111, 110, 58, 32] + [99, 108, 111, 115, 101]
  {
  }

  /** A header block byte for byte: status line, keep-alive or close, content type, what was added, the length in
      decimal, and an empty line. */
  lemma BlockBytes(status: seq<byte>, keepAlive: bool, contentType: seq<byte>, middle: seq<byte>, n: nat)
    ensures HeaderBlock(status, keepAlive, contentType, middle, n)
         == ([72, 84, 84, 80, 47, 49, 46, 49, 32] + status + [13, 10])
            + ([67, 111, 110, 110, 101, 99, 116, 105, 111, 110, 58, 32]
               + (if keepAlive then [107, 101, 101, 112, 45, 97, 108, 105, 118, 101] else [99, 108, 111, 115, 101])
               + [13, 10])
            + ([67, 111, 110, 116, 101, 110, 116, 45, 84, 121, 112, 101, 58, 32] + contentType + [13, 10])
            + middle
            + ([67, 111, 110, 116, 101, 110, 116, 45, 76, 101, 110, 103, 116, 104, 58, 32] + Decimal(n) + [13, 10]
               + [13, 10])
  {
    PrefixLiterals();
    KeepAliveBytes();
    CloseBytes();
    hide Ascii, Decimal;
  }

  /** The defaults, and what the error page is sent with; the headroom has 160 bytes. */
  lemma DefaultBytes()
    ensures StatusOf(Default) == [50, 48, 48, 32, 79, 75]
    ensures ERROR_STATUS == [53, 48, 48, 32, 83, 101, 114, 118, 101, 114, 32, 69, 114, 114, 111, 114]
    ensures INITIAL_SPACE == 160
  {
  }

  lemma DefaultTypeBytes()
    ensures HTML == [116, 101, 120, 116, 47, 104, 116, 109, 108]
    ensures ContentTypeOf(Default) == HTML + [59, 32, 99, 104, 97, 114, 115, 101, 116, 61, 85, 84, 70, 45, 56]
  {
  }

  /** The error page around the escaped message. */
  lemma ErrorPageIs(what: seq<byte>)
    ensures ErrorPage(what)
         == Ascii("<html><head><title>Server error</title></head>\n")
            + Ascii("<body><h1 style=\"color: #aa1111\">Server error</h1><hr /><h2 style=\"color: #444\">")
            + Escape(what, false) + Ascii("</h2></body></html>")
  {
    hide Ascii, Escape;
    assert "</h2></body></html>" == "</h2>" + "</body></html>";
    AsciiConcat("</h2>", "</body></html>");
  }

  /** Decimal notation: the last digit is the remainder by ten, and those before it denote the quotient. */
  lemma DecimalIs(q: nat, r: nat)
    requires r < 10
    ensures Decimal(r) == [48 + r]
    ensures q > 0 ==> Decimal(10 * q + r) == Decimal(q) + [48 + r]
  {
    assert (10 * q + r) / 10 == q && (10 * q + r) % 10 == r;
  }

  // ---------------------------------------------------------------- the object

  class Response {
    const headersBuffer: StringBuilder
    const buffer: StringBuilder
    var status: Phrase
    var contentType: Phrase
    var keepAlive: bool

    ghost predicate Valid()
      reads this, headersBuffer, buffer
    {
      && headersBuffer != buffer && headersBuffer.data != buffer.data
      && headersBuffer.Valid() && buffer.Valid() && INITIAL_SPACE <= headersBuffer.len
    }

    /** The headers added so far, behind the headroom. */
    function Added(): seq<byte>
      requires Valid()
      reads this, headersBuffer, buffer, headersBuffer.data
    {
      headersBuffer.Contents()[INITIAL_SPACE..]
    }

    constructor ()
      ensures Valid() && Added() == [] && buffer.Contents() == []
      ensures status == Default && contentType == Default
      ensures fresh(headersBuffer) && fresh(buffer) && fresh(headersBuffer.data) && fresh(buffer.data)
    {
      headersBuffer := new StringBuilder();
      buffer := new StringBuilder();
      status, contentType, keepAlive := Default, Default, true;
      new;
      headersBuffer.Resize(INITIAL_SPACE);
    }

    /** Whatever was composed before, the next response starts with the headroom, the defaults and no headers. */
    method Reset()
      requires Valid()
      modifies this`status, this`contentType, headersBuffer`data, headersBuffer`len, buffer`len
      ensures Valid() && Added() == [] && buffer.Contents() == []
      ensures status == Default && contentType == Default && keepAlive == old(keepAlive)
      ensures headersBuffer.data == old(headersBuffer.data)
    {
      status, contentType := Default, Default;
      headersBuffer.Resize(INITIAL_SPACE);
      buffer.Clear();
    }

    method AddHeader(s: seq<byte>)
      requires Valid()
      modifies headersBuffer`data, headersBuffer`len, headersBuffer.data
      ensures Valid() && Added() == old(Added()) + s
      ensures headersBuffer.data == old(headersBuffer.data) || fresh(headersBuffer.data)
      ensures headersBuffer.Contents()[..INITIAL_SPACE] == old(headersBuffer.Contents()[..INITIAL_SPACE])
    {
      headersBuffer.Append(s);
    }

    /** Reserve 64 bytes, write the line and the empty line into them, give the rest back. */
    method AddContentLengthHeader(length: int)
      requires Valid() && 0 <= length < 0x8000_0000_0000_0000
      modifies headersBuffer`data, headersBuffer`len, headersBuffer.data
      ensures Valid() && Added() == old(Added()) + Ending(length)
      ensures headersBuffer.data == old(headersBuffer.data) || fresh(headersBuffer.data)
    {
      var h, oldLen := headersBuffer, headersBuffer.len;
      h.Resize(oldLen + 64);
      assert h.data[..oldLen] == h.Contents()[..oldLen];
      var end := WriteLengthHeader(h.data, oldLen, length);
      h.Resize(end);
    }

    /** The whole header block, or nothing when its first three lines do not fit in the headroom. The date and the
        length are appended either way. */
    method ComposeHeaders(contentLength: int, date: seq<byte>) returns (view: seq<byte>)
      requires Valid() && 0 <= contentLength < 0x8000_0000_0000_0000
      modifies headersBuffer`data, headersBuffer`len, headersBuffer.data
      ensures Valid() && Added() == old(Added()) + date + Ending(contentLength)
      ensures var prefix := Prefix(StatusOf(status), keepAlive, ContentTypeOf(contentType));
              view == if |prefix| > INITIAL_SPACE then [] else prefix + Added()
      ensures headersBuffer.data == old(headersBuffer.data) || fresh(headersBuffer.data)
    {
      hide Prefix, Ending, StatusOf, ContentTypeOf, FastPrefix;
      AddHeader(date);
      AddContentLengthHeader(contentLength);
      var data, len := headersBuffer.data, headersBuffer.len;
      ghost var was, prefix := data[..], Prefix(StatusOf(status), keepAlive, ContentTypeOf(contentType));
      if status == Default && contentType == Default {
        FastPathIsGeneral(keepAlive);
        var sp := INITIAL_SPACE - |FastPrefix(keepAlive)|;
        var end := MemCpy(data, sp, FastPrefix(keepAlive));
        Whole(was, data[..], sp, len, prefix);
        return data[sp..len];
      }
      var totalLen := PrefixLength(StatusOf(status), keepAlive, ContentTypeOf(contentType));
      if totalLen > INITIAL_SPACE { return []; }
      var sp := INITIAL_SPACE - totalLen;
      FillPrefix(data, sp, StatusOf(status), keepAlive, ContentTypeOf(contentType));
      Whole(was, data[..], sp, len, prefix);
      view := data[sp..len];
    }

    /** finish(true): what is written to the socket. When the headers are refused the exception handler, here the
        default one, takes over and finishes with its own page, which always fits. */
    method Finish(date: seq<byte>) returns (sent: seq<byte>)
      requires Valid() && buffer.len < 0x8000_0000_0000_0000
      modifies this`status, this`contentType, headersBuffer, headersBuffer.data, buffer, buffer.data
      ensures Valid()
      ensures sent
              == old(Written(StatusOf(status), keepAlive, ContentTypeOf(contentType), Added(), date, buffer.Contents()))
      decreases if Fits(StatusOf(status), keepAlive, ContentTypeOf(contentType)) then 0 else 1, 0
    {
      assert headersBuffer.data != buffer.data && headersBuffer != buffer && buffer.Valid();
      hide *;
      ghost var body, added := buffer.Contents(), Added();
      var headers := ComposeHeaders(buffer.len, date);
      WrittenParts(StatusOf(status), keepAlive, ContentTypeOf(contentType), added, date, body);
      if headers == [] {
        TooLargeBound();
        sent := DefaultHandleException(TOO_LARGE, date);
      } else {
        sent := headers + buffer.Contents();
      }
    }

    method DefaultHandleException(what: seq<byte>, date: seq<byte>) returns (sent: seq<byte>)
      requires Valid() && |what| < 0x1_0000_0000
      modifies this`status, this`contentType, headersBuffer, headersBuffer.data, buffer, buffer.data
      ensures Valid()
      ensures sent
              == old(HeaderBlock(ERROR_STATUS, keepAlive, HTML, Added() + date, |ErrorPage(what)|)) + ErrorPage(what)
      decreases 0, 1
    {
      hide Prefix, Ending, Escape, Decimal, Ascii, ErrorPage, HeaderBlock, Fits, ERROR_STATUS, HTML;
      buffer.Clear();
      status, contentType := Other(ERROR_STATUS), Other(HTML);
      ghost var added := Added();
      AppendPage(what, buffer);
      assert [] + ErrorPage(what) == ErrorPage(what) && Added() == added;
      ErrorFits(keepAlive);
      PageBound(what);
      sent := Finish(date);
    }
  }

  // ---------------------------------------------------------------- what a reader makes of the block

  ghost predicate NoPair(s: seq<byte>) { forall j :: !CrlfAt(s, j) }

  ghost predicate NoBlank(s: seq<byte>) { forall j :: !BlankAt(s, j) }

  lemma NoPairConcat(s: seq<byte>, t: seq<byte>)
    requires CR !in s && NoPair(t)
    ensures NoPair(s + t)
  {
    forall j ensures !CrlfAt(s + t, j) {
      if 0 <= j < |s| { assert s[j] in s; } else { assert !CrlfAt(t, j - |s|); }
    }
  }

  /** Empty lines do not arise where whole lines are joined. */
  lemma BlankConcat(a: seq<byte>, b: seq<byte>, j: int)
    requires Block(a)
    ensures BlankAt(a + b, j) == if j < |a| then BlankAt(a, j) else BlankAt(b, j - |a|)
  {
    if a == [] {
      assert a + b == b;
    } else {
      assert CrlfAt(a, |a| - 2);
    }
  }

  lemma LineNotBlank(s: seq<byte>)
    requires s != [] && NoPair(s)
    ensures NoBlank(Line(s)) && Block(Line(s))
  {
    forall j ensures !BlankAt(Line(s), j) {
      assert !CrlfAt(s, j) && !CrlfAt(s, j - 2);
    }
  }

  lemma NoBlankConcat(a: seq<byte>, b: seq<byte>)
    requires Block(a) && Block(b) && NoBlank(a)
    ensures Block(a + b) && (NoBlank(a + b) <==> NoBlank(b))
  {
    forall j ensures BlankAt(a + b, j) == (j >= |a| && BlankAt(b, j - |a|)) {
      BlankConcat(a, b, j);
      assert !BlankAt(a, j);
    }
    forall j ensures BlankAt(b, j) == (j >= 0 && BlankAt(a + b, j + |a|)) {
      BlankConcat(a, b, j + |a|);
    }
    if b != [] {
      assert CrlfAt(b, |b| - 2);
      assert CrlfAt(a + b, |a + b| - 2);
    } else {
      assert a + b == a;
    }
  }

  lemma PrefixNotBlank(status: seq<byte>, keepAlive: bool, contentType: seq<byte>)
    requires NoPair(status) && NoPair(contentType)
    ensures NoBlank(Prefix(status, keepAlive, contentType)) && Block(Prefix(status, keepAlive, contentType))
  {
    var connection := if keepAlive then Ascii("Connection: keep-alive") else Ascii("Connection: close");
    LiteralsHaveNoCR();
    hide Ascii;
    NoPairConcat(Ascii("HTTP/1.1 "), status);
    NoPairConcat(Ascii("Content-Type: "), contentType);
    NoPairConcat(connection, []);
    assert connection + [] == connection;
    LineNotBlank(Ascii("HTTP/1.1 ") + status);
    LineNotBlank(connection);
    LineNotBlank(Ascii("Content-Type: ") + contentType);
    hide Line, NoBlank, NoPair, BlankAt, Block;
    NoBlankConcat(Line(Ascii("HTTP/1.1 ") + status), Line(connection));
    NoBlankConcat(Line(Ascii("HTTP/1.1 ") + status) + Line(connection), Line(Ascii("Content-Type: ") + contentType));
  }

  lemma LiteralsHaveNoCR()
    ensures CR !in Ascii("HTTP/1.1 ") && CR !in Ascii("Content-Type: ") && CR !in Ascii("Content-Length: ")
    ensures CR !in Ascii("Connection: keep-alive") && CR !in Ascii("Connection: close")
  {
  }

  lemma EndingBlank(n: nat, j: int)
    ensures BlankAt(Ending(n), j) <==> j == |Line(LengthLine(n))|
  {
    LiteralsHaveNoCR();
    hide Ascii;
    NoPairConcat(Ascii("Content-Length: "), Decimal(n));
    LineNotBlank(LengthLine(n));
    BlankConcat(Line(LengthLine(n)), CRLF, j);
  }

  /** The block ends where a reader stops, at its first empty line, if and only if no empty line was added. */
  lemma BlockEndsOnce(status: seq<byte>, keepAlive: bool, contentType: seq<byte>, middle: seq<byte>, n: nat)
    requires NoPair(status) && NoPair(contentType) && Block(middle)
    ensures var block := HeaderBlock(status, keepAlive, contentType, middle, n);
            FindBlank(block, 0) == Some(|block| - 2) <==> NoBlank(middle)
  {
    var prefix, block := Prefix(status, keepAlive, contentType), HeaderBlock(status, keepAlive, contentType, middle, n);
    var e := |Line(LengthLine(n))|;
    assert |Ending(n)| == e + 2;
    PrefixNotBlank(status, keepAlive, contentType);
    NoBlankConcat(prefix, middle);
    hide Prefix, Line, LengthLine, Ending, BlankAt, Block;
    forall j
      ensures BlankAt(block, j) == if j < |prefix + middle| then BlankAt(prefix + middle, j) else j == |block| - 2
    {
      BlankConcat(prefix + middle, Ending(n), j);
      EndingBlank(n, j - |prefix + middle|);
    }
    if !NoBlank(middle) {
      var j :| BlankAt(prefix + middle, j);
      BlankInside(prefix + middle, j);
      assert BlankAt(block, j) && j != |block| - 2;
    } else {
      assert BlankAt(block, |block| - 2);
    }
  }

  lemma BlankInside(s: seq<byte>, j: int)
    requires BlankAt(s, j)
    ensures 0 <= j < |s| - 1
  {
  }

  lemma LengthName()
    ensures CiEquals(Ascii("Content-Length"), Ascii("content-length"))
  {
    LengthNameBytes();
    hide Ascii;
  }

  lemma LengthNameBytes()
    ensures Ascii("Content-Length") == [67, 111, 110, 116, 101, 110, 116, 45, 76, 101, 110, 103, 116, 104]
    ensures Ascii("content-length") == [99, 111, 110, 116, 101, 110, 116, 45, 108, 101, 110, 103, 116, 104]
  {
  }

  lemma LengthNameNoColon()
    ensures 58 !in Ascii("Content-Length")
  {
  }

  lemma LengthNameTrimmed()
    ensures Trim(Ascii("Content-Length")) == Ascii("Content-Length")
  {
    assert Ascii("Content-Length")[0] == 67 && Ascii("Content-Length")[13] == 104;
    hide Ascii;
  }

  lemma LengthNameSpaced()
    ensures Ascii("Content-Length: ") == Ascii("Content-Length") + [58, SPACE]
  {
    assert Ascii(": ") == [58, SPACE];
    hide Ascii;
    assert "Content-Length: " == "Content-Length" + ": ";
    AsciiConcat("Content-Length", ": ");
  }

  lemma LengthLineReads(h: Head, n: nat)
    ensures AddField(h, LengthLine(n)).length == n
  {
    LengthName();
    LengthNameNoColon();
    LengthNameTrimmed();
    LengthNameSpaced();
    var line, name, value := LengthLine(n), Ascii("Content-Length"), Decimal(n);
    hide Ascii, CiEquals;
    AtoiDecimal(n);
    assert Trim([SPACE] + value) == value by { assert ([SPACE] + value)[1..] == value && Trim(value) == value; }
    hide Trim, Atoi, Decimal;
    assert line == name + [58, SPACE] + value;
    assert forall j :: 0 <= j < 14 ==> line[j] == name[j] != 58;
    FindCharIs(line, 0, 58, 14);
    assert line[..14] == name && line[15..] == [SPACE] + value;
  }

  lemma LengthLineNoPair(n: nat)
    ensures NoPair(LengthLine(n))
  {
    LiteralsHaveNoCR();
    hide Ascii;
    NoPairConcat(Ascii("Content-Length: "), Decimal(n));
  }

  /** Read as header lines, the block announces exactly the length it was composed with. */
  lemma BlockReadsBack(status: seq<byte>, keepAlive: bool, contentType: seq<byte>, middle: seq<byte>, n: nat)
    requires NoPair(status) && NoPair(contentType) && Block(middle)
    ensures var block := HeaderBlock(status, keepAlive, contentType, middle, n);
            HeadOf(Lines(block[..|block| - 2])).length == n
  {
    var prefix, block := Prefix(status, keepAlive, contentType), HeaderBlock(status, keepAlive, contentType, middle, n);
    var before := prefix + middle;
    hide Prefix, LengthLine, HeadOf, AddField, Lines, Block;
    assert block[..|block| - 2] == before + LengthLine(n) + [CR, LF];
    PrefixNotBlank(status, keepAlive, contentType);
    assert Block(before) by { BlocksJoin(prefix, middle); }
    assert PrefixLength(status, keepAlive, contentType) == |prefix|;
    LengthLineNoPair(n);
    LinesAppend(before, LengthLine(n));
    HeadOfAppend(Lines(before), LengthLine(n));
    HeadStarted(before);
    LengthLineReads(HeadOf(Lines(before)), n);
  }

  lemma BlocksJoin(a: seq<byte>, b: seq<byte>)
    requires Block(a) && Block(b)
    ensures Block(a + b)
  {
    if b == [] { assert a + b == a; }
  }

  lemma HeadStarted(s: seq<byte>)
    requires Block(s) && s != []
    ensures HeadOf(Lines(s)).line.Some?
  {
    FindCRLFSpec(s, 0);
    assert CrlfAt(s, |s| - 2);
  }

  /** An empty line that ends a block is still the first one when content follows. */
  lemma FindBlankGrows(s: seq<byte>, t: seq<byte>)
    requires FindBlank(s, 0).Some?
    ensures FindBlank(s + t, 0) == FindBlank(s, 0)
  {
    var i := FindBlank(s, 0).value;
    assert forall j :: 0 <= j <= i ==> BlankAt(s + t, j) == BlankAt(s, j);
    assert BlankAt(s + t, i);
  }

  /** The content the application, or the exception handler in its place, meant to send. */
  function Content(status: seq<byte>, keepAlive: bool, contentType: seq<byte>, body: seq<byte>): seq<byte> {
    if Fits(status, keepAlive, contentType) then body else ErrorPage(TOO_LARGE)
  }

  /** Where a reader finds the content of what was written: behind the first empty line. */
  function ContentRead(sent: seq<byte>): seq<byte> {
    match FindBlank(sent, 0)
    case None => []
    case Some(e) => sent[e + 2..]
  }

  /** The length a reader finds announced. */
  function LengthRead(sent: seq<byte>): int {
    match FindBlank(sent, 0)
    case None => 0
    case Some(e) => HeadOf(Lines(sent[..e])).length
  }

  lemma BlockIsRead(status: seq<byte>, keepAlive: bool, contentType: seq<byte>, middle: seq<byte>, n: nat,
                    rest: seq<byte>)
    requires NoPair(status) && NoPair(contentType) && Block(middle) && NoBlank(middle)
    ensures var sent := HeaderBlock(status, keepAlive, contentType, middle, n) + rest;
            LengthRead(sent) == n && ContentRead(sent) == rest
  {
    var block := HeaderBlock(status, keepAlive, contentType, middle, n);
    hide *;
    BlockEndsOnce(status, keepAlive, contentType, middle, n);
    BlockReadsBack(status, keepAlive, contentType, middle, n);
    ReadBehind(block, rest);
  }

  lemma ReadBehind(block: seq<byte>, rest: seq<byte>)
    requires FindBlank(block, 0) == Some(|block| - 2)
    ensures LengthRead(block + rest) == HeadOf(Lines(block[..|block| - 2])).length && ContentRead(block + rest) == rest
  {
    hide Lines, HeadOf, FindBlank, CrlfAt;
    FindBlankGrows(block, rest);
    assert (block + rest)[..|block| - 2] == block[..|block| - 2];
  }

  /** Every finished response announces the length of the body it was composed for, and a reader finds the intended
      content behind the first empty line if and only if the headers were not refused: after a refusal the reader is
      told the length of the discarded body and finds the second date and length in front of the page. */
  lemma ResponseIsFramed(status: seq<byte>, keepAlive: bool, contentType: seq<byte>,
                         added: seq<byte>, date: seq<byte>, body: seq<byte>)
    requires NoPair(status) && NoPair(contentType) && Block(added + date) && NoBlank(added + date)
    ensures var sent := Written(status, keepAlive, contentType, added, date, body);
            && LengthRead(sent) == |body|
            && (ContentRead(sent) == Content(status, keepAlive, contentType, body)
                <==> Fits(status, keepAlive, contentType))
  {
    hide Prefix, Ending, ErrorPage, LengthRead, ContentRead, NoPair, NoBlank, Block, HeaderBlock;
    if Fits(status, keepAlive, contentType) {
      BlockIsRead(status, keepAlive, contentType, added + date, |body|, body);
    } else {
      ErrorTexts();
      RefusedParts(status, keepAlive, contentType, added, date, body);
      BlockIsRead(ERROR_STATUS, keepAlive, HTML, added + date, |body|, Rest(date));
      RestIsLonger(date);
    }
  }

  /** What follows the first length after a refusal. */
  function Rest(date: seq<byte>): seq<byte> {
    var page := ErrorPage(TOO_LARGE);
    date + Ending(|page|) + page
  }

  lemma RestIsLonger(date: seq<byte>)
    ensures |Rest(date)| > |ErrorPage(TOO_LARGE)|
  {
    hide ErrorPage;
  }

  lemma RefusedParts(status: seq<byte>, keepAlive: bool, contentType: seq<byte>,
                     added: seq<byte>, date: seq<byte>, body: seq<byte>)
    requires !Fits(status, keepAlive, contentType)
    ensures Written(status, keepAlive, contentType, added, date, body)
         == HeaderBlock(ERROR_STATUS, keepAlive, HTML, added + date, |body|) + Rest(date)
  {
    hide Prefix, Ending, ErrorPage, ERROR_STATUS, HTML;
  }

  lemma ErrorTexts()
    ensures NoPair(ERROR_STATUS) && NoPair(HTML)
  {
    assert CR !in ERROR_STATUS && CR !in HTML;
  }

  function Repeated(b: byte, n: nat): (s: seq<byte>)
    ensures |s| == n && forall i :: 0 <= i < n ==> s[i] == b
  {
    if n == 0 then [] else [b] + Repeated(b, n - 1)
  }

  /** A status of 160 times x is refused: the reader is told the two bytes of the discarded body hi, and what follows
      the first empty line is not the error page. */
  lemma RefusedExample(keepAlive: bool)
    ensures var sent := Written(Repeated(120, 160), keepAlive, HTML, [], [], [104, 105]);
            LengthRead(sent) == 2 && ContentRead(sent) != ErrorPage(TOO_LARGE)
  {
    var status, none, body: seq<byte> := Repeated(120, 160), [], [104, 105];
    assert PrefixLength(status, keepAlive, HTML) > INITIAL_SPACE;
    ErrorTexts();
    assert none + none == none;
    hide HTML, ERROR_STATUS, TOO_LARGE, Prefix, Written, ErrorPage, LengthRead, ContentRead, Repeated;
    ResponseIsFramed(status, keepAlive, HTML, none, none, body);
  }
}
