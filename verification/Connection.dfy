/** The connection handler: the parser object driven by recv completions and finished requests. Each method is
    the corresponding step of the session state machine, whatever the buffer does underneath. */
module Connection {
  import opened Bytes
  import opened HttpReference
  import opened HttpSpec
  import opened HttpParser
  import opened Session

  class Connection {
    var parser: HTTPParser
    var keepAlive: bool

    /** response.keepAlive, and what it was when the connection began. */
    var announces: bool
    ghost var stale: bool

    /** What the event loop waits for. */
    var mode: Mode
    /** Every request handed to the application, in order. */
    var handled: seq<Request>
    /** recv calls not yet completed, and requests the application has not finished. */
    ghost var pendingReads: nat
    ghost var openRequests: nat

    ghost function View(): Session
      requires parser.bufferBegin <= parser.bufferProcessed
      reads this, parser
    {
      Session(parser.raw, parser.CursorNow(), handled, mode)
    }

    /** What holds of the parser at every call, whatever the mode. */
    ghost predicate ParserOk()
      reads this`parser, parser, parser.buffer
    {
      && parser.Valid()
      && (parser.bufferSize == 4096 || parser.bufferSize == 8192 || parser.bufferSize == 16384)
      && (parser.contentsStart < parser.contentsEnd ==>
            0 <= parser.contentsStart && parser.contentsEnd <= parser.buffer.Length)
    }

    ghost predicate Valid()
      reads this, parser, parser.buffer
    {
      && ParserOk()
      && Coherent(View())
      && announces == Announced(stale, handled)
      && match mode
         case Reading =>
           && pendingReads == 1 && openRequests == 0 && parser.Open() && |parser.raw| < MAXREQUESTSIZE
           && 2 * (parser.bufferSize - parser.bufferEnd) >= parser.bufferSize
         case Handling(k) => pendingReads == 0 && openRequests == 1 && keepAlive == k
         case Stopped(_) => pendingReads == 0 && openRequests == 0
    }

    /** `garbage` is what the response's uninitialized flag happens to hold. */
    constructor (garbage: bool)
      ensures Valid() && mode.Stopped? && fresh(parser) && fresh(parser.buffer) && announces == garbage
    {
      parser := new HTTPParser();
      keepAlive, announces, stale := true, garbage, garbage;
      mode, handled, pendingReads, openRequests := Stopped(true), [], 0, 0;
      new;
      parser.ClearRequest();
    }

    /** A new client: the object may have served another one before, and its buffer may have grown. */
    method Begin()
      requires Valid() && mode.Stopped?
      modifies this`mode, this`handled, this`pendingReads, this`stale, parser, parser.buffer
      ensures Valid() && View() == INITIAL && stale == old(announces)
      ensures fresh(parser.buffer) || parser.buffer == old(parser.buffer)
    {
      parser.Reset();
      handled, stale := [], announces;
      StartRead();
    }

    /** Issue one recv into the space the parser offers. */
    method StartRead()
      requires ParserOk() && parser.Open() && |parser.raw| < MAXREQUESTSIZE
      requires pendingReads == 0 && openRequests == 0
      requires Advance(parser.raw, START) == More(parser.CursorNow()) && announces == Announced(stale, handled)
      modifies this`mode, this`pendingReads, parser, parser.buffer
      ensures Valid() && View() == old(View()).(mode := Reading)
      ensures fresh(parser.buffer) || parser.buffer == old(parser.buffer)
    {
      var at, room := parser.BeginAddData();
      pendingReads := pendingReads + 1;
      mode := Reading;
    }

    /** recv completed with the bytes `chunk`, which fit the space that was offered. */
    method ReadCB(chunk: seq<byte>, sync: nat -> bool)
      requires Valid() && mode.Reading?
      requires 0 < |chunk| <= parser.bufferSize - parser.bufferEnd
      modifies this`mode, this`keepAlive, this`announces, this`handled, this`pendingReads, this`openRequests
      modifies parser, parser.buffer
      ensures Valid() && View() == Settle(Receive(old(View()), chunk), sync)
      ensures fresh(parser.buffer) || parser.buffer == old(parser.buffer)
    {
      Put(chunk);
      pendingReads := pendingReads - 1;
      AdvanceResumes(old(parser.raw), chunk, START);
      ReadAndDispatch(sync);
    }

    /** The kernel writes the received bytes where the parser said, and the parser takes them into view. */
    method Put(chunk: seq<byte>)
      requires ParserOk() && |chunk| <= parser.bufferSize - parser.bufferEnd
      modifies parser`bufferEnd, parser`raw, parser`window, parser.buffer
      ensures ParserOk() && parser.raw == old(parser.raw) + chunk && parser.CursorNow() == old(parser.CursorNow())
    {
      hide Intact, HeadIn;
      Fill(parser.buffer, parser.bufferEnd, chunk);
      parser.EndAddData(|chunk|);
    }

    static method Fill(a: array<byte>, at: nat, chunk: seq<byte>)
      requires at + |chunk| <= a.Length
      modifies a
      ensures a[at..at + |chunk|] == chunk
      ensures a[..at] == old(a[..at])
    {
      forall i | 0 <= i < |chunk| { a[at + i] := chunk[i]; }
    }

    /** recv failed or the peer closed, or the application aborts the connection. */
    method Stop()
      requires Valid() && !mode.Stopped?
      modifies this`mode, this`pendingReads, this`openRequests
      ensures Valid() && View() == old(View()).(mode := Stopped(true))
    {
      mode, pendingReads, openRequests := Stopped(true), 0, 0;
    }

    method ReadAndDispatch(sync: nat -> bool)
      requires ParserOk() && parser.Open() && pendingReads == 0 && openRequests == 0
      requires announces == Announced(stale, handled)
      requires Advance(parser.raw, START) == Advance(parser.raw, parser.CursorNow())
      modifies this`mode, this`keepAlive, this`announces, this`handled, this`pendingReads, this`openRequests
      modifies parser, parser.buffer
      ensures Valid() && View() == Settle(Dispatch(old(View())), sync)
      ensures fresh(parser.buffer) || parser.buffer == old(parser.buffer)
      decreases |parser.raw|, 2
    {
      hide Intact, HeadIn, Settle, Advance;
      DispatchCoherent(View());
      SettleStep(Dispatch(View()), sync);
      var r := parser.ReadRequest();
      if r {
        ProcessRequest(sync);
      } else {
        StartRead();
      }
    }

    /** Hand the request to the application; `sync` says whether it finishes before returning. */
    method ProcessRequest(sync: nat -> bool)
      requires ParserOk() && pendingReads == 0 && openRequests == 0 && announces == Announced(stale, handled)
      requires Coherent(Handed(View(), RequestOf(parser.HeadNow(), parser.Contents())))
      modifies this`mode, this`keepAlive, this`announces, this`handled, this`pendingReads, this`openRequests
      modifies parser, parser.buffer
      ensures Valid()
      ensures View() == Settle(old(Handed(View(), RequestOf(parser.HeadNow(), parser.Contents()))), sync)
      ensures fresh(parser.buffer) || parser.buffer == old(parser.buffer)
      decreases |parser.raw|, 1
    {
      hide Intact, HeadIn, Settle, Coherent, Advance;
      SettleStep(Handed(View(), RequestOf(parser.HeadNow(), parser.Contents())), sync);
      Accept();
      if sync(|handled|) { RequestCompleted(sync); }
    }

    method Accept()
      requires ParserOk() && pendingReads == 0 && openRequests == 0 && announces == Announced(stale, handled)
      requires Coherent(Handed(View(), RequestOf(parser.HeadNow(), parser.Contents())))
      modifies this`mode, this`keepAlive, this`announces, this`handled, this`openRequests
      ensures Valid() && mode.Handling?
      ensures View() == old(Handed(View(), RequestOf(parser.HeadNow(), parser.Contents())))
    {
      hide Intact, HeadIn, Coherent, FirstValue, CiEquals, Announced, KeepsAlive;
      var request := parser.CopyRequest();
      var k := KeepAliveOf(request);
      Record(request, k);
    }

    /** The response's flag follows the request's, except that a malformed request leaves it as it was. */
    method Record(request: Request, k: bool)
      requires ParserOk() && pendingReads == 0 && openRequests == 0 && announces == Announced(stale, handled)
      requires Coherent(Handed(View(), request)) && k == KeepsAlive(request)
      modifies this`mode, this`keepAlive, this`announces, this`handled, this`openRequests
      ensures Valid() && mode.Handling? && View() == old(Handed(View(), request))
      ensures announces == if request.malformed then old(announces) else k
    {
      hide Intact, HeadIn, Coherent, Announced, KeepsAlive;
      keepAlive := k;
      if !request.malformed { announces := k; }
      AnnouncedNext(stale, handled, request);
      handled := handled + [request];
      openRequests := openRequests + 1;
      mode := Handling(keepAlive);
    }

    /** The application called finish and the response, if any, was written. */
    method RequestCompleted(sync: nat -> bool)
      requires Valid() && mode.Handling?
      modifies this`mode, this`keepAlive, this`announces, this`handled, this`pendingReads, this`openRequests
      modifies parser, parser.buffer
      ensures Valid() && View() == Settle(Finish(old(View())), sync)
      ensures old(mode) == Handling(false) ==> mode == Stopped(false) && handled == old(handled)
      ensures fresh(parser.buffer) || parser.buffer == old(parser.buffer)
      decreases |parser.raw|, 0
    {
      hide Intact, HeadIn, Settle, Advance, Coherent, Announced, Dispatch;
      HandlingParts();
      if !keepAlive {
        SettleStep(Finish(View()), sync) by { FinishCoherent(View()); }
        Close();
      } else {
        ghost var v := View();
        NextRequest();
        hide *;
        FinishIs(v);
        ReadAndDispatch(sync);
      }
    }

    lemma HandlingParts()
      requires Valid() && mode.Handling?
      ensures ParserOk() && Coherent(View()) && View().cursor.pos <= |View().raw| && mode == Handling(keepAlive)
    {
    }

    lemma FinishIs(v: Session)
      requires v.mode == Handling(true) && v.cursor.pos <= |v.raw|
      ensures Finish(v) == Dispatch(Cleared(v))
    {
    }

    /** requestCompleted on a connection that is not kept alive. */
    method Close()
      requires Valid() && mode == Handling(false)
      modifies this`mode, this`openRequests
      ensures Valid() && View() == old(View()).(mode := Stopped(false))
    {
      hide Intact, HeadIn, Advance, Announced;
      openRequests := openRequests - 1;
      mode := Stopped(false);
    }

    /** requestCompleted on a connection that is: the parser forgets the request. */
    method NextRequest()
      requires Valid() && mode == Handling(true)
      modifies this`openRequests, parser
      ensures ParserOk() && parser.Open() && pendingReads == 0 && openRequests == 0
      ensures announces == Announced(stale, handled) && parser.buffer == old(parser.buffer)
      ensures View() == Cleared(old(View())) && |parser.raw| < |old(parser.raw)|
      ensures Advance(parser.raw, START) == Advance(parser.raw, parser.CursorNow())
    {
      hide Intact, HeadIn, Advance, Announced;
      openRequests := openRequests - 1;
      parser.UnreadIntact();
      parser.ClearRequest();
    }
  }

  method KeepAliveOf(request: Request) returns (k: bool)
    ensures k == KeepsAlive(request) && (k <==> !request.malformed && !Closes(request))
  {
    KeepsAliveIs(request);
    hide Closes;
    if request.malformed { return false; }
    var connection := HeaderValue(request.fields, Ascii("connection"));
    var close := CiEqual(connection, Ascii("close"));
    return !close;
  }

  /** Request::header: the value of the first header with that name. */
  method HeaderValue(fields: seq<Field>, name: seq<byte>) returns (v: seq<byte>)
    ensures v == FirstValue(fields, name) && FirstNamed(fields, name, v)
  {
    FirstValueNamed(fields, name);
    hide FirstNamed;
    for i := 0 to |fields|
      invariant FirstValue(fields, name) == FirstValue(fields[i..], name)
    {
      var same := CiEqual(fields[i].name, name);
      if same { return fields[i].value; }
    }
    v := [];
  }

  lemma AnnouncedNext(stale: bool, handled: seq<Request>, r: Request)
    ensures Announced(stale, handled + [r]) == if r.malformed then Announced(stale, handled) else KeepsAlive(r)
  {
    assert (handled + [r])[..|handled|] == handled;
  }

  // ---------------------------------------------------------------- every run

  /** One client, from accept to the end of its stream or of the connection: `kernel` decides what each read brings,
      `sync` which handlers finish before they return; the others finish when the event loop comes round. Whatever
      they decide, the object goes where a run of the state machine goes. */
  method ServeClient(c: Connection, stream: seq<byte>, kernel: nat -> nat, sync: nat -> bool)
    returns (ghost events: seq<Event>)
    requires c.Valid() && c.mode.Stopped?
    modifies c, c.parser, c.parser.buffer
    ensures c.Valid() && c.stale == old(c.announces)
    ensures Possible(INITIAL, stream, events) && Settled(Run(INITIAL, stream, events))
    ensures c.View() == Run(INITIAL, stream, events).ss
    ensures AllFit(INITIAL, stream, events) ==> c.handled == Requests(stream)
    ensures (forall r :: r in Requests(stream) ==> !r.malformed) ==>
              (c.handled == Requests(stream) <==> AllFit(INITIAL, stream, events))
  {
    hide Coherent, Possible, Run, AllFit, Requests, Announced, Settled, Intact, HeadIn, Connection.ParserOk;
    c.Begin();
    events := [];
    var at, k := 0, 0;
    NoEvents(stream);
    while (c.mode.Reading? && at < |stream|) || c.mode.Handling?
      invariant at <= |stream| && c.Valid() && c.stale == old(c.announces) && c.mode != Stopped(true)
      invariant c.parser == old(c.parser) && (c.parser.buffer == old(c.parser.buffer) || fresh(c.parser.buffer))
      invariant Possible(INITIAL, stream, events) && Run(INITIAL, stream, events) == Outcome(c.View(), stream[at..])
      decreases |stream| - at, |c.parser.raw|, if c.mode.Stopped? then 0 else 1
    {
      var n;
      ghost var more;
      n, more := Turn(c, stream[at..], kernel(k), sync);
      RunConcat(INITIAL, stream, events, more);
      assert stream[at..][n..] == stream[at + n..];
      events, at, k := events + more, at + n, k + 1;
    }
    SettledWhen(stream, events);
    if AllFit(INITIAL, stream, events) { SettledRunIsOneShot(stream, events); }
    if forall r :: r in Requests(stream) ==> !r.malformed { FittingIsExact(stream, events); }
  }

  /** One turn of the event loop: a read, or the finish of the open request. */
  method Turn(c: Connection, input: seq<byte>, wish: nat, sync: nat -> bool) returns (n: nat, ghost events: seq<Event>)
    requires c.Valid() && ((c.mode.Reading? && input != []) || c.mode.Handling?)
    modifies c`mode, c`keepAlive, c`announces, c`handled, c`pendingReads, c`openRequests, c.parser, c.parser.buffer
    ensures c.Valid() && n <= |input| && c.mode != Stopped(true)
    ensures c.parser.buffer == old(c.parser.buffer) || fresh(c.parser.buffer)
    ensures Possible(old(c.View()), input, events)
    ensures Run(old(c.View()), input, events) == Outcome(c.View(), input[n..])
    ensures n > 0 || |c.parser.raw| < old(|c.parser.raw|) || (|c.parser.raw| == old(|c.parser.raw|) && c.mode.Stopped?)
  {
    hide Coherent, Settle, Possible, Run, Announced, Intact, HeadIn, Connection.ParserOk;
    if c.mode.Reading? {
      OfferedRoom(c);
      n := Clamp(wish, |input|, c.parser.bufferSize - c.parser.bufferEnd);
      events := ReadIsARun(c.View(), input, n, sync);
      c.ReadCB(input[..n], sync);
    } else {
      n := 0;
      events := FinishIsARun(c.View(), input, sync);
      c.RequestCompleted(sync);
    }
  }

  /** A parser always offers room for 2048 bytes. */
  lemma OfferedRoom(c: Connection)
    requires c.Valid() && c.mode.Reading?
    ensures c.parser.bufferSize - c.parser.bufferEnd >= 2048
  {
    hide Coherent, Announced;
  }

  lemma NoEvents(stream: seq<byte>)
    ensures Possible(INITIAL, stream, []) && Run(INITIAL, stream, []) == Outcome(INITIAL, stream[0..])
  {
  }

  lemma SettledWhen(stream: seq<byte>, events: seq<Event>)
    requires Possible(INITIAL, stream, events)
    ensures var o := Run(INITIAL, stream, events);
            (o.ss.mode.Reading? && o.input == []) || o.ss.mode == Stopped(false) ==> Settled(o)
  {
    hide Possible, Run;
  }

  /** A read and the handlers that finish at once. */
  lemma ReadIsARun(ss: Session, input: seq<byte>, n: nat, sync: nat -> bool) returns (events: seq<Event>)
    requires Coherent(ss) && ss.mode.Reading? && 0 < n <= |input|
    ensures Possible(ss, input, events)
    ensures Run(ss, input, events) == Outcome(Settle(Receive(ss, input[..n]), sync), input[n..])
    ensures Settle(Receive(ss, input[..n]), sync).mode != Stopped(true)
  {
    ReceiveCoherent(ss, input[..n]);
    SettleShrinks(Receive(ss, input[..n]), sync);
    var rest := SettleIsARun(Receive(ss, input[..n]), sync, input[n..]);
    events := [Recv(n)] + rest;
    assert events[1..] == rest;
    hide Coherent, Settle, Receive;
  }

  /** A finished request and the handlers that finish at once; less is buffered, or the connection is at its end. */
  lemma FinishIsARun(ss: Session, input: seq<byte>, sync: nat -> bool) returns (events: seq<Event>)
    requires Coherent(ss) && ss.mode.Handling?
    ensures Possible(ss, input, events) && Run(ss, input, events) == Outcome(Settle(Finish(ss), sync), input)
    ensures var r := Settle(Finish(ss), sync);
            r.mode != Stopped(true) && (|r.raw| < |ss.raw| || (|r.raw| == |ss.raw| && r.mode.Stopped?))
  {
    FinishCoherent(ss);
    SettleShrinks(Finish(ss), sync);
    assert !ss.mode.keepAlive ==> Settle(Finish(ss), sync) == Finish(ss);
    var rest := SettleIsARun(Finish(ss), sync, input);
    events := [FinishRequest] + rest;
    assert events[1..] == rest;
    hide Settle;
  }

  /** A new connection object and a stream below the size limit: the requests handed over are those of the stream, read
      as a whole, whatever the reads bring and whichever handlers finish at once. */
  method ServeShort(stream: seq<byte>, kernel: nat -> nat, sync: nat -> bool, garbage: bool)
    returns (handled: seq<Request>)
    requires |stream| < MAXREQUESTSIZE
    ensures handled == Requests(stream)
  {
    hide *;
    var c := new Connection(garbage);
    ghost var events := ServeClient(c, stream, kernel, sync);
    InitialIsCoherent();
    ShortStreamsFit(INITIAL, stream, events);
    handled := c.handled;
  }

  lemma InitialIsCoherent()
    ensures Coherent(INITIAL) && INITIAL.raw == []
  {
  }

  // ---------------------------------------------------------------- the size test depends on the reads

  /** One stream, read by two new connection objects in reads they offer room for. The first request is complete
      behind 6150 bytes; read up to there it is handed over as it is, read together with the next 2042 bytes it is
      malformed. */
  method SizeTestExample(pad: seq<byte>, filler: seq<byte>, garbage: bool)
    returns (short: seq<Request>, long: seq<Request>)
    requires |pad| == 6144 && CR !in pad && |filler| == 2042
    ensures |short| == 1 && !short[0].malformed && |long| == 1 && long[0].malformed
  {
    hide OneShot, Connection.Valid;
    var stream := BareRequest(pad) + filler;
    var head, rest := stream[..6144], stream[6144..];
    BareHeadHasNoCr(pad, filler);
    assert head + rest[..6] == BareRequest(pad);
    BareRequestIs(pad);
    var c := ReadHead(head, garbage);
    short := LastRead(c, rest[..6]);
    c := ReadHead(head, garbage);
    long := LastRead(c, rest);
  }

  lemma BareHeadHasNoCr(pad: seq<byte>, filler: seq<byte>)
    requires |pad| == 6144 && CR !in pad
    ensures |BareRequest(pad)| == 6150 && CR !in (BareRequest(pad) + filler)[..6144]
  {
    assert (BareRequest(pad) + filler)[..6144] == [SPACE, SPACE] + pad[..6142];
  }

  /** Three reads of 2048 bytes in which no line ends. */
  method ReadHead(head: seq<byte>, garbage: bool) returns (c: Connection)
    requires |head| == 6144 && CR !in head
    ensures fresh(c) && fresh(c.parser) && fresh(c.parser.buffer)
    ensures c.Valid() && c.mode.Reading? && c.parser.raw == head && c.handled == []
  {
    hide Coherent, Announced, Intact, HeadIn, Connection.ParserOk;
    c := new Connection(garbage);
    c.Begin();
    for i := 0 to 3
      invariant fresh(c) && fresh(c.parser) && fresh(c.parser.buffer)
      invariant c.Valid() && c.mode.Reading? && c.parser.raw == head[..2048 * i] && c.handled == []
    {
      var chunk := head[2048 * i..2048 * (i + 1)];
      assert head[..2048 * i] + chunk == head[..2048 * (i + 1)];
      NoCrIsPending(head[..2048 * (i + 1)]);
      ReceivePending(c.View(), chunk);
      OfferedRoom(c);
      NeverSync(Receive(c.View(), chunk));
      c.ReadCB(chunk, Later);
    }
    assert head[..6144] == head;
  }

  method LastRead(c: Connection, chunk: seq<byte>) returns (handled: seq<Request>)
    requires c.Valid() && c.mode.Reading? && 0 < |chunk| <= 2048
    requires |c.parser.raw| + |chunk| >= MAXREQUESTSIZE || OneShot(c.parser.raw + chunk).Complete?
    modifies c, c.parser, c.parser.buffer
    ensures |handled| == old(|c.handled|) + 1
    ensures old(|c.parser.raw|) + |chunk| >= MAXREQUESTSIZE ==> handled[old(|c.handled|)].malformed
    ensures old(|c.parser.raw|) + |chunk| < MAXREQUESTSIZE ==>
              handled[old(|c.handled|)] == OneShot(old(c.parser.raw) + chunk).request
  {
    hide Coherent, Announced, Intact, HeadIn, Connection.ParserOk, OneShot;
    ReceiveLast(c.View(), chunk);
    OfferedRoom(c);
    NeverSync(Receive(c.View(), chunk));
    c.ReadCB(chunk, Later);
    handled := c.handled;
  }

  /** No handler finishes before it returns. */
  predicate Later(n: nat) { false }

  lemma NeverSync(ss: Session)
    ensures Settle(ss, Later) == ss
  {
  }
}
