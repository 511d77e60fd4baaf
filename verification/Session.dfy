/** One connection as a state machine over received bytes and finished requests, and the theorem that what it
    hands to the application depends on the bytes alone, not on how they were cut into reads. */
module Session {
  import opened Bytes
  import opened HttpSpec
  import opened HttpReference

  /** Reading: one recv is outstanding. Handling: one request is with the application. */
  datatype Mode = Reading | Handling(keepAlive: bool) | Stopped(aborted: bool)

  /** `raw` holds the bytes of the current request and everything received behind it. */
  datatype Session = Session(raw: seq<byte>, cursor: Cursor, handled: seq<Request>, mode: Mode)

  const INITIAL := Session([], START, [], Reading)

  /** The value of the first header with that name; empty when there is none. */
  function FirstValue(fields: seq<Field>, name: seq<byte>): seq<byte> {
    if fields == [] then []
    else if CiEquals(fields[0].name, name) then fields[0].value
    else FirstValue(fields[1..], name)
  }

  /** A malformed request and one with `Connection: close` are the last of their connection. */
  predicate KeepsAlive(r: Request) {
    !r.malformed && !CiEquals(FirstValue(r.fields, Ascii("connection")), Ascii("close"))
  }

  lemma {:induction false} FirstValueNamed(fields: seq<Field>, name: seq<byte>)
    ensures FirstNamed(fields, name, FirstValue(fields, name))
    decreases |fields|
  {
    if fields != [] {
      CasingIs(fields[0].name, name);
      hide Casing, CiEquals;
      if !Casing(fields[0].name, name) {
        var rest, value := fields[1..], FirstValue(fields[1..], name);
        FirstValueNamed(rest, name);
        if k :| 0 <= k < |rest| && Casing(rest[k].name, name) && rest[k].value == value
                && forall l :: 0 <= l < k ==> !Casing(rest[l].name, name) {
          assert fields[k + 1] == rest[k];
        } else {
          assert forall l :: 0 < l < |fields| ==> fields[l] == rest[l - 1];
        }
      }
    }
  }

  /** The first field named connection, in any casing, has the value close, in any casing. */
  ghost predicate Closes(r: Request) {
    exists k :: 0 <= k < |r.fields| && Casing(r.fields[k].name, CONNECTION) && Casing(r.fields[k].value, CLOSE)
                && forall l :: 0 <= l < k ==> !Casing(r.fields[l].name, CONNECTION)
  }

  lemma KeepsAliveIs(r: Request)
    ensures KeepsAlive(r) <==> !r.malformed && !Closes(r)
  {
    var value := FirstValue(r.fields, CONNECTION);
    FirstValueNamed(r.fields, CONNECTION);
    ConnectionNames();
    CasingIs(value, CLOSE);
    assert Casing(value, CLOSE) ==> value != [];
    hide Casing, CiEquals, FirstValue, Ascii;
  }

  /** What ends a connection: a request that is malformed or closes is the last, whatever follows it; behind any
      other the requests of the rest follow. */
  lemma LastOrNot(s: seq<byte>, rest: seq<byte>)
    requires OneShot(s).Complete?
    ensures var r, n := OneShot(s).request, OneShot(s).size;
            && (r.malformed || Closes(r) ==> Requests(s + rest) == [r])
            && (!r.malformed && !Closes(r) ==> Requests(s + rest) == [r] + Requests(s[n..] + rest))
  {
    ParserRefinesOneShot(s);
    var step := Advance(s, START);
    FirstRequest(s, rest, step.c, step.body);
    KeepsAliveIs(OneShot(s).request);
    hide Closes, KeepsAlive, Requests, OneShot;
  }

  /** Finishing such a request stops the connection, and finishing any other goes on behind it. */
  lemma FinishStops(ss: Session, r: Request)
    requires ss.cursor.pos <= |ss.raw|
    ensures var h := Handed(ss, r);
            && (r.malformed || Closes(r) ==> Finish(h) == h.(mode := Stopped(false)))
            && (!r.malformed && !Closes(r) ==> Finish(h) == Dispatch(Cleared(h)))
  {
    KeepsAliveIs(r);
    hide Closes, KeepsAlive, Dispatch;
  }

  /** readRequest, then processRequest or startRead. */
  function Dispatch(ss: Session): (r: Session)
    requires ss.cursor.pos <= |ss.raw|
    ensures r.cursor.pos <= |r.raw| && r.raw == ss.raw && !r.mode.Stopped?
  {
    match Read(ss.raw, ss.cursor)
    case More(c) => ss.(cursor := c, mode := Reading)
    case Done(c, body) => Handed(ss.(cursor := c), RequestOf(c.head, body))
  }

  /** The request is with the application. */
  function Handed(ss: Session, request: Request): Session {
    ss.(handled := ss.handled + [request], mode := Handling(KeepsAlive(request)))
  }

  /** readCB with a positive byte count. */
  function Receive(ss: Session, chunk: seq<byte>): Session
    requires ss.cursor.pos <= |ss.raw|
  {
    Dispatch(ss.(raw := ss.raw + chunk))
  }

  /** requestCompleted. */
  function Finish(ss: Session): Session
    requires ss.mode.Handling? && ss.cursor.pos <= |ss.raw|
  {
    if !ss.mode.keepAlive then ss.(mode := Stopped(false)) else Dispatch(Cleared(ss))
  }

  /** clearRequest: the next request starts where the current one ended. */
  function Cleared(ss: Session): Session
    requires ss.cursor.pos <= |ss.raw|
  {
    ss.(raw := ss.raw[ss.cursor.pos..], cursor := Cursor(0, EMPTY_HEAD, ss.cursor.phase))
  }

  /** What every connection keeps, whatever it receives. */
  predicate Coherent(ss: Session) {
    && ss.cursor.pos <= |ss.raw|
    && (ss.mode.Reading? ==> Advance(ss.raw, START) == More(ss.cursor))
    && (ss.mode.Handling? && ss.mode.keepAlive ==> 6 <= ss.cursor.pos && ss.cursor.phase.ReadHeaders?)
  }

  lemma DispatchCoherent(ss: Session)
    requires ss.cursor.pos <= |ss.raw|
    requires Advance(ss.raw, START) == Advance(ss.raw, ss.cursor)
    ensures Coherent(Dispatch(ss))
  {
    ParserRefinesOneShot(ss.raw);
    RequestTakesSixBytes(ss.raw);
  }

  lemma ReceiveCoherent(ss: Session, chunk: seq<byte>)
    requires Coherent(ss) && ss.mode.Reading?
    ensures Coherent(Receive(ss, chunk))
  {
    AdvanceResumes(ss.raw, chunk, START);
    DispatchCoherent(ss.(raw := ss.raw + chunk));
  }

  lemma FinishCoherent(ss: Session)
    requires Coherent(ss) && ss.mode.Handling?
    ensures Coherent(Finish(ss))
  {
    if ss.mode.keepAlive { DispatchCoherent(Cleared(ss)); }
  }

  // ---------------------------------------------------------------- agreement with the one-shot reading

  /** The requests of a whole stream, read one-shot: up to the first that ends the connection. */
  function Requests(s: seq<byte>): seq<Request>
    decreases |s|
  {
    match OneShot(s)
    case Pending => []
    case Complete(r, n) => [r] + if KeepsAlive(r) then Requests(s[n..]) else []
  }

  /** Handled so far, and still to come from what is buffered and from `future`, make up the whole. */
  ghost predicate Exact(ss: Session, future: seq<byte>, whole: seq<Request>) {
    && Coherent(ss)
    && match ss.mode
       case Reading => whole == ss.handled + Requests(ss.raw + future)
       case Handling(keepAlive) =>
         whole == ss.handled + if keepAlive then Requests(ss.raw[ss.cursor.pos..] + future) else []
       case Stopped(aborted) => if aborted then ss.handled <= whole else ss.handled == whole
  }

  /** The connection was cut short by the size test: one malformed request ends a correct prefix. */
  ghost predicate CutShort(ss: Session, whole: seq<Request>) {
    && ss.handled != []
    && ss.handled[|ss.handled| - 1].malformed
    && ss.handled[..|ss.handled| - 1] <= whole
    && (ss.mode == Handling(false) || ss.mode.Stopped?)
  }

  lemma DispatchExact(ss: Session, future: seq<byte>, whole: seq<Request>)
    requires ss.cursor.pos <= |ss.raw|
    requires Advance(ss.raw, START) == Advance(ss.raw, ss.cursor)
    requires whole == ss.handled + Requests(ss.raw + future)
    ensures |ss.raw| < MAXREQUESTSIZE ==> Exact(Dispatch(ss), future, whole)
    ensures |ss.raw| >= MAXREQUESTSIZE ==> CutShort(Dispatch(ss), whole)
  {
    if |ss.raw| >= MAXREQUESTSIZE {
      assert Dispatch(ss).handled[..|ss.handled|] == ss.handled;
    } else {
      DispatchCoherent(ss);
      var step := Advance(ss.raw, START);
      if step.Done? {
        FirstRequest(ss.raw, future, step.c, step.body);
        SplitAppend(ss.handled, RequestOf(step.c.head, step.body), Requests(ss.raw + future));
      }
    }
  }

  /** A request that is complete in `s` is the first one of every longer stream. */
  lemma FirstRequest(s: seq<byte>, future: seq<byte>, c: Cursor, body: seq<byte>)
    requires Advance(s, START) == Done(c, body)
    ensures Requests(s + future)
         == var r := RequestOf(c.head, body); [r] + if KeepsAlive(r) then Requests(s[c.pos..] + future) else []
  {
    AdvanceDoneGrows(s, future, START);
    ParserRefinesOneShot(s + future);
    assert (s + future)[c.pos..] == s[c.pos..] + future;
  }

  lemma SplitAppend(handled: seq<Request>, r: Request, rest: seq<Request>)
    requires rest != [] && rest[0] == r
    ensures handled + rest == (handled + [r]) + rest[1..]
  {
  }

  // ---------------------------------------------------------------- runs

  datatype Event = Recv(n: nat) | FinishRequest | Abort

  /** What can happen next, with `input` the bytes the peer has yet to deliver. */
  predicate Enabled(ss: Session, input: seq<byte>, e: Event) {
    match e
    case Recv(n) => ss.mode.Reading? && 0 < n <= |input|
    case FinishRequest => ss.mode.Handling?
    case Abort => !ss.mode.Stopped?
  }

  /** No byte is buffered beyond the size limit when the parser is called. */
  predicate Fits(ss: Session, e: Event)
    requires ss.cursor.pos <= |ss.raw|
  {
    match e
    case Recv(n) => |ss.raw| + n < MAXREQUESTSIZE
    case FinishRequest => ss.mode == Handling(true) ==> |ss.raw| - ss.cursor.pos < MAXREQUESTSIZE
    case Abort => true
  }

  function Apply(ss: Session, input: seq<byte>, e: Event): Session
    requires Enabled(ss, input, e) && ss.cursor.pos <= |ss.raw|
  {
    match e
    case Recv(n) => Receive(ss, input[..n])
    case FinishRequest => Finish(ss)
    case Abort => ss.(mode := Stopped(true))
  }

  function Left(input: seq<byte>, e: Event): seq<byte> {
    if e.Recv? && e.n <= |input| then input[e.n..] else input
  }

  /** A run that is possible, and whether every step of it fits. */
  predicate Possible(ss: Session, input: seq<byte>, events: seq<Event>)
    requires Coherent(ss)
    decreases |events|
  {
    events == [] || (Enabled(ss, input, events[0]) &&
      (ApplyCoherent(ss, input, events[0]);
       Possible(Apply(ss, input, events[0]), Left(input, events[0]), events[1..])))
  }

  predicate AllFit(ss: Session, input: seq<byte>, events: seq<Event>)
    requires Coherent(ss) && Possible(ss, input, events)
    decreases |events|
  {
    events == [] || (Fits(ss, events[0]) &&
      (ApplyCoherent(ss, input, events[0]);
       AllFit(Apply(ss, input, events[0]), Left(input, events[0]), events[1..])))
  }

  datatype Outcome = Outcome(ss: Session, input: seq<byte>)

  function Run(ss: Session, input: seq<byte>, events: seq<Event>): (o: Outcome)
    requires Coherent(ss) && Possible(ss, input, events)
    ensures Coherent(o.ss)
    decreases |events|
  {
    if events == [] then Outcome(ss, input)
    else
      ApplyCoherent(ss, input, events[0]);
      Run(Apply(ss, input, events[0]), Left(input, events[0]), events[1..])
  }

  lemma NoStep(ss: Session, input: seq<byte>)
    requires Coherent(ss)
    ensures Possible(ss, input, []) && AllFit(ss, input, []) && Run(ss, input, []) == Outcome(ss, input)
  {
  }

  /** A run is its first event and the rest. */
  lemma RunStep(ss: Session, input: seq<byte>, events: seq<Event>)
    requires Coherent(ss) && events != []
    ensures Possible(ss, input, events) ==> Enabled(ss, input, events[0])
    ensures Enabled(ss, input, events[0]) ==>
      var e, rest := events[0], events[1..];
      var ss', input' := Apply(ss, input, e), Left(input, e);
      && Coherent(ss') && (Possible(ss, input, events) <==> Possible(ss', input', rest))
      && (Possible(ss, input, events) ==>
            && Run(ss, input, events) == Run(ss', input', rest)
            && (AllFit(ss, input, events) <==> Fits(ss, e) && AllFit(ss', input', rest)))
  {
    if Enabled(ss, input, events[0]) { ApplyCoherent(ss, input, events[0]); }
    hide Coherent, Apply, Enabled, Fits, Left;
  }

  /** Runs compose. */
  lemma {:induction false} RunConcat(ss: Session, input: seq<byte>, e1: seq<Event>, e2: seq<Event>)
    requires Coherent(ss) && Possible(ss, input, e1)
    requires Possible(Run(ss, input, e1).ss, Run(ss, input, e1).input, e2)
    ensures var o := Run(ss, input, e1);
            && Possible(ss, input, e1 + e2) && Run(ss, input, e1 + e2) == Run(o.ss, o.input, e2)
            && (AllFit(ss, input, e1 + e2) <==> AllFit(ss, input, e1) && AllFit(o.ss, o.input, e2))
    decreases |e1|
  {
    hide Apply, Left, Run, Possible, AllFit, Fits, Advance;
    if e1 == [] {
      assert [] + e2 == e2;
      NoStep(ss, input);
    } else {
      var e := e1[0];
      assert (e1 + e2)[0] == e && (e1 + e2)[1..] == e1[1..] + e2;
      RunStep(ss, input, e1);
      RunStep(ss, input, e1 + e2);
      RunConcat(Apply(ss, input, e), Left(input, e), e1[1..], e2);
    }
  }

  /** When everything there is to come stays below the size limit, every run fits. */
  lemma {:induction false} ShortStreamsFit(ss: Session, input: seq<byte>, events: seq<Event>)
    requires Coherent(ss) && Possible(ss, input, events) && |ss.raw| + |input| < MAXREQUESTSIZE
    ensures AllFit(ss, input, events)
    decreases |events|
  {
    if events != [] {
      ApplyCoherent(ss, input, events[0]);
      ShortStreamsFit(Apply(ss, input, events[0]), Left(input, events[0]), events[1..]);
    }
  }

  lemma ApplyCoherent(ss: Session, input: seq<byte>, e: Event)
    requires Coherent(ss) && Enabled(ss, input, e)
    ensures Coherent(Apply(ss, input, e))
  {
    match e
    case Recv(n) => ReceiveCoherent(ss, input[..n]);
    case FinishRequest => FinishCoherent(ss);
    case Abort =>
  }

  lemma StepExact(ss: Session, input: seq<byte>, e: Event, whole: seq<Request>)
    requires Exact(ss, input, whole) && Enabled(ss, input, e)
    ensures Fits(ss, e) ==> Exact(Apply(ss, input, e), Left(input, e), whole)
    ensures !Fits(ss, e) ==> CutShort(Apply(ss, input, e), whole)
  {
    match e
    case Recv(n) =>
      assert ss.raw + input == (ss.raw + input[..n]) + input[n..];
      AdvanceResumes(ss.raw, input[..n], START);
      DispatchExact(ss.(raw := ss.raw + input[..n]), input[n..], whole);
    case FinishRequest =>
      if ss.mode.keepAlive { DispatchExact(Cleared(ss), input, whole); }
    case Abort =>
  }

  /** Every possible run, of any length and any cutting: it stays exact while it fits; after the size test has
      fired there is one malformed request behind a correct prefix, and nothing more. */
  lemma {:induction false} RunExact(ss: Session, input: seq<byte>, events: seq<Event>, whole: seq<Request>)
    requires Coherent(ss) && Possible(ss, input, events)
    requires Exact(ss, input, whole) || CutShort(ss, whole)
    ensures var o := Run(ss, input, events);
            && (Exact(o.ss, o.input, whole) || CutShort(o.ss, whole))
            && (Exact(ss, input, whole) && AllFit(ss, input, events) ==> Exact(o.ss, o.input, whole))
    decreases |events|
  {
    if events == [] {
      NoStep(ss, input);
    } else {
      var e := events[0];
      RunStep(ss, input, events);
      if Exact(ss, input, whole) { StepExact(ss, input, e, whole); }
      hide Run, Possible, AllFit, Exact, Coherent;
      RunExact(Apply(ss, input, e), Left(input, e), events[1..], whole);
    }
  }

  /** A run that does not fit is cut short, from the first step that does not fit to its end. */
  lemma {:induction false} UnfitRunIsCutShort(ss: Session, input: seq<byte>, events: seq<Event>, whole: seq<Request>)
    requires Coherent(ss) && Possible(ss, input, events)
    requires CutShort(ss, whole) || (Exact(ss, input, whole) && !AllFit(ss, input, events))
    ensures CutShort(Run(ss, input, events).ss, whole)
    decreases |events|
  {
    if events != [] {
      var e := events[0];
      ApplyCoherent(ss, input, e);
      if !CutShort(ss, whole) { StepExact(ss, input, e, whole); }
      UnfitRunIsCutShort(Apply(ss, input, e), Left(input, e), events[1..], whole);
    }
  }

  /** The run has nothing left to do: all input is delivered and no request is open, or the connection ended itself. */
  predicate Settled(o: Outcome) {
    (o.ss.mode.Reading? && o.input == []) || o.ss.mode == Stopped(false)
  }

  /** A settled run whose reads fit handled exactly the requests of the one-shot reading of the stream. */
  lemma SettledRunIsOneShot(stream: seq<byte>, events: seq<Event>)
    requires Possible(INITIAL, stream, events) && AllFit(INITIAL, stream, events)
    requires Settled(Run(INITIAL, stream, events))
    ensures Run(INITIAL, stream, events).ss.handled == Requests(stream)
  {
    var o := Run(INITIAL, stream, events);
    assert [] + stream == stream;
    RunExact(INITIAL, stream, events, Requests(stream));
    if o.ss.mode.Reading? {
      assert o.ss.raw + [] == o.ss.raw;
      ParserRefinesOneShot(o.ss.raw);
    }
  }

  /** The condition is exact: when no request of the stream is malformed, a settled run hands over the requests of
      the one-shot reading if and only if its reads fit. */
  lemma FittingIsExact(stream: seq<byte>, events: seq<Event>)
    requires Possible(INITIAL, stream, events) && Settled(Run(INITIAL, stream, events))
    requires forall r :: r in Requests(stream) ==> !r.malformed
    ensures Run(INITIAL, stream, events).ss.handled == Requests(stream) <==> AllFit(INITIAL, stream, events)
  {
    if AllFit(INITIAL, stream, events) {
      SettledRunIsOneShot(stream, events);
    } else {
      var handled := Run(INITIAL, stream, events).ss.handled;
      assert [] + stream == stream;
      UnfitRunIsCutShort(INITIAL, stream, events, Requests(stream));
      assert handled[|handled| - 1] in handled;
    }
  }

  /** Chunking independence: two ways of cutting the same stream hand over the same requests. */
  lemma ChunkingIndependence(stream: seq<byte>, events1: seq<Event>, events2: seq<Event>)
    requires Possible(INITIAL, stream, events1) && AllFit(INITIAL, stream, events1)
    requires Possible(INITIAL, stream, events2) && AllFit(INITIAL, stream, events2)
    requires Settled(Run(INITIAL, stream, events1)) && Settled(Run(INITIAL, stream, events2))
    ensures Run(INITIAL, stream, events1).ss.handled == Run(INITIAL, stream, events2).ss.handled
  {
    SettledRunIsOneShot(stream, events1);
    SettledRunIsOneShot(stream, events2);
  }

  /** With no hypothesis on sizes: whatever happened, what was handled is a prefix of the one-shot reading,
      except that a last, malformed request may stand for the size test. */
  lemma EveryRunIsAPrefix(stream: seq<byte>, events: seq<Event>)
    requires Possible(INITIAL, stream, events)
    ensures var h := Run(INITIAL, stream, events).ss.handled;
            h <= Requests(stream) || (h != [] && h[|h| - 1].malformed && h[..|h| - 1] <= Requests(stream))
  {
    var whole := Requests(stream);
    InitialIsExact(stream);
    hide Possible, Run, Requests, Coherent, AllFit;
    RunExact(INITIAL, stream, events, whole);
  }

  lemma InitialIsExact(stream: seq<byte>)
    ensures Exact(INITIAL, stream, Requests(stream))
  {
    assert [] + stream == stream;
  }

  /** The size test is why the reads must fit: one read that brings too much at once makes malformed what
      a shorter read, ending anywhere behind the first request, hands over as it is. */
  lemma SizeTestDependsOnTheCut(ss: Session, chunk: seq<byte>, k: nat)
    requires Coherent(ss) && ss.mode.Reading?
    requires 0 < k <= |chunk| && |ss.raw| + k < MAXREQUESTSIZE <= |ss.raw| + |chunk|
    requires OneShot(ss.raw + chunk[..k]).Complete? && !OneShot(ss.raw + chunk[..k]).request.malformed
    ensures var short, long := Receive(ss, chunk[..k]).handled, Receive(ss, chunk).handled;
            && |short| == |long| == |ss.handled| + 1
            && short[|ss.handled|] == OneShot(ss.raw + chunk[..k]).request
            && long[|ss.handled|].malformed
  {
    AdvanceResumes(ss.raw, chunk[..k], START);
    ParserRefinesOneShot(ss.raw + chunk[..k]);
  }

  /** A read that completes nothing and reaches no limit. */
  lemma ReceivePending(ss: Session, chunk: seq<byte>)
    requires Coherent(ss) && ss.mode.Reading?
    requires |ss.raw| + |chunk| < MAXREQUESTSIZE && OneShot(ss.raw + chunk).Pending?
    ensures ss.cursor.pos <= |ss.raw|
    ensures var r := Receive(ss, chunk); r.mode.Reading? && r.raw == ss.raw + chunk && r.handled == ss.handled
  {
    AdvanceResumes(ss.raw, chunk, START);
    ParserRefinesOneShot(ss.raw + chunk);
  }

  /** A read that completes a request, or reaches the limit. */
  lemma ReceiveLast(ss: Session, chunk: seq<byte>)
    requires Coherent(ss) && ss.mode.Reading?
    requires |ss.raw| + |chunk| >= MAXREQUESTSIZE || OneShot(ss.raw + chunk).Complete?
    ensures ss.cursor.pos <= |ss.raw|
    ensures var h := Receive(ss, chunk).handled;
            && |h| == |ss.handled| + 1
            && (|ss.raw| + |chunk| >= MAXREQUESTSIZE ==> h[|ss.handled|].malformed)
            && (|ss.raw| + |chunk| < MAXREQUESTSIZE ==> h[|ss.handled|] == OneShot(ss.raw + chunk).request)
  {
    AdvanceResumes(ss.raw, chunk, START);
    ParserRefinesOneShot(ss.raw + chunk);
  }

  // ---------------------------------------------------------------- the Connection line

  /** response.keepAlive after these requests: the malformed branch of processRequest does not set it. */
  function Announced(stale: bool, handled: seq<Request>): bool {
    if handled == [] then stale
    else
      var r := handled[|handled| - 1];
      if r.malformed then Announced(stale, handled[..|handled| - 1]) else KeepsAlive(r)
  }

  /** All requests but the last kept the connection alive, and so did the last if another may come. */
  predicate Continued(ss: Session) {
    && (forall i :: 0 <= i < |ss.handled| - 1 ==> KeepsAlive(ss.handled[i]))
    && (ss.mode.Reading? && ss.handled != [] ==> KeepsAlive(ss.handled[|ss.handled| - 1]))
    && (ss.mode.Handling? ==> ss.handled != [] && ss.mode.keepAlive == KeepsAlive(ss.handled[|ss.handled| - 1]))
  }

  lemma ApplyContinued(ss: Session, input: seq<byte>, e: Event)
    requires Coherent(ss) && Enabled(ss, input, e) && Continued(ss)
    ensures Continued(Apply(ss, input, e))
  {
    hide KeepsAlive, Read;
  }

  lemma {:induction false} RunContinued(ss: Session, input: seq<byte>, events: seq<Event>)
    requires Coherent(ss) && Possible(ss, input, events) && Continued(ss)
    ensures Continued(Run(ss, input, events).ss)
    decreases |events|
  {
    if events == [] {
      NoStep(ss, input);
    } else {
      RunStep(ss, input, events);
      ApplyContinued(ss, input, events[0]);
      hide Continued, Run, Possible, AllFit, Coherent, Apply, Left;
      RunContinued(Apply(ss, input, events[0]), Left(input, events[0]), events[1..]);
    }
  }

  /** The last response announces what the connection then does, exactly when its request is well formed, or is the
      first of the connection and the response object was left at close. A later malformed request is answered
      with keep-alive although the connection closes. */
  lemma AnnouncementAgrees(stale: bool, stream: seq<byte>, events: seq<Event>)
    requires Possible(INITIAL, stream, events) && Run(INITIAL, stream, events).ss.handled != []
    ensures var h := Run(INITIAL, stream, events).ss.handled;
            var last := h[|h| - 1];
            Announced(stale, h) == KeepsAlive(last) <==> !last.malformed || (|h| == 1 && !stale)
  {
    RunContinued(INITIAL, stream, events);
  }

  // ---------------------------------------------------------------- handlers that finish at once

  /** The chain finish, requestCompleted, readRequest, processRequest as long as handlers finish synchronously;
      `sync` says whether the n-th request's handler does. It ends because each kept-alive request takes six bytes. */
  function Settle(ss: Session, sync: nat -> bool): Session
    decreases |ss.raw|, if ss.mode.Handling? then 1 else 0
  {
    if ss.mode.Handling? && Coherent(ss) && sync(|ss.handled|) then Settle(Finish(ss), sync) else ss
  }

  lemma SettleStep(ss: Session, sync: nat -> bool)
    requires Coherent(ss)
    ensures Settle(ss, sync) == if ss.mode.Handling? && sync(|ss.handled|) then Settle(Finish(ss), sync) else ss
  {
  }

  /** A synchronous chain is nothing but finish events, so every theorem on runs covers it. */
  lemma {:induction false} SettleIsARun(ss: Session, sync: nat -> bool, input: seq<byte>) returns (events: seq<Event>)
    requires Coherent(ss)
    ensures Possible(ss, input, events) && Run(ss, input, events) == Outcome(Settle(ss, sync), input)
    ensures forall e :: e in events ==> e.FinishRequest?
    decreases |ss.raw|, if ss.mode.Handling? then 1 else 0
  {
    events := [];
    if ss.mode.Handling? && sync(|ss.handled|) {
      FinishCoherent(ss);
      var rest := SettleIsARun(Finish(ss), sync, input);
      events := [FinishRequest] + rest;
      assert events[1..] == rest;
    }
  }

  lemma {:induction false} SettleShrinks(ss: Session, sync: nat -> bool)
    requires Coherent(ss)
    ensures var r := Settle(ss, sync);
            Coherent(r) && |r.raw| <= |ss.raw| && (r.mode.Stopped? ==> r.mode == Stopped(false) || r == ss)
    decreases |ss.raw|, if ss.mode.Handling? then 1 else 0
  {
    if ss.mode.Handling? && sync(|ss.handled|) {
      FinishCoherent(ss);
      SettleShrinks(Finish(ss), sync);
    }
  }
}
