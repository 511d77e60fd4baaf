/** The frame writer as a state machine: two buffers, one of which may be in flight, and the laws that hold in
    every interleaving of appends, flushes and completions. */
module WriterSpec {
  import opened Bytes
  import opened FrameSpec

  /** `current` is being appended to; `other` is in flight while `writing`. */
  datatype Writer = Writer(sent: seq<byte>, current: seq<byte>, other: seq<byte>,
                           writing: bool, queued: bool, closed: bool)

  const FRESH := Writer([], [], [], false, false, false)

  function Appended(w: Writer, m: Message): Writer {
    w.(current := w.current + Encode(m.opcode, m.payload))
  }

  /** beginFlush: a flush that finds a write in flight is remembered; otherwise the buffers change places. */
  function Flushed(w: Writer): Writer {
    if w.writing then w.(queued := true)
    else if w.current == [] then w
    else w.(writing := true, current := w.other, other := w.current)
  }

  /** The completion of the write: the buffer in flight is emptied, and a remembered flush is carried out. */
  function Completed(w: Writer, ok: bool): Writer {
    var w1 := w.(other := [], writing := false);
    if !ok then w1.(closed := true)
    else
      var w2 := w1.(sent := w.sent + w.other);
      if w2.queued then Flushed(w2.(queued := false)) else w2
  }

  // ---------------------------------------------------------------- runs

  datatype Event = Append(m: Message) | Flush | Done(ok: bool)

  function Apply(w: Writer, e: Event): Writer {
    match e
    case Append(m) => Appended(w, m)
    case Flush => Flushed(w)
    case Done(ok) => Completed(w, ok)
  }

  function Run(events: seq<Event>): Writer {
    if events == [] then FRESH else Apply(Run(events[..|events| - 1]), events[|events| - 1])
  }

  /** A completion needs a write. */
  predicate Possible(events: seq<Event>) {
    events == [] ||
    (var before, e := events[..|events| - 1], events[|events| - 1];
     Possible(before) && (e.Done? ==> Run(before).writing))
  }

  function MessagesOf(events: seq<Event>): seq<Message> {
    if events == [] then []
    else
      var before, e := events[..|events| - 1], events[|events| - 1];
      if e.Append? then MessagesOf(before) + [e.m] else MessagesOf(before)
  }

  /** The messages appended before the latest flush. */
  function FlushedMessages(events: seq<Event>): seq<Message> {
    if events == [] then []
    else if events[|events| - 1].Flush? then MessagesOf(events)
    else FlushedMessages(events[..|events| - 1])
  }

  predicate Failed(events: seq<Event>) { Done(false) in events }

  function InFlight(w: Writer): seq<byte> { if w.writing then w.other else [] }

  function Accounted(w: Writer): seq<byte> { w.sent + InFlight(w) + w.current }

  /** `all` is everything appended so far, `due` how much of it the latest flush covered. */
  predicate Sound(w: Writer, all: seq<byte>, due: nat) {
    && (w.writing <==> w.other != [])
    && (w.queued && !w.closed ==> w.writing)
    && due <= |all|
    && (if w.closed then |Accounted(w)| < |all| else Accounted(w) == all)
    && (!w.closed ==> due <= |w.sent| + |InFlight(w)| || (w.writing && w.queued))
  }

  lemma AppendSound(w: Writer, all: seq<byte>, due: nat, m: Message)
    requires Sound(w, all, due)
    ensures Sound(Appended(w, m), all + Encode(m.opcode, m.payload), due)
  {
  }

  lemma FlushSound(w: Writer, all: seq<byte>, due: nat)
    requires Sound(w, all, due)
    ensures Sound(Flushed(w), all, |all|)
  {
  }

  lemma DoneSound(w: Writer, all: seq<byte>, due: nat, ok: bool)
    requires Sound(w, all, due) && w.writing
    ensures Sound(Completed(w, ok), all, due)
  {
  }

  lemma EncodeAllAppend(ms: seq<Message>, m: Message)
    ensures EncodeAll(ms + [m]) == EncodeAll(ms) + Encode(m.opcode, m.payload)
  {
    if ms == [] {
      assert EncodeAll([m]) == Encode(m.opcode, m.payload) + EncodeAll([]);
    } else {
      assert (ms + [m])[1..] == ms[1..] + [m];
      EncodeAllAppend(ms[1..], m);
    }
  }

  lemma ClosedStep(w: Writer, e: Event)
    ensures Apply(w, e).closed == (w.closed || e == Done(false))
  {
  }

  lemma {:induction false} RunSound(events: seq<Event>)
    requires Possible(events)
    ensures Sound(Run(events), EncodeAll(MessagesOf(events)), |EncodeAll(FlushedMessages(events))|)
    ensures Run(events).closed <==> Failed(events)
  {
    if events != [] {
      hide Sound, EncodeAll, Appended, Flushed, Completed;
      var before, e := events[..|events| - 1], events[|events| - 1];
      RunSound(before);
      assert events == before + [e];
      ClosedStep(Run(before), e);
      var w, all, due := Run(before), EncodeAll(MessagesOf(before)), |EncodeAll(FlushedMessages(before))|;
      match e
      case Append(m) =>
        EncodeAllAppend(MessagesOf(before), m);
        AppendSound(w, all, due, m);
      case Flush => FlushSound(w, all, due);
      case Done(ok) => DoneSound(w, all, due, ok);
    }
  }

  /** Conservation: bytes sent, in flight and buffered are exactly the appended frames, in order, and only a
      failed write changes that; the buffer that is not current is empty whenever nothing is being written. */
  lemma Conservation(events: seq<Event>)
    requires Possible(events)
    ensures Accounted(Run(events)) == EncodeAll(MessagesOf(events)) <==> !Failed(events)
    ensures !Run(events).writing ==> Run(events).other == []
  {
    RunSound(events);
  }

  lemma {:induction false} FlushedIsPrefix(events: seq<Event>)
    ensures FlushedMessages(events) <= MessagesOf(events)
    ensures EncodeAll(FlushedMessages(events)) <= EncodeAll(MessagesOf(events))
  {
    if events != [] {
      var before := events[..|events| - 1];
      FlushedIsPrefix(before);
      var e := events[|events| - 1];
      if e.Append? { EncodeAllAppend(MessagesOf(before), e.m); }
    }
  }

  /** No lost flush: before any failure, when no write is outstanding everything flushed has been sent; while
      one is outstanding it is sent, in flight, or waiting for a flush that the completion will carry out. */
  lemma NoLostFlush(events: seq<Event>)
    requires Possible(events) && !Failed(events)
    ensures var w, due := Run(events), EncodeAll(FlushedMessages(events));
            && (!w.writing ==> due <= w.sent)
            && (w.writing && !w.queued ==> due <= w.sent + w.other)
            && (w.writing && w.queued ==> due <= w.sent + w.other + w.current)
  {
    RunSound(events);
    FlushedIsPrefix(events);
  }

  /** From the writer through any stream to the parser: before a failure, whatever cuts the stream into reads, the
      receiver has the first of the messages appended, in order; all that were flushed when no write is outstanding,
      and all of them when nothing is left in the buffers. */
  lemma EndToEnd(events: seq<Event>, chunks: seq<seq<byte>>, max: nat)
    requires Possible(events) && !Failed(events)
    requires AllWithin(MessagesOf(events), max) && max <= SAFE_LIMIT
    requires Flatten(chunks) == Run(events).sent
    ensures var w, got := Run(events), Feed([], chunks, max);
            && !got.refused && got.frames <= FramesOf(MessagesOf(events))
            && (!w.writing ==> FramesOf(FlushedMessages(events)) <= got.frames)
            && (!w.writing && w.current == [] ==> got.frames == FramesOf(MessagesOf(events)))
  {
    hide *;
    var w, all := Run(events), MessagesOf(events);
    SentSoFar(events);
    FlushedIsPrefix(events);
    WithinPrefix(FlushedMessages(events), all, max);
    NothingDrains(max);
    assert [] + w.sent == w.sent;
    FeedIsDrain([], chunks, max);
    PartOfStream(w.sent, all, max);
    if !w.writing { WholeInStream(w.sent, FlushedMessages(events), max); }
    if w.sent == EncodeAll(all) { EncodeAllDrains(all, max); }
  }

  lemma SentSoFar(events: seq<Event>)
    requires Possible(events) && !Failed(events)
    ensures var w, all := Run(events), EncodeAll(MessagesOf(events));
            && w.sent <= all && (!w.writing ==> EncodeAll(FlushedMessages(events)) <= w.sent)
            && (!w.writing && w.current == [] ==> w.sent == all)
  {
    hide Run, Possible, Failed, EncodeAll, MessagesOf, FlushedMessages;
    RunSound(events);
    NoLostFlush(events);
  }

  lemma NothingDrains(max: nat)
    ensures Drain([], max) == Drained([], [], false)
  {
  }

  /** What has arrived of a stream of frames holds the first of them. */
  lemma PartOfStream(s: seq<byte>, ms: seq<Message>, max: nat)
    requires AllWithin(ms, max) && max <= SAFE_LIMIT && s <= EncodeAll(ms)
    ensures !Drain(s, max).refused && Drain(s, max).frames <= FramesOf(ms)
  {
    hide *;
    var rest := EncodeAll(ms)[|s|..];
    assert s + rest == EncodeAll(ms);
    DrainAppend(s, rest, max);
    EncodeAllDrains(ms, max);
  }

  /** A stream that starts with whole frames delivers them, whatever follows. */
  lemma WholeInStream(s: seq<byte>, ms: seq<Message>, max: nat)
    requires AllWithin(ms, max) && max <= SAFE_LIMIT && EncodeAll(ms) <= s
    ensures FramesOf(ms) <= Drain(s, max).frames
  {
    hide *;
    var rest := s[|EncodeAll(ms)|..];
    assert EncodeAll(ms) + rest == s;
    DrainAppend(EncodeAll(ms), rest, max);
    EncodeAllDrains(ms, max);
  }

  lemma WithinPrefix(ms: seq<Message>, all: seq<Message>, max: nat)
    requires ms <= all && AllWithin(all, max)
    ensures AllWithin(ms, max)
  {
    assert forall m :: m in ms ==> m in all;
  }
}
