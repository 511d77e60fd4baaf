/** The frame writer object: frames are built in place at the end of the current buffer while the other one may
    be in flight. Each method is the corresponding step of the writer's state machine. */
module FrameWriter {
  import opened Bytes
  import opened FrameSpec
  import opened StringBuilder
  import opened WriterSpec

  // ---------------------------------------------------------------- byte order

  /** A value as it lies in the memory of a little-endian machine. */
  function LittleEndian(n: nat, k: nat): (s: seq<byte>)
    ensures |s| == k
    decreases k
  {
    if k == 0 then [] else [n % 256] + LittleEndian(n / 256, k - 1)
  }

  function FromLittleEndian(s: seq<byte>): nat {
    if s == [] then 0 else s[0] + 256 * FromLittleEndian(s[1..])
  }

  /** htonl: the 32-bit value whose memory is v in network byte order. */
  function Htonl(v: nat): nat { FromLittleEndian(ToBigEndian(v, 4)) }

  /** htonll on a little-endian machine: the two halves converted and exchanged. */
  function Htonll(v: nat): nat {
    Htonl(v % 0x1_0000_0000) * 0x1_0000_0000 + Htonl(v / 0x1_0000_0000)
  }

  lemma {:induction false} LittleEndianRoundTrip(s: seq<byte>)
    ensures FromLittleEndian(s) < Pow256(|s|)
    ensures LittleEndian(FromLittleEndian(s), |s|) == s
  {
    if s != [] {
      LittleEndianRoundTrip(s[1..]);
      assert (s[0] + 256 * FromLittleEndian(s[1..])) % 256 == s[0];
      assert (s[0] + 256 * FromLittleEndian(s[1..])) / 256 == FromLittleEndian(s[1..]);
    }
  }

  lemma TimesPow256(b: nat, j: nat)
    requires j > 0
    ensures Pow256(j) == 256 * Pow256(j - 1) && b * Pow256(j) == 256 * (b * Pow256(j - 1))
  {
    var p := Pow256(j - 1);
    assert Pow256(j) == 256 * p;
    hide *;
    assert b * (256 * p) == 256 * (b * p);
  }

  lemma LastByte(q: nat, r: nat)
    requires r < 256
    ensures (256 * q + r) / 256 == q && (256 * q + r) % 256 == r
  {
  }

  lemma {:induction false} LittleEndianSplits(a: nat, b: nat, j: nat, k: nat)
    requires a < Pow256(j)
    ensures LittleEndian(b * Pow256(j) + a, j + k) == LittleEndian(a, j) + LittleEndian(b, k)
    decreases j
  {
    if j > 0 {
      TimesPow256(b, j);
      LastByte(b * Pow256(j - 1) + a / 256, a % 256);
      hide Pow256;
      LittleEndianSplits(a / 256, b, j - 1, k);
    }
  }

  lemma {:induction false} BigEndianSplits(a: nat, b: nat, j: nat, k: nat)
    requires b < Pow256(k)
    ensures ToBigEndian(a * Pow256(k) + b, j + k) == ToBigEndian(a, j) + ToBigEndian(b, k)
    decreases k
  {
    if k > 0 {
      TimesPow256(a, k);
      LastByte(a * Pow256(k - 1) + b / 256, b % 256);
      hide Pow256;
      BigEndianSplits(a, b / 256, j, k - 1);
    }
  }

  /** htonll stores a 64-bit length in network byte order. */
  lemma HtonllIsBigEndian(v: nat)
    requires v < 0x1_0000_0000_0000_0000
    ensures LittleEndian(Htonll(v), 8) == ToBigEndian(v, 8)
  {
    var low, high := v % 0x1_0000_0000, v / 0x1_0000_0000;
    Swaps(low);
    Swaps(high);
    hide Htonl, ToBigEndian, LittleEndian, Pow256;
    Pow256Of4();
    LittleEndianSplits(Htonl(high), Htonl(low), 4, 4);
    BigEndianSplits(high, low, 4, 4);
  }

  lemma Swaps(v: nat)
    ensures Htonl(v) < Pow256(4) && LittleEndian(Htonl(v), 4) == ToBigEndian(v, 4)
  {
    LittleEndianRoundTrip(ToBigEndian(v, 4));
  }

  lemma Pow256Of4()
    ensures Pow256(4) == 0x1_0000_0000
  {
  }

  // ---------------------------------------------------------------- the object

  function HeaderLength(len: nat): (n: nat)
    ensures n == 1 + |LengthField(len)|
  {
    2 + (if 125 < len <= 0xFFFF then 2 else 0) + (if len > 0xFFFF then 8 else 0)
  }

  lemma FrameInPlace(was: seq<byte>, at: nat, header: seq<byte>, n: nat)
    requires at + |header| + n <= |was|
    ensures (was[..at] + header + was[at + |header|..])[..at + |header| + n]
         == was[..at] + (header + was[at + |header|..at + |header| + n])
  {
  }

  lemma FrameWritten(was: seq<byte>, at: nat, opcode: int, payload: seq<byte>)
    requires var h := |[128 + opcode % 16] + LengthField(|payload|)|;
             at + h + |payload| <= |was| && payload == was[at + h..at + h + |payload|]
    ensures var header := [128 + opcode % 16] + LengthField(|payload|);
            (was[..at] + header + was[at + |header|..])[..at + |header| + |payload|]
              == was[..at] + Encode(opcode, payload)
  {
    hide LengthField;
    FrameInPlace(was, at, [128 + opcode % 16] + LengthField(|payload|), |payload|);
  }

  class FrameWriter {
    const buffer1: StringBuilder
    const buffer2: StringBuilder
    var appendingFrameBegin: nat
    var appendingFrameDataLen: nat
    var appendingFrameHeaderLen: nat
    var useBuffer2: bool
    var closed: bool
    var writing: bool
    var writeQueued: bool
    /** What successful writes have put on the stream. */
    ghost var sent: seq<byte>

    function CurrBuffer(): StringBuilder
      reads this
    {
      if useBuffer2 then buffer2 else buffer1
    }

    function OtherBuffer(): StringBuilder
      reads this
    {
      if useBuffer2 then buffer1 else buffer2
    }

    ghost predicate Valid()
      reads this, buffer1, buffer2
    {
      && buffer1 != buffer2 && buffer1.data != buffer2.data
      && buffer1.Valid() && buffer2.Valid()
    }

    ghost function View(): Writer
      requires Valid()
      reads this, buffer1, buffer2, buffer1.data, buffer2.data
    {
      Writer(sent, CurrBuffer().Contents(), OtherBuffer().Contents(), writing, writeQueued, closed)
    }

    /** Between beginAppend and endAppend: the frame's place is reserved at the end of the current buffer. */
    ghost predicate Appending()
      reads this, buffer1, buffer2
    {
      && appendingFrameBegin == CurrBuffer().len
      && appendingFrameHeaderLen == HeaderLength(appendingFrameDataLen)
      && appendingFrameBegin + appendingFrameHeaderLen + appendingFrameDataLen <= CurrBuffer().data.Length
    }

    constructor ()
      ensures Valid() && View() == FRESH
      ensures fresh(buffer1) && fresh(buffer2) && fresh(buffer1.data) && fresh(buffer2.data)
    {
      buffer1 := new StringBuilder();
      buffer2 := new StringBuilder();
      useBuffer2, closed, writing, writeQueued := false, false, false, false;
      sent := [];
    }

    /** Reserve space for a frame with `len` bytes of payload; returns where the caller puts the payload. */
    method BeginAppend(len: nat) returns (at: nat)
      requires Valid()
      modifies this`appendingFrameBegin, this`appendingFrameDataLen, this`appendingFrameHeaderLen, CurrBuffer()`data
      ensures Valid() && Appending() && View() == old(View())
      ensures appendingFrameDataLen == len && at == appendingFrameBegin + appendingFrameHeaderLen
      ensures CurrBuffer().data == old(CurrBuffer().data) || fresh(CurrBuffer().data)
    {
      var hdrlen := 2;
      if len > 125 && len <= 0xFFFF { hdrlen := hdrlen + 2; }
      if len > 0xFFFF { hdrlen := hdrlen + 8; }
      var start := CurrBuffer().BeginAppend(hdrlen + len);
      appendingFrameBegin := CurrBuffer().len;
      appendingFrameDataLen := len;
      appendingFrameHeaderLen := hdrlen;
      at := start + hdrlen;
    }

    /** Write the header in front of the payload and count the frame in. The other buffer is not touched. */
    method EndAppend(opcode: int)
      requires Valid() && Appending() && appendingFrameDataLen < 0x1_0000_0000
      modifies CurrBuffer()`data, CurrBuffer()`len, CurrBuffer().data
      ensures Valid()
      ensures var at := appendingFrameBegin + appendingFrameHeaderLen;
              var payload := old(CurrBuffer().data[at..at + appendingFrameDataLen]);
              View() == Appended(old(View()), Message(opcode, payload))
      ensures OtherBuffer().data == old(OtherBuffer().data)
      ensures CurrBuffer().data == old(CurrBuffer().data)
    {
      hide Appending, Appended, HeaderLength, Encode, View, Valid;
      ViewIs();
      AppendingIs();
      var b, other := CurrBuffer(), OtherBuffer();
      ghost var at := appendingFrameBegin + appendingFrameHeaderLen;
      ghost var payload := b.data[at..at + appendingFrameDataLen];
      AddFrame(b, appendingFrameDataLen, opcode);
      ViewFrom(b, other);
      AppendedIs(old(View()), Message(opcode, payload), View());
    }

    lemma ViewIs()
      requires Valid()
      ensures View() == Writer(sent, CurrBuffer().Contents(), OtherBuffer().Contents(), writing, writeQueued, closed)
      ensures CurrBuffer() != OtherBuffer() && CurrBuffer().data != OtherBuffer().data
      ensures CurrBuffer().Valid() && OtherBuffer().Valid()
    {
    }

    lemma ViewFrom(b: StringBuilder, other: StringBuilder)
      requires b == CurrBuffer() && other == OtherBuffer() && b != other && b.data != other.data
      requires b.Valid() && other.Valid()
      ensures Valid()
      ensures View() == Writer(sent, b.Contents(), other.Contents(), writing, writeQueued, closed)
    {
    }

    lemma AppendingIs()
      requires Appending()
      ensures appendingFrameBegin == CurrBuffer().len && appendingFrameHeaderLen == HeaderLength(appendingFrameDataLen)
      ensures CurrBuffer().len + HeaderLength(appendingFrameDataLen) + appendingFrameDataLen <= CurrBuffer().data.Length
    {
    }

    lemma AppendedIs(w: Writer, m: Message, r: Writer)
      requires r == w.(current := w.current + Encode(m.opcode, m.payload))
      ensures r == Appended(w, m)
    {
    }

    /** Write the header of the frame whose payload lies behind the end of a buffer, and count the frame in. */
    static method AddFrame(b: StringBuilder, n: nat, opcode: int)
      requires b.Valid() && n < 0x1_0000_0000 && b.len + HeaderLength(n) + n <= b.data.Length
      modifies b`data, b`len, b.data
      ensures b.Valid() && b.data == old(b.data)
      ensures var at := old(b.len) + HeaderLength(n);
              b.Contents() == old(b.Contents()) + Encode(opcode, old(b.data[at..at + n]))
    {
      hide LengthField, HeaderLength, Encode;
      ghost var was, header := b.data[..], [128 + opcode % 16] + LengthField(n);
      var end := b.len + HeaderLength(n) + n;
      WriteHeader(b, b.len, n, opcode);
      FrameWritten(was, b.len, opcode, was[b.len + |header|..end]);
      b.Resize(end);
      assert b.Contents() == b.data[..][..end];
    }

    /** The header of section 5.2 of RFC 6455: fin set, mask clear, the shortest length form. */
    static method WriteHeader(b: StringBuilder, at: nat, n: nat, opcode: int)
      requires n < 0x1_0000_0000 && at + HeaderLength(n) <= b.data.Length
      modifies b.data
      ensures b.data[..] == (var was, header := old(b.data[..]), [128 + opcode % 16] + LengthField(n);
                             was[..at] + header + was[at + HeaderLength(n)..])
    {
      hide ToBigEndian, LittleEndian, Htonll;
      var field := [n % 256];
      if n > 125 && n <= 0xFFFF {
        field := [126] + ToBigEndian(n, 2);
      } else if n > 0xFFFF {
        HtonllIsBigEndian(n);
        field := [127] + LittleEndian(Htonll(n), 8);
      }
      Poke(b.data, at, [128 + opcode % 16] + field);
    }

    static method Poke(a: array<byte>, at: nat, s: seq<byte>)
      requires at + |s| <= a.Length
      modifies a
      ensures a[..] == old(a[..])[..at] + s + old(a[..])[at + |s|..]
    {
      forall i | 0 <= i < |s| { a[at + i] := s[i]; }
    }

    /** Start writing the current buffer, unless a write is in flight: then remember to. */
    method BeginFlush()
      requires Valid()
      modifies this`writing, this`writeQueued, this`useBuffer2
      ensures Valid() && View() == Flushed(old(View()))
    {
      if writing {
        writeQueued := true;
        return;
      }
      if CurrBuffer().len <= 0 { return; }
      writing := true;
      useBuffer2 := !useBuffer2;
    }

    /** The completion of the write, called inside beginFlush or at any later time. */
    method WriteDone(r: int)
      requires Valid() && writing
      modifies this`writing, this`writeQueued, this`useBuffer2, this`closed, this`sent, OtherBuffer()`len
      ensures Valid() && View() == Completed(old(View()), r > 0)
    {
      ghost var flight := OtherBuffer().Contents();
      (if useBuffer2 then buffer1 else buffer2).Clear();
      writing := false;
      if r <= 0 {
        closed := true;
        return;
      }
      sent := sent + flight;
      if writeQueued {
        writeQueued := false;
        BeginFlush();
      }
    }
  }

  // ---------------------------------------------------------------- every run

  /** What a caller does with a message: reserve its place, put the payload there, and count it in. */
  method AppendMessage(w: FrameWriter, m: Message)
    requires w.Valid() && |m.payload| < 0x1_0000_0000
    modifies w, w.CurrBuffer(), w.CurrBuffer().data
    ensures w.Valid() && w.View() == Appended(old(w.View()), m)
    ensures w.OtherBuffer() == old(w.OtherBuffer()) && w.OtherBuffer().data == old(w.OtherBuffer().data)
    ensures w.CurrBuffer() == old(w.CurrBuffer())
    ensures w.CurrBuffer().data == old(w.CurrBuffer().data) || fresh(w.CurrBuffer().data)
  {
    hide Appended, FrameWriter.View, FrameWriter.Valid, FrameWriter.Appending;
    var at := w.BeginAppend(|m.payload|);
    FillPayload(w, at, m.payload);
    assert m == Message(m.opcode, w.CurrBuffer().data[at..at + |m.payload|]);
    w.EndAppend(m.opcode);
  }

  method FillPayload(w: FrameWriter, at: nat, payload: seq<byte>)
    requires w.Valid() && w.Appending() && at == w.appendingFrameBegin + w.appendingFrameHeaderLen
    requires |payload| == w.appendingFrameDataLen
    modifies w.CurrBuffer().data
    ensures w.Valid() && w.Appending() && w.View() == old(w.View())
    ensures w.CurrBuffer().data[at..at + |payload|] == payload
  {
    var b := w.CurrBuffer();
    ghost var was := b.Contents();
    forall i | 0 <= i < |payload| { b.data[at + i] := payload[i]; }
    assert b.Contents() == was;
  }

  /** One event of a run. */
  method OneEvent(w: FrameWriter, e: Event)
    requires w.Valid() && (e.Append? ==> |e.m.payload| < 0x1_0000_0000) && (e.Done? ==> w.View().writing)
    modifies w, w.buffer1, w.buffer2, w.buffer1.data, w.buffer2.data
    ensures w.Valid() && w.View() == Apply(old(w.View()), e)
    ensures w.buffer1.data == old(w.buffer1.data) || fresh(w.buffer1.data)
    ensures w.buffer2.data == old(w.buffer2.data) || fresh(w.buffer2.data)
  {
    hide Appended, Flushed, Completed;
    match e
    case Append(m) => AppendMessage(w, m);
    case Flush => w.BeginFlush();
    case Done(ok) => w.WriteDone(if ok then 1 else 0);
  }

  lemma RunStarts()
    ensures Run([]) == FRESH
  {
  }

  lemma {:induction false} RunStep(events: seq<Event>, n: nat)
    requires Possible(events) && n < |events|
    ensures events[n] in events && Run(events[..n + 1]) == Apply(Run(events[..n]), events[n])
    ensures events[n].Done? ==> Run(events[..n]).writing
    decreases |events|
  {
    hide Apply;
    if n < |events| - 1 {
      RunStep(events[..|events| - 1], n);
      assert events[..|events| - 1][..n] == events[..n] && events[..|events| - 1][..n + 1] == events[..n + 1];
    } else {
      assert events[..n + 1] == events && events[..n + 1][..n] == events[..n];
    }
  }

  /** Every run of the object, from a new writer: its view is what the state machine says. */
  method WriteAll(events: seq<Event>) returns (w: FrameWriter)
    requires Possible(events) && forall e :: e in events && e.Append? ==> |e.m.payload| < 0x1_0000_0000
    ensures fresh(w) && w.Valid() && w.View() == Run(events)
  {
    hide *;
    w := new FrameWriter();
    assert events[..0] == [] && events[..|events|] == events;
    RunStarts();
    for n := 0 to |events|
      invariant w.Valid() && w.View() == Run(events[..n])
      invariant fresh(w) && fresh(w.buffer1) && fresh(w.buffer2) && fresh(w.buffer1.data) && fresh(w.buffer2.data)
    {
      RunStep(events, n);
      OneEvent(w, events[n]);
    }
  }
}
