/** The WebSocket frame parser object: a growable buffer, a size hint for the frame being received, and frames
    that are unmasked in place when, and only when, they are complete. */
module WebSocketParser {
  import opened Bytes
  import opened Bits
  import opened FrameSpec

  /** false / true with a frame / an exception. */
  datatype Outcome = NotReady | Ready(frame: Frame) | Refused

  /** 4096 doubled some number of times. */
  predicate Doubled(n: int)
    decreases n
  {
    n == 4096 || (n > 4096 && n % 2 == 0 && Doubled(n / 2))
  }

  /** No buffer size lies strictly between one and its double. */
  lemma {:induction false} DoubledGap(n: int, m: int)
    requires Doubled(n) && Doubled(m) && n < 2 * m
    ensures n <= m
    decreases m
  {
    if n > 4096 && m > 4096 { DoubledGap(n / 2, m / 2); }
  }

  // ---------------------------------------------------------------- the width of int

  /** The largest buffer size an int can hold. */
  const LARGEST := 0x4000_0000

  lemma {:induction false} DoubledTimes(k: nat)
    ensures Doubled(4096 * Pow2(k))
  {
    if k > 0 {
      DoubledTimes(k - 1);
      assert 4096 * Pow2(k) / 2 == 4096 * Pow2(k - 1);
    }
  }

  lemma LargestIsDoubled(n: int)
    requires Doubled(n) && n <= 0x7FFF_FFFF
    ensures Doubled(LARGEST) && n <= LARGEST
  {
    DoubledTimes(18);
    Pow2Of18();
    hide Doubled, Pow2;
    DoubledGap(n, LARGEST);
  }

  lemma Pow2Of18()
    ensures Pow2(18) == 0x4_0000
  {
    assert Pow2(6) == 64;
    assert Pow2(12) == 64 * Pow2(6);
  }

  /** Making room for n pending bytes of a frame of `hint` bytes takes a buffer size no int can hold. */
  predicate Overflows(size: int, n: int, hint: int) {
    n > 0 && (2 * n > size || 2 * hint > size) && (size == LARGEST || 2 * hint > LARGEST)
  }

  /** The size hint the parser has after failing to find a frame in `s`. */
  function HintOf(s: seq<byte>, max: nat): nat {
    match ParseFrame(s, max)
    case Partial(total) => total
    case _ => 0
  }

  predicate Unfinished(s: seq<byte>, max: nat) { ParseFrame(s, max).Short? || ParseFrame(s, max).Partial? }

  /** Whatever is pending, in a buffer of whatever size, there is room to be had for the rest of it. */
  ghost predicate Serves(max: nat) {
    forall size, s ::
      Doubled(size) && |s| <= size <= LARGEST && Unfinished(s, max) ==> !Overflows(size, |s|, HintOf(s, max))
  }

  /** Limits up to 2^29 are served; above, the first bytes of one frame are enough to overflow the buffer size. */
  lemma SafeLimit(max: nat)
    requires 0 < max < 0x4000_0000
    ensures Serves(max) <==> max <= SAFE_LIMIT
  {
    if max > SAFE_LIMIT {
      HugeHeader(max);
      assert Doubled(4096);
      assert Overflows(4096, |HUGE_HEADER|, HintOf(HUGE_HEADER, max));
    } else {
      forall size, s | Doubled(size) && |s| <= size <= LARGEST && Unfinished(s, max)
        ensures !Overflows(size, |s|, HintOf(s, max))
      {
        NoOverflow(size, s, max);
      }
    }
  }

  lemma NoOverflow(size: int, s: seq<byte>, max: nat)
    requires max <= SAFE_LIMIT && Doubled(size) && size <= LARGEST && Unfinished(s, max)
    ensures !Overflows(size, |s|, HintOf(s, max))
  {
    hide ParseFrame;
    DoubledAtLeast(size);
  }

  lemma DoubledAtLeast(n: int)
    requires Doubled(n)
    ensures n >= 4096
  {
  }

  /** The first ten bytes of an unmasked frame of 2^29 + 1. */
  const HUGE_HEADER: seq<byte> := [130] + LengthField(SAFE_LIMIT - 9)

  lemma HugeHeader(max: nat)
    requires SAFE_LIMIT < max
    ensures ParseFrame(HUGE_HEADER, max) == Partial(SAFE_LIMIT + 1) && |HUGE_HEADER| == 10
  {
    assert HUGE_HEADER + [] == HUGE_HEADER;
    LengthFieldReadsBack(SAFE_LIMIT - 9, 130, []);
    hide HeaderLen, PayloadLen, ToBigEndian;
  }

  /** With the default frame limit a buffer that has stayed bounded is at most 32768 bytes. */
  lemma DefaultBound(p: WebSocketParser)
    requires p.Valid() && p.Bounded() && p.maxFrameSize == 16384
    ensures p.bufferSize <= 32768
  {
    assert Doubled(8192);
    assert Doubled(32768);
    if p.bufferSize != 4096 { DoubledGap(p.bufferSize, 32768); }
  }

  lemma CompleteParts(s: seq<byte>, max: nat)
    requires ParseFrame(s, max).Complete?
    ensures |s| >= 2 && 2 <= HeaderLen(s[1]) <= |s| && (s[1] >= 128 ==> HeaderLen(s[1]) >= 6)
    ensures var c, h := ParseFrame(s, max), HeaderLen(s[1]);
            && c.size == h + PayloadLen(s) <= |s|
            && c.frame.opcode == s[0] % 16 && c.frame.fin == (s[0] >= 128)
            && c.frame.data == (if s[1] >= 128 then Mask(s[h..c.size], s[h - 4..h]) else s[h..c.size])
  {
    hide Mask, PayloadLen;
  }

  /** The frame at `begin`, said about the whole buffer. */
  lemma FrameInBuffer(whole: seq<byte>, begin: nat, end: nat, max: nat)
    requires begin <= end <= |whole| && ParseFrame(whole[begin..end], max).Complete?
    ensures begin + 2 <= end && whole[begin..end][0] == whole[begin] && whole[begin..end][1] == whole[begin + 1]
    ensures var s := whole[begin..end]; var h := HeaderLen(s[1]);
            h <= |s| && ParseFrame(s, max).size == h + PayloadLen(s) <= |s| && (s[1] >= 128 ==> h >= 6)
    ensures var s := whole[begin..end];
            ParseFrame(s, max).frame
            == Frame(PayloadIn(whole, begin + HeaderLen(s[1]), PayloadLen(s), s[1] >= 128), s[0] % 16, s[0] >= 128)
  {
    hide *;
    var s := whole[begin..end];
    CompleteParts(s, max);
    InPlace(whole, begin, end, HeaderLen(s[1]), ParseFrame(s, max).size, s[1] >= 128);
  }

  lemma InPlace(whole: seq<byte>, begin: nat, end: nat, h: nat, size: nat, masked: bool)
    requires begin <= end <= |whole| && h <= size <= end - begin && (masked ==> 4 <= h)
    ensures var s := whole[begin..end];
            PayloadIn(whole, begin + h, size - h, masked)
            == if masked then Mask(s[h..size], s[h - 4..h]) else s[h..size]
  {
    hide Mask;
    SubSlice(whole, begin, end, h, size);
    if masked { SubSlice(whole, begin, end, h - 4, h); }
  }

  /** The payload at `at`, unmasked if its frame is masked; the key is right in front of it. */
  function PayloadIn(whole: seq<byte>, at: nat, len: nat, masked: bool): seq<byte>
    requires (masked ==> 4 <= at) && at + len <= |whole|
  {
    if masked then Mask(whole[at..at + len], whole[at - 4..at]) else whole[at..at + len]
  }

  /** Overwriting the payload leaves what is behind the frame as it was. */
  lemma BehindFrame(whole: seq<byte>, begin: nat, end: nat, h: nat, payload: seq<byte>)
    requires begin + h + |payload| <= end <= |whole|
    ensures var now := whole[..begin + h] + payload + whole[begin + h + |payload|..];
            |now| == |whole| && now[begin + h + |payload|..end] == whole[begin..end][h + |payload|..]
  {
    SubSlice(whole, begin, end, h + |payload|, end - begin);
  }

  lemma TwiceDoubled(n: int)
    requires Doubled(n) && n < LARGEST
    ensures 4096 <= n && Doubled(2 * n) && 2 * n <= LARGEST
  {
    DoubledAtLeast(n);
    assert Doubled(2 * n);
    hide Doubled;
    LargestIsDoubled(2 * n);
  }

  /** The doubling loop of upsize, in the range of int: None when a doubling would leave it. */
  method GrownSize(size: int, minCapacity: int) returns (r: Option<int>)
    requires Doubled(size) && size <= LARGEST
    ensures r.None? <==> size == LARGEST || minCapacity > LARGEST
    ensures r.Some? ==>
      && Doubled(r.value) && r.value <= LARGEST && r.value >= 2 * size && r.value >= minCapacity
      && (r.value == 2 * size || r.value < 2 * minCapacity)
  {
    hide Doubled;
    if size >= LARGEST { return None; }
    TwiceDoubled(size);
    var grown := size * 2;
    while grown < minCapacity
      invariant Doubled(grown) && 0 < 2 * size <= grown <= LARGEST
      invariant grown == 2 * size || grown < 2 * minCapacity
      decreases minCapacity - grown
    {
      if grown >= LARGEST { return None; }
      TwiceDoubled(grown);
      grown := grown * 2;
    }
    r := Some(grown);
  }

  /** The frame read so far is less than a whole one, and this is the hint how much it needs. */
  predicate WaitsFor(p: Parsed, hint: int) {
    match p
    case Short => hint == 0
    case Partial(total) => hint == total
    case _ => false
  }

  class WebSocketParser {
    var buffer: array<byte>
    var bufferBegin: int
    var bufferEnd: int
    var bufferSize: int
    var currFrameSizeHint: int
    var maxFrameSize: int

    ghost predicate Valid()
      reads this
    {
      && 0 <= bufferBegin <= bufferEnd <= bufferSize == buffer.Length
      && Doubled(bufferSize) && bufferSize <= LARGEST
      && 0 <= currFrameSizeHint
      && 0 < maxFrameSize < 0x4000_0000
    }

    /** The bytes received and not yet delivered. */
    ghost function Pending(): seq<byte>
      requires 0 <= bufferBegin <= bufferEnd <= buffer.Length
      reads this, buffer
    {
      buffer[bufferBegin..bufferEnd]
    }

    /** process has returned false: what is left is less than a frame, and the hint tells how much it needs. */
    ghost predicate Waiting()
      requires Valid()
      reads this, buffer
    {
      WaitsFor(ParseFrame(Pending(), maxFrameSize), currFrameSizeHint)
    }

    /** How far the buffer may have grown. */
    ghost predicate Bounded()
      reads this
    {
      bufferSize == 4096 || bufferSize < 4 * maxFrameSize
    }

    constructor ()
      ensures Valid() && Waiting() && Bounded() && Pending() == [] && currFrameSizeHint == 0
      ensures bufferSize == 4096 && maxFrameSize == 16384 && fresh(buffer)
    {
      bufferSize := 4096;
      buffer := new byte[4096];
      bufferBegin, bufferEnd := 0, 0;
      currFrameSizeHint := 0;
      maxFrameSize := 1024 * 16;
    }

    /** A new buffer at least twice as large and at least `minCapacity`, no larger than doubling makes it; false,
        and nothing done, when the doubling would leave the range of int, which C++ leaves undefined. */
    method Upsize(minCapacity: int, n: nat) returns (ok: bool)
      requires Valid() && n == bufferEnd - bufferBegin
      modifies this`buffer, this`bufferSize
      ensures ok <==> old(bufferSize) != LARGEST && minCapacity <= LARGEST
      ensures !ok ==> buffer == old(buffer) && bufferSize == old(bufferSize)
      ensures ok ==>
        && bufferSize == buffer.Length <= LARGEST && Doubled(bufferSize) && fresh(buffer)
        && bufferSize >= 2 * old(bufferSize) && bufferSize >= minCapacity
        && (bufferSize == 2 * old(bufferSize) || bufferSize < 2 * minCapacity)
        && buffer[..n] == old(buffer[bufferBegin..bufferEnd])
    {
      hide Doubled;
      var size := GrownSize(bufferSize, minCapacity);
      if size.None? { return false; }
      var oldBuf := buffer;
      bufferSize := size.value;
      buffer := new byte[bufferSize];
      MemMove(buffer, oldBuf, bufferBegin, n);
      ok := true;
    }

    /** Make room: at least half the buffer is offered, and the frame being received will fit, unless that takes
        more than an int can say. */
    method BeginAddData() returns (at: int, room: int, ok: bool)
      requires Valid()
      modifies this`buffer, this`bufferSize, this`bufferBegin, this`bufferEnd, buffer
      ensures Valid() && Pending() == old(Pending())
      ensures buffer == old(buffer) || fresh(buffer)
      ensures ok <==> !old(Overflows(bufferSize, bufferEnd - bufferBegin, currFrameSizeHint))
      ensures ok ==>
        && bufferBegin == 0 && at == bufferEnd && room == bufferSize - bufferEnd && 2 * room >= bufferSize
        && (Pending() != [] ==> 2 * currFrameSizeHint <= bufferSize)
      ensures old(Waiting()) ==> Waiting()
      ensures old(Waiting() && Bounded()) ==> Bounded()
    {
      hide *;
      Parts();
      ghost var pending, size := Pending(), bufferSize;
      at, room, ok := 0, 0, true;
      var curRequestSize := bufferEnd - bufferBegin;
      if curRequestSize <= 0 {
        bufferEnd, bufferBegin := 0, 0;
      } else {
        ok := MoveToFront(curRequestSize);
        if ok {
          bufferBegin := 0;
          bufferEnd := curRequestSize;
        }
      }
      at, room := bufferEnd, bufferSize - bufferEnd;
      FromParts(pending);
      StillBounded(size);
    }

    lemma Parts()
      requires Valid()
      ensures 0 <= bufferBegin <= bufferEnd <= bufferSize == buffer.Length && bufferSize <= LARGEST
              && Doubled(bufferSize)
      ensures 0 <= currFrameSizeHint && 0 < maxFrameSize < 0x4000_0000
      ensures Pending() == buffer[bufferBegin..bufferEnd]
      ensures Waiting() <==> WaitsFor(ParseFrame(Pending(), maxFrameSize), currFrameSizeHint)
      ensures Bounded() <==> bufferSize == 4096 || bufferSize < 4 * maxFrameSize
      ensures bufferEnd <= bufferBegin ==> !Overflows(bufferSize, bufferEnd - bufferBegin, currFrameSizeHint)
    {
    }

    lemma FromParts(pending: seq<byte>)
      requires 0 <= bufferBegin <= bufferEnd <= bufferSize == buffer.Length && bufferSize <= LARGEST
               && Doubled(bufferSize)
      requires 0 <= currFrameSizeHint && 0 < maxFrameSize < 0x4000_0000 && buffer[bufferBegin..bufferEnd] == pending
      ensures Valid() && Pending() == pending
      ensures Waiting() <==> WaitsFor(ParseFrame(pending, maxFrameSize), currFrameSizeHint)
    {
    }

    /** The buffer has grown no more than the frame being received asks for. */
    lemma StillBounded(size: int)
      requires Valid()
      requires bufferSize == size || bufferSize < 4 * |Pending()| || bufferSize < 4 * currFrameSizeHint
      ensures (size == 4096 || size < 4 * maxFrameSize) && Waiting() ==> Bounded()
    {
      hide Doubled, ParseFrame;
      DoubledAtLeast(bufferSize);
    }

    /** Bring the pending bytes to the front of the buffer, or of a larger one. */
    method MoveToFront(n: nat) returns (ok: bool)
      requires Valid() && 0 < n == bufferEnd - bufferBegin
      modifies this`buffer, this`bufferSize, buffer
      ensures ok <==> !Overflows(old(bufferSize), n, currFrameSizeHint)
      ensures !ok ==> buffer == old(buffer) && bufferSize == old(bufferSize) && buffer[..] == old(buffer[..])
      ensures buffer == old(buffer) || fresh(buffer)
      ensures ok ==>
        && bufferSize == buffer.Length <= LARGEST && Doubled(bufferSize) && 2 * n <= bufferSize
        && (2 * currFrameSizeHint <= bufferSize) && buffer[..n] == old(buffer[bufferBegin..bufferEnd])
      ensures bufferSize == old(bufferSize) || bufferSize < 4 * n || bufferSize < 4 * currFrameSizeHint
    {
      hide Doubled;
      DoubledAtLeast(bufferSize);
      ok := true;
      if n * 2 > bufferSize || (currFrameSizeHint != 0 && currFrameSizeHint * 2 > bufferSize) {
        ok := Upsize(currFrameSizeHint * 2, n);
      } else if bufferBegin > 0 {
        MemMove(buffer, buffer, bufferBegin, n);
      }
    }

    method EndAddData(len: nat)
      requires Valid() && bufferEnd + len <= bufferSize
      modifies this`bufferEnd
      ensures Valid() && Pending() == old(Pending()) + buffer[old(bufferEnd)..old(bufferEnd) + len]
    {
      bufferEnd := bufferEnd + len;
    }

    /** Combine bytes [at, at + len) with the repeated key, in place. */
    method Unmask(at: nat, len: nat, key: seq<byte>)
      requires |key| == 4 && at + len <= buffer.Length
      modifies buffer
      ensures buffer[at..at + len] == Mask(old(buffer[at..at + len]), key)
      ensures buffer[..at] == old(buffer[..at]) && buffer[at + len..] == old(buffer[at + len..])
    {
      hide XorByte;
      ghost var was := buffer[..];
      for i := 0 to len
        invariant forall j :: 0 <= j < at || at + i <= j < buffer.Length ==> buffer[j] == was[j]
        invariant forall j :: at <= j < at + i ==> buffer[j] == XorByte(was[j], key[(j - at) % 4])
      {
        buffer[at + i] := XorByte(buffer[at + i], key[i % 4]);
      }
      var masked := Mask(was[at..at + len], key);
      assert forall j :: 0 <= j < len ==> buffer[at + j] == masked[j];
    }

    /** Unmask the payload where it lies. */
    method TakePayload(at: nat, len: nat, masked: bool) returns (payload: seq<byte>)
      requires 4 <= at || (0 <= at && !masked)
      requires at + len <= buffer.Length
      modifies buffer
      ensures payload == PayloadIn(old(buffer[..]), at, len, masked)
      ensures |payload| == len && buffer[..] == old(buffer[..])[..at] + payload + old(buffer[..])[at + len..]
    {
      hide Mask;
      if masked { Unmask(at, len, buffer[at - 4..at]); }
      payload := buffer[at..at + len];
      assert buffer[..] == buffer[..at] + buffer[at..at + len] + buffer[at + len..];
    }

    /** After a complete frame: it is behind bufferBegin, and of the old contents `was` of the buffer only its
        payload, which now reads as delivered, has changed. */
    ghost predicate Consumed(pending: seq<byte>, was: seq<byte>, begin: int, c: Parsed)
      requires Valid() && c.Complete? && c.size <= |pending|
      reads this, buffer
    {
      && currFrameSizeHint == 0
      && bufferBegin == begin + c.size && Pending() == pending[c.size..]
      && |was| == buffer.Length
      && var payload := bufferBegin - |c.frame.data|;
         && 0 <= begin <= payload
         && buffer[..] == was[..payload] + c.frame.data + was[bufferBegin..]
    }

    lemma IsConsumed(pending: seq<byte>, was: seq<byte>, begin: int, c: Parsed, h: nat)
      requires Valid() && c.Complete? && currFrameSizeHint == 0 && |was| == buffer.Length
      requires 0 <= begin && bufferBegin == begin + c.size && c.size == h + |c.frame.data|
      requires pending == was[begin..bufferEnd]
      requires buffer[..] == was[..begin + h] + c.frame.data + was[bufferBegin..]
      ensures Consumed(pending, was, begin, c)
    {
      BehindFrame(was, begin, bufferEnd, h, c.frame.data);
      assert Pending() == buffer[..][bufferBegin..bufferEnd];
    }

    /** Read one frame. Only a complete frame changes the buffer, and only within its payload. */
    method Process() returns (r: Outcome)
      requires Valid()
      modifies this`bufferBegin, this`currFrameSizeHint, buffer
      ensures Valid()
      ensures match ParseFrame(old(Pending()), maxFrameSize)
              case Complete(f, n) =>
                r == Ready(f) && Consumed(old(Pending()), old(buffer[..]), old(bufferBegin), Complete(f, n))
              case Partial(total) =>
                && r == NotReady && currFrameSizeHint == total
                && bufferBegin == old(bufferBegin) && buffer[..] == old(buffer[..])
              case Short =>
                && r == NotReady && currFrameSizeHint == old(currFrameSizeHint)
                && bufferBegin == old(bufferBegin) && buffer[..] == old(buffer[..])
              case TooLarge =>
                r == Refused && bufferBegin == old(bufferBegin) && buffer[..] == old(buffer[..])
    {
      hide Mask, HeaderLen, PayloadLen, Doubled;
      ghost var pending, whole := Pending(), buffer[..];
      var len := bufferEnd - bufferBegin;
      var header := ReadHeader();
      if header.None? { return NotReady; }
      var (minLen, payloadLen) := header.value;
      if payloadLen > maxFrameSize { return Refused; }
      currFrameSizeHint := minLen + payloadLen;
      if currFrameSizeHint > maxFrameSize { return Refused; }
      if len < currFrameSizeHint { return NotReady; }
      r := Deliver(minLen, payloadLen);
    }

    /** The lengths before and of the payload, once the whole header is there. */
    method ReadHeader() returns (r: Option<(nat, nat)>)
      requires Valid()
      ensures var s := Pending();
              if |s| < 2 || |s| < HeaderLen(s[1]) then r == None
              else r == Some((HeaderLen(s[1]), PayloadLen(s)))
    {
      var data := bufferBegin;
      var len := bufferEnd - bufferBegin;
      if len < 2 { return None; }
      var pLen1 := buffer[data + 1] % 128;
      var minLen := HeaderLen(buffer[data + 1]);
      if len < minLen { return None; }
      SubSlice(buffer[..], data, bufferEnd, 2, 2 + LengthBytes(pLen1));
      var payloadLen := if pLen1 < 126 then pLen1 else BigEndian(buffer[data + 2..data + 2 + LengthBytes(pLen1)]);
      return Some((minLen, payloadLen));
    }

    /** The frame is complete: unmask it where it lies, hand it out, and step over it. */
    method Deliver(minLen: nat, payloadLen: nat) returns (r: Outcome)
      requires Valid() && ParseFrame(Pending(), maxFrameSize).Complete?
      requires minLen == HeaderLen(Pending()[1]) && payloadLen == PayloadLen(Pending())
      requires currFrameSizeHint == minLen + payloadLen
      modifies this`bufferBegin, this`currFrameSizeHint, buffer
      ensures Valid()
      ensures var c := ParseFrame(old(Pending()), maxFrameSize);
              r == Ready(c.frame) && Consumed(old(Pending()), old(buffer[..]), old(bufferBegin), c)
    {
      hide *;
      Parts();
      ghost var whole, begin, c := buffer[..], bufferBegin, ParseFrame(Pending(), maxFrameSize);
      ghost var pending := whole[begin..bufferEnd];
      var frame := Fetch(minLen, payloadLen);
      bufferBegin := bufferBegin + currFrameSizeHint;
      currFrameSizeHint := 0;
      FromParts(buffer[bufferBegin..bufferEnd]);
      IsConsumed(pending, whole, begin, c, minLen);
      r := Ready(frame);
    }

    /** The frame at bufferBegin, its payload unmasked in place. */
    method Fetch(minLen: nat, payloadLen: nat) returns (frame: Frame)
      requires Valid() && ParseFrame(Pending(), maxFrameSize).Complete?
      requires minLen == HeaderLen(Pending()[1]) && payloadLen == PayloadLen(Pending())
      modifies buffer
      ensures var c := ParseFrame(old(Pending()), maxFrameSize);
              frame == c.frame && |frame.data| == payloadLen && c.size == minLen + payloadLen
      ensures bufferBegin + minLen + payloadLen <= bufferEnd
      ensures var was, at := old(buffer[..]), bufferBegin + minLen;
              buffer[..] == was[..at] + frame.data + was[at + payloadLen..]
    {
      hide PayloadIn, HeaderLen, PayloadLen, ParseFrame, Doubled, Mask;
      FrameInBuffer(buffer[..], bufferBegin, bufferEnd, maxFrameSize);
      var first, second := buffer[bufferBegin], buffer[bufferBegin + 1];
      var payload := TakePayload(bufferBegin + minLen, payloadLen, second >= 128);
      frame := Frame(payload, first % 16, first >= 128);
    }

    /** The reading loop's body once recv has delivered `chunk`: take it into view, then call process until it
        returns false. What it hands out depends on the bytes alone, and the parser is left waiting. */
    method Receive(chunk: seq<byte>) returns (frames: seq<Frame>, refused: bool)
      requires Valid() && Waiting() && |chunk| <= bufferSize - bufferEnd
      modifies this`bufferBegin, this`bufferEnd, this`currFrameSizeHint, buffer
      ensures Valid()
      ensures var d := Drain(old(Pending()) + chunk, maxFrameSize);
              frames == d.frames && Pending() == d.rest && refused == d.refused
      ensures !refused ==> Waiting()
    {
      hide ParseFrame, Doubled;
      forall i | 0 <= i < |chunk| { buffer[bufferEnd + i] := chunk[i]; }
      assert buffer[bufferEnd..bufferEnd + |chunk|] == chunk;
      assert Pending() == old(Pending());
      WaitingGrows(Pending(), chunk, maxFrameSize, currFrameSizeHint);
      EndAddData(|chunk|);
      frames, refused := DrainPending();
    }

    /** Call process until it returns false or throws. */
    method DrainPending() returns (frames: seq<Frame>, refused: bool)
      requires Valid()
      requires ParseFrame(Pending(), maxFrameSize).Short? ==> currFrameSizeHint == 0
      modifies this`bufferBegin, this`currFrameSizeHint, buffer
      ensures Valid()
      ensures Drain(old(Pending()), maxFrameSize) == Drained(frames, Pending(), refused)
      ensures !refused ==> Waiting()
    {
      hide ParseFrame, Doubled, Drain;
      ghost var all := Pending();
      frames, refused := [], false;
      while true
        invariant Valid() && !refused
        invariant Drain(all, maxFrameSize) == Prepend(frames, Drain(Pending(), maxFrameSize))
        invariant ParseFrame(Pending(), maxFrameSize).Short? ==> currFrameSizeHint == 0
        decreases |Pending()|
      {
        DrainStep(Pending(), maxFrameSize, frames);
        var r := Process();
        match r
        case NotReady => return;
        case Refused => refused := true; return;
        case Ready(f) => frames := frames + [f];
      }
    }
  }

  function Prepend(frames: seq<Frame>, d: Drained): Drained { d.(frames := frames + d.frames) }

  lemma DrainStep(s: seq<byte>, max: nat, before: seq<Frame>)
    ensures var p := ParseFrame(s, max);
            Prepend(before, Drain(s, max)) == if p.Complete? then Prepend(before + [p.frame], Drain(s[p.size..], max))
                                              else Drained(before, s, p.TooLarge?)
  {
    hide ParseFrame;
    var p := ParseFrame(s, max);
    if p.Complete? {
      assert before + ([p.frame] + Drain(s[p.size..], max).frames)
             == (before + [p.frame]) + Drain(s[p.size..], max).frames;
    } else {
      assert before + [] == before;
    }
  }

  /** More bytes never take a known frame size back. */
  lemma WaitingGrows(s: seq<byte>, t: seq<byte>, max: nat, hint: int)
    requires match ParseFrame(s, max) case Short => hint == 0 case Partial(n) => hint == n case _ => false
    ensures ParseFrame(s + t, max).Short? ==> hint == 0
  {
    ParseFrameGrows(s, t, max);
  }

  // ---------------------------------------------------------------- every run

  /** The documented reading loop over a whole stream, `kernel` deciding what each read brings. Whatever it brings,
      the parser hands out the frames of the stream, always has room, and stays bounded. */
  method ReceiveStream(p: WebSocketParser, stream: seq<byte>, kernel: nat -> nat)
    returns (frames: seq<Frame>, refused: bool)
    requires p.Valid() && p.Waiting() && p.Bounded() && p.maxFrameSize <= SAFE_LIMIT
    modifies p`buffer, p`bufferSize, p`bufferBegin, p`bufferEnd, p`currFrameSizeHint, p.buffer
    ensures p.Valid() && p.Bounded() && (!refused ==> p.Waiting())
    ensures var d := Drain(old(p.Pending()) + stream, p.maxFrameSize);
            frames == d.frames && refused == d.refused && (!refused ==> p.Pending() == d.rest)
    ensures p.maxFrameSize == 16384 ==> p.bufferSize <= 32768
  {
    hide ParseFrame, Doubled, Drain, Clamp, Overflows, WebSocketParser.Waiting;
    ghost var before, max := p.Pending(), p.maxFrameSize;
    var at, k := 0, 0;
    frames, refused := [], false;
    WaitingDrains(p);
    assert before + stream[..0] == before;
    while at < |stream| && !refused
      invariant at <= |stream| && p.maxFrameSize == max && p.Valid() && p.Bounded() && (!refused ==> p.Waiting())
      invariant p.buffer == old(p.buffer) || fresh(p.buffer)
      invariant var d := Drain(before + stream[..at], max);
                frames == d.frames && refused == d.refused && (!refused ==> p.Pending() == d.rest)
    {
      RoomToBeHad(p);
      var start, room, ok := p.BeginAddData();
      DoubledAtLeast(p.bufferSize);
      var n := Clamp(kernel(k), |stream| - at, room);
      DrainAppend(before + stream[..at], stream[at..at + n], max);
      assert before + stream[..at + n] == before + stream[..at] + stream[at..at + n];
      var more;
      more, refused := p.Receive(stream[at..at + n]);
      frames, at, k := frames + more, at + n, k + 1;
    }
    DrainAppend(before + stream[..at], stream[at..], max);
    assert before + stream[..at] + stream[at..] == before + stream;
    if at == |stream| { assert before + stream[..at] == before + stream; }
    if p.maxFrameSize == 16384 { DefaultBound(p); }
  }

  lemma WaitingDrains(p: WebSocketParser)
    requires p.Valid() && p.Waiting()
    ensures Drain(p.Pending(), p.maxFrameSize) == Drained([], p.Pending(), false)
  {
  }

  lemma RoomToBeHad(p: WebSocketParser)
    requires p.Valid() && p.Waiting() && p.maxFrameSize <= SAFE_LIMIT
    ensures !Overflows(p.bufferSize, p.bufferEnd - p.bufferBegin, p.currFrameSizeHint)
  {
    NoOverflow(p.bufferSize, p.Pending(), p.maxFrameSize);
  }

  lemma NothingWaits(p: WebSocketParser)
    requires p.Valid() && p.Pending() == [] && p.currFrameSizeHint == 0
    ensures p.Waiting()
  {
  }

  /** A client sends frames masked as section 5.3 of RFC 6455 says; a new parser with any limit it can serve, under
      any cutting into reads, hands out what the client meant. */
  method ReceiveClient(ms: seq<ClientFrame>, max: nat, kernel: nat -> nat) returns (frames: seq<Frame>, refused: bool)
    requires 0 < max <= SAFE_LIMIT && AllSendable(ms, max)
    ensures frames == OriginalsOf(ms) && !refused
  {
    hide OriginalsOf, EncodeMaskedAll, Drain;
    var p := new WebSocketParser();
    p.maxFrameSize := max;
    NothingWaits(p);
    var stream := EncodeMaskedAll(ms, max);
    EncodeMaskedAllDrains(ms, max);
    assert [] + stream == stream;
    frames, refused := ReceiveStream(p, stream, kernel);
  }

  lemma HeaderDrains(max: nat)
    requires SAFE_LIMIT < max
    ensures Drain(HUGE_HEADER, max) == Drained([], HUGE_HEADER, false)
  {
    HugeHeader(max);
    hide ParseFrame;
  }

  /** Above the limit: after the first ten bytes of one frame the next refill asks for a buffer no int can size. */
  method ReceiveHugeHeader(max: nat) returns (ok: bool)
    requires SAFE_LIMIT < max < 0x4000_0000
    ensures !ok
  {
    hide ParseFrame, Doubled;
    var p := new WebSocketParser();
    p.maxFrameSize := max;
    NothingWaits(p);
    HugeHeader(max);
    hide Drain;
    HeaderDrains(max);
    var at, room;
    at, room, ok := p.BeginAddData();
    DoubledAtLeast(p.bufferSize);
    assert [] + HUGE_HEADER == HUGE_HEADER;
    var frames, refused := p.Receive(HUGE_HEADER);
    at, room, ok := p.BeginAddData();
  }
}
