/** The WebSocket frame format of section 5.2 of RFC 6455 as the library reads and writes it, the masking of
    section 5.3, and the laws that connect reading and writing. */
module FrameSpec {
  import opened Bytes
  import opened Bits

  // ---------------------------------------------------------------- numbers in network byte order

  function BigEndian(s: seq<byte>): nat {
    if s == [] then 0 else BigEndian(s[..|s| - 1]) * 256 + s[|s| - 1]
  }

  /** The low k bytes of n, most significant first. */
  function ToBigEndian(n: nat, k: nat): (s: seq<byte>)
    ensures |s| == k
    decreases k
  {
    if k == 0 then [] else ToBigEndian(n / 256, k - 1) + [n % 256]
  }

  function Pow256(k: nat): (r: nat)
    ensures r > 0
  {
    if k == 0 then 1 else 256 * Pow256(k - 1)
  }

  lemma {:induction false} BigEndianRoundTrip(n: nat, k: nat)
    requires n < Pow256(k)
    ensures BigEndian(ToBigEndian(n, k)) == n
    decreases k
  {
    if k > 0 {
      var s := ToBigEndian(n, k);
      assert s[..|s| - 1] == ToBigEndian(n / 256, k - 1);
      BigEndianRoundTrip(n / 256, k - 1);
    }
  }

  // ---------------------------------------------------------------- masking

  /** Byte i is combined with byte i mod 4 of the key. */
  function Mask(data: seq<byte>, key: seq<byte>): (r: seq<byte>)
    requires |key| == 4
    ensures |r| == |data| && forall i :: 0 <= i < |data| ==> r[i] == XorByte(data[i], key[i % 4])
  {
    seq(|data|, i requires 0 <= i < |data| => XorByte(data[i], key[i % 4]))
  }

  lemma MaskTwice(data: seq<byte>, key: seq<byte>)
    requires |key| == 4
    ensures Mask(Mask(data, key), key) == data
  {
    forall i | 0 <= i < |data| ensures Mask(Mask(data, key), key)[i] == data[i] {
      XorByteTwice(data[i], key[i % 4]);
    }
  }

  // ---------------------------------------------------------------- reading one frame

  datatype Frame = Frame(data: seq<byte>, opcode: nat, fin: bool)

  /** Short: the header itself is not complete. Partial: `total` bytes are needed and not yet there. */
  datatype Parsed = Short | Partial(total: nat) | TooLarge | Complete(frame: Frame, size: nat)

  function LengthBytes(p: nat): nat {
    if p == 126 then 2 else if p == 127 then 8 else 0
  }

  /** Everything before the payload: two bytes, the extended length, the masking key. */
  function HeaderLen(b: byte): (n: nat)
    ensures 2 <= n <= 14
  {
    2 + LengthBytes(b % 128) + if b >= 128 then 4 else 0
  }

  function PayloadLen(s: seq<byte>): nat
    requires |s| >= 2 && |s| >= HeaderLen(s[1])
  {
    var p := s[1] % 128;
    if p < 126 then p else BigEndian(s[2..2 + LengthBytes(p)])
  }

  function ParseFrame(s: seq<byte>, max: nat): (r: Parsed)
    ensures r.Complete? ==> 2 <= r.size <= |s| && r.size <= max
    ensures r.Partial? ==> |s| < r.total <= max
    ensures r.Short? ==> |s| < 14
  {
    if |s| < 2 || |s| < HeaderLen(s[1]) then Short
    else
      var h := HeaderLen(s[1]);
      var total := h + PayloadLen(s);
      if total > max then TooLarge
      else if |s| < total then Partial(total)
      else
        var payload := if s[1] >= 128 then Mask(s[h..total], s[h - 4..h]) else s[h..total];
        Complete(Frame(payload, s[0] % 16, s[0] >= 128), total)
  }

  /** A frame that is complete, or refused, stays so when more bytes arrive; the size hint stays too. */
  lemma ParseFrameGrows(s: seq<byte>, t: seq<byte>, max: nat)
    ensures ParseFrame(s, max).Complete? || ParseFrame(s, max).TooLarge? ==>
              ParseFrame(s + t, max) == ParseFrame(s, max)
    ensures ParseFrame(s, max).Partial? ==>
              ParseFrame(s + t, max) == ParseFrame(s, max)
              || (ParseFrame(s + t, max).Complete? && ParseFrame(s + t, max).size == ParseFrame(s, max).total)
  {
    hide Mask, BigEndian, HeaderLen, PayloadLen;
    if |s| >= 2 && |s| >= HeaderLen(s[1]) {
      var h := HeaderLen(s[1]);
      PayloadLenGrows(s, t);
      var total := h + PayloadLen(s);
      if total <= |s| {
        SliceGrows(s, t, h, total);
        if s[1] >= 128 { HeaderLenMasked(s[1]); SliceGrows(s, t, h - 4, h); }
      }
    }
  }

  lemma HeaderLenMasked(b: byte)
    ensures b >= 128 ==> HeaderLen(b) >= 6
  {
  }

  lemma PayloadLenGrows(s: seq<byte>, t: seq<byte>)
    requires |s| >= 2 && |s| >= HeaderLen(s[1])
    ensures PayloadLen(s + t) == PayloadLen(s)
  {
    SliceGrows(s, t, 2, 2 + LengthBytes(s[1] % 128));
  }

  // ---------------------------------------------------------------- writing one frame

  function LengthField(len: nat): seq<byte> {
    if len <= 125 then [len]
    else if len <= 0xFFFF then [126] + ToBigEndian(len, 2)
    else [127] + ToBigEndian(len, 8)
  }

  /** The frame the writer produces: fin set, not masked, the shortest length form. */
  function Encode(opcode: int, payload: seq<byte>): seq<byte> {
    [128 + opcode % 16] + LengthField(|payload|) + payload
  }

  /** A written frame byte for byte: fin and opcode, the length in the shortest of its three forms, most significant
      byte first, and the payload. */
  lemma EncodeBytes(opcode: int, payload: seq<byte>)
    requires |payload| < 0x1_0000_0000
    ensures var n := |payload|;
            Encode(opcode, payload)
            == [128 + opcode % 16]
               + (if n <= 125 then [n]
                  else if n <= 65535 then [126, n / 256, n % 256]
                  else [127, 0, 0, 0, 0, n / 16777216, n / 65536 % 256, n / 256 % 256, n % 256])
               + payload
  {
    var n := |payload|;
    if n > 65535 { EightBytes(n); } else if n > 125 { TwoBytes(n); }
    hide ToBigEndian;
  }

  lemma TwoBytes(n: nat)
    requires n < 65536
    ensures ToBigEndian(n, 2) == [n / 256, n % 256]
  {
    assert ToBigEndian(n / 256 / 256, 0) == [];
    assert ToBigEndian(n / 256, 1) == [] + [n / 256 % 256];
  }

  lemma FourZeros()
    ensures ToBigEndian(0, 4) == [0, 0, 0, 0]
  {
  }

  lemma EightBytes(n: nat)
    requires n < 0x1_0000_0000
    ensures ToBigEndian(n, 8) == [0, 0, 0, 0, n / 16777216, n / 65536 % 256, n / 256 % 256, n % 256]
  {
    FourZeros();
    var a, b, c, d := n / 256, n / 65536, n / 16777216, n / 4294967296;
    assert a / 256 == b && b / 256 == c && c / 256 == d == 0;
    assert ToBigEndian(n, 8) == ToBigEndian(a, 7) + [n % 256];
    assert ToBigEndian(a, 7) == ToBigEndian(b, 6) + [a % 256];
    assert ToBigEndian(b, 6) == ToBigEndian(c, 5) + [b % 256];
    assert ToBigEndian(c, 5) == ToBigEndian(0, 4) + [c % 256];
    hide ToBigEndian;
  }

  /** Each byte is combined bit by bit with that byte of the key whose number is the remainder by four. */
  lemma MaskBits(data: seq<byte>, key: seq<byte>, i: nat, b: nat)
    requires |key| == 4 && i < |data| && b < 8
    ensures Bit(Mask(data, key)[i], b) == if Bit(data[i], b) == Bit(key[i % 4], b) then 0 else 1
  {
    XorBits(data[i], key[i % 4], 8, b);
    hide Xor, Bit;
  }

  /** Examples of section 5.7 of RFC 6455: the two fragments of a text message are read, and one whole text message
      and two binary ones are written, as the section has them. */
  lemma RfcFramesRead(max: nat)
    requires max >= 5
    ensures ParseFrame([0x01, 0x03, 0x48, 0x65, 0x6c], max) == Complete(Frame([72, 101, 108], 1, false), 5)
    ensures ParseFrame([0x80, 0x02, 0x6c, 0x6f], max) == Complete(Frame([108, 111], 0, true), 4)
  {
    FirstFragmentRead(max);
    LastFragmentRead(max);
    hide *;
  }

  lemma FirstFragmentRead(max: nat)
    requires max >= 5
    ensures ParseFrame([0x01, 0x03, 0x48, 0x65, 0x6c], max) == Complete(Frame([72, 101, 108], 1, false), 5)
  {
    var s: seq<byte> := [0x01, 0x03, 0x48, 0x65, 0x6c];
    assert HeaderLen(0x03) == 2 && PayloadLen(s) == 3;
    hide Mask, BigEndian, HeaderLen, PayloadLen;
    assert s[2..5] == [72, 101, 108];
  }

  lemma LastFragmentRead(max: nat)
    requires max >= 4
    ensures ParseFrame([0x80, 0x02, 0x6c, 0x6f], max) == Complete(Frame([108, 111], 0, true), 4)
  {
    var s: seq<byte> := [0x80, 0x02, 0x6c, 0x6f];
    assert HeaderLen(0x02) == 2 && PayloadLen(s) == 2;
    hide Mask, BigEndian, HeaderLen, PayloadLen;
    assert s[2..4] == [108, 111];
  }

  lemma RfcFramesWritten(payload: seq<byte>)
    ensures Encode(1, [72, 101, 108, 108, 111]) == [0x81, 0x05, 0x48, 0x65, 0x6c, 0x6c, 0x6f]
    ensures |payload| == 256 ==> Encode(2, payload) == [0x82, 0x7e, 0x01, 0x00] + payload
    ensures |payload| == 65536 ==>
              Encode(2, payload) == [0x82, 0x7f, 0x00, 0x00, 0x00, 0x00, 0x00, 0x01, 0x00, 0x00] + payload
  {
    EncodeBytes(1, [72, 101, 108, 108, 111]);
    if |payload| == 256 || |payload| == 65536 { EncodeBytes(2, payload); }
    hide Encode;
  }

  /** A masked frame as a client sends it, with any length form wide enough and any fin bit. */
  function EncodeMasked(opcode: int, fin: bool, form: nat, key: seq<byte>, payload: seq<byte>): seq<byte>
    requires |key| == 4 && FormFits(form, |payload|)
  {
    [FirstByte(opcode, fin)] + MaskedLengthField(form, |payload|) + key + Mask(payload, key)
  }

  function FirstByte(opcode: int, fin: bool): byte { (if fin then 128 else 0) + opcode % 16 }

  function MaskedLengthField(form: nat, len: nat): (s: seq<byte>)
    requires FormFits(form, len)
    ensures |s| == 1 + form
  {
    if form == 0 then [128 + len]
    else if form == 2 then [254] + ToBigEndian(len, 2)
    else [255] + ToBigEndian(len, 8)
  }

  /** The 7-bit, 16-bit and 64-bit forms take 0, 2 and 8 extra bytes. */
  predicate FormFits(form: nat, len: nat) {
    (form == 0 && len <= 125) || (form == 2 && len < 0x1_0000) || (form == 8 && len < 0x1_0000_0000_0000_0000)
  }

  /** A masked frame byte for byte: the mask bit is the highest of the second byte, and the key stands in front of the
      payload. */
  lemma EncodeMaskedBytes(opcode: int, fin: bool, form: nat, key: seq<byte>, payload: seq<byte>)
    requires |key| == 4 && FormFits(form, |payload|) && |payload| < 0x1_0000_0000
    ensures var n := |payload|;
            EncodeMasked(opcode, fin, form, key, payload)
            == [(if fin then 128 else 0) + opcode % 16]
               + (if form == 0 then [128 + n]
                  else if form == 2 then [254, n / 256, n % 256]
                  else [255, 0, 0, 0, 0, n / 16777216, n / 65536 % 256, n / 256 % 256, n % 256])
               + key + Mask(payload, key)
  {
    var n := |payload|;
    if form == 2 { TwoBytes(n); } else { EightBytes(n); }
    hide ToBigEndian, Mask;
  }

  /** Whatever follows it, an encoded frame reads back as it was written, exactly when it is within the limit. */
  lemma EncodeRoundTrip(opcode: int, payload: seq<byte>, rest: seq<byte>, max: nat)
    requires |payload| < 0x1_0000_0000_0000_0000
    ensures var size := |Encode(opcode, payload)|;
            ParseFrame(Encode(opcode, payload) + rest, max)
            == if size <= max then Complete(Frame(payload, opcode % 16, true), size) else TooLarge
  {
    hide HeaderLen, PayloadLen, ToBigEndian, LengthField;
    var s, f, n := Encode(opcode, payload) + rest, LengthField(|payload|), |payload|;
    assert s == [128 + opcode % 16] + f + (payload + rest);
    LengthFieldReadsBack(n, 128 + opcode % 16, payload + rest);
    if 1 + |f| + n <= max {
      assert s[1 + |f|..1 + |f| + n] == payload;
    }
  }

  lemma LengthFieldReadsBack(n: nat, b: byte, tail: seq<byte>)
    requires n < 0x1_0000_0000_0000_0000
    ensures var f := LengthField(n);
            var s := [b] + f + tail;
            |f| >= 1 && s[1] < 128 && HeaderLen(s[1]) == 1 + |f| && PayloadLen(s) == n
  {
    hide ToBigEndian, BigEndian;
    if n > 125 {
      ExtendedLength(n, if n <= 0xFFFF then 2 else 8, b, if n <= 0xFFFF then 126 else 127, tail);
    }
  }

  /** The k length bytes at offset 2 read back as the number written there. */
  lemma ExtendedLength(n: nat, k: nat, b: byte, c: byte, tail: seq<byte>)
    requires (k == 2 && n <= 0xFFFF) || (k == 8 && n < 0x1_0000_0000_0000_0000)
    ensures var s := [b] + ([c] + ToBigEndian(n, k)) + tail; s[1] == c && BigEndian(s[2..2 + k]) == n
  {
    hide ToBigEndian, BigEndian;
    var s := [b] + ([c] + ToBigEndian(n, k)) + tail;
    assert s[2..2 + k] == ToBigEndian(n, k);
    Pow256Values();
    BigEndianRoundTrip(n, k);
  }

  lemma Pow256Values()
    ensures Pow256(2) == 0x1_0000 && Pow256(8) == 0x1_0000_0000_0000_0000
  {
    assert Pow256(4) == 0x1_0000_0000;
    assert Pow256(6) == 0x1_0000_0000_0000;
  }

  /** A masked frame is decoded to the payload the client masked. */
  lemma MaskedRoundTrip(opcode: int, fin: bool, form: nat, key: seq<byte>, payload: seq<byte>, rest: seq<byte>,
                        max: nat)
    requires |key| == 4 && FormFits(form, |payload|)
    ensures var e := EncodeMasked(opcode, fin, form, key, payload);
            |e| == 6 + form + |payload| &&
            ParseFrame(e + rest, max)
            == if |e| <= max then Complete(Frame(payload, opcode % 16, fin), |e|) else TooLarge
  {
    hide FirstByte, MaskedLengthField, ParseFrame, HeaderLen, PayloadLen, Mask, FormFits, ToBigEndian;
    var masked, front := Mask(payload, key), [FirstByte(opcode, fin)] + MaskedLengthField(form, |payload|);
    var e := EncodeMasked(opcode, fin, form, key, payload);
    assert e == front + key + masked;
    hide *;
    MaskTwice(payload, key);
    MaskedParts(front, key, masked, rest);
    MaskedHeaderReadsBack(|payload|, form, front[0], key + masked + rest);
    WholeMaskedFrame(e + rest, max, 6 + form, |payload|);
    FirstByteReadsBack(opcode, fin);
  }

  lemma FirstByteReadsBack(opcode: int, fin: bool)
    ensures FirstByte(opcode, fin) % 16 == opcode % 16 && (FirstByte(opcode, fin) >= 128 <==> fin)
  {
  }

  lemma MaskedParts(front: seq<byte>, key: seq<byte>, masked: seq<byte>, rest: seq<byte>)
    requires |key| == 4
    ensures var s, h := front + key + masked + rest, |front| + 4;
            s == front + (key + masked + rest) && s[h - 4..h] == key && s[h..h + |masked|] == masked
  {
    Regroup(front, key, masked, rest);
    Middle(front, key, masked + rest);
    Middle(front + key, masked, rest);
  }

  lemma WholeMaskedFrame(s: seq<byte>, max: nat, h: nat, n: nat)
    requires |s| >= 2 && s[1] >= 128 && 4 <= h == HeaderLen(s[1]) && h + n <= |s| && PayloadLen(s) == n
    ensures ParseFrame(s, max)
         == if h + n <= max then Complete(Frame(Mask(s[h..h + n], s[h - 4..h]), s[0] % 16, s[0] >= 128), h + n)
            else TooLarge
  {
    hide Mask, PayloadLen, HeaderLen;
  }

  lemma MaskedHeaderReadsBack(n: nat, form: nat, b: byte, tail: seq<byte>)
    requires FormFits(form, n) && |tail| >= 4
    ensures var s := [b] + MaskedLengthField(form, n) + tail;
            s[1] >= 128 && HeaderLen(s[1]) == 6 + form && PayloadLen(s) == n
  {
    hide ToBigEndian, BigEndian;
    if form != 0 { ExtendedLength(n, form, b, if form == 2 then 254 else 255, tail); }
  }

  // ---------------------------------------------------------------- draining a buffer, in pieces or at once

  /** What repeated calls of process get out of `s`; `refused` when the last call threw. */
  datatype Drained = Drained(frames: seq<Frame>, rest: seq<byte>, refused: bool)

  function Drain(s: seq<byte>, max: nat): Drained
    decreases |s|
  {
    match ParseFrame(s, max)
    case Complete(f, n) => var d := Drain(s[n..], max); d.(frames := [f] + d.frames)
    case other => Drained([], s, other.TooLarge?)
  }

  /** Draining early and then the rest is draining everything at the end. */
  lemma {:induction false} DrainAppend(s: seq<byte>, t: seq<byte>, max: nat)
    ensures var d := Drain(s, max);
            Drain(s + t, max) ==
              if d.refused then d.(rest := d.rest + t)
              else var e := Drain(d.rest + t, max); e.(frames := d.frames + e.frames)
    decreases |s|
  {
    hide ParseFrame;
    ParseFrameGrows(s, t, max);
    var p := ParseFrame(s, max);
    if p.Complete? {
      var rest := s[p.size..];
      assert (s + t)[p.size..] == rest + t;
      DrainAppend(rest, t, max);
      var d, e := Drain(rest, max), Drain(Drain(rest, max).rest + t, max);
      assert [p.frame] + (d.frames + e.frames) == ([p.frame] + d.frames) + e.frames;
    } else {
      assert [] + Drain(s + t, max).frames == Drain(s + t, max).frames;
    }
  }

  /** Receive the chunks one by one, draining after each, as the reading loop does; stop at a refusal. */
  function Feed(pending: seq<byte>, chunks: seq<seq<byte>>, max: nat): Drained
    decreases |chunks|
  {
    if chunks == [] then Drained([], pending, false)
    else
      var d := Drain(pending + chunks[0], max);
      if d.refused then d
      else var e := Feed(d.rest, chunks[1..], max); e.(frames := d.frames + e.frames)
  }

  /** Chunking independence: the frames delivered depend on the bytes, not on the cuts. */
  lemma {:induction false} FeedIsDrain(pending: seq<byte>, chunks: seq<seq<byte>>, max: nat)
    requires Drain(pending, max) == Drained([], pending, false)
    ensures Feed(pending, chunks, max).frames == Drain(pending + Flatten(chunks), max).frames
    ensures Feed(pending, chunks, max).refused == Drain(pending + Flatten(chunks), max).refused
    decreases |chunks|
  {
    if chunks == [] {
      assert pending + Flatten(chunks) == pending;
    } else {
      var s, t := pending + chunks[0], Flatten(chunks[1..]);
      assert pending + Flatten(chunks) == s + t;
      DrainAppend(s, t, max);
      var d := Drain(s, max);
      if !d.refused {
        DrainRest(s, max);
        FeedIsDrain(d.rest, chunks[1..], max);
      }
    }
  }

  lemma {:induction false} DrainRest(s: seq<byte>, max: nat)
    ensures !Drain(s, max).refused ==>
              Drain(Drain(s, max).rest, max) == Drained([], Drain(s, max).rest, false)
    decreases |s|
  {
    match ParseFrame(s, max)
    case Complete(f, n) => DrainRest(s[n..], max);
    case _ =>
  }

  // ---------------------------------------------------------------- streams of frames

  datatype Message = Message(opcode: int, payload: seq<byte>)

  function EncodeAll(ms: seq<Message>): seq<byte> {
    if ms == [] then [] else Encode(ms[0].opcode, ms[0].payload) + EncodeAll(ms[1..])
  }

  /** The frames a receiver should see: opcode in four bits, fin set. */
  function FramesOf(ms: seq<Message>): seq<Frame> {
    if ms == [] then [] else [Frame(ms[0].payload, ms[0].opcode % 16, true)] + FramesOf(ms[1..])
  }

  /** The largest frame limit the parser can serve: its buffer size is an int, see WebSocketParser.SafeLimit. */
  const SAFE_LIMIT := 0x2000_0000

  predicate AllWithin(ms: seq<Message>, max: nat) {
    forall m :: m in ms ==> |Encode(m.opcode, m.payload)| <= max
  }

  lemma {:induction false} EncodeAllDrains(ms: seq<Message>, max: nat)
    requires AllWithin(ms, max) && max <= SAFE_LIMIT
    ensures Drain(EncodeAll(ms), max) == Drained(FramesOf(ms), [], false)
    decreases |ms|
  {
    if ms != [] {
      var e := Encode(ms[0].opcode, ms[0].payload);
      assert |ms[0].payload| < |e| <= max;
      EncodeRoundTrip(ms[0].opcode, ms[0].payload, EncodeAll(ms[1..]), max);
      assert (e + EncodeAll(ms[1..]))[|e|..] == EncodeAll(ms[1..]);
      EncodeAllDrains(ms[1..], max);
    }
  }

  /** Messages written one after another, sent as one stream and received in any chunks, arrive as they were. */
  lemma StreamRoundTrip(ms: seq<Message>, chunks: seq<seq<byte>>, max: nat)
    requires AllWithin(ms, max) && max <= SAFE_LIMIT
    requires Flatten(chunks) == EncodeAll(ms)
    ensures Feed([], chunks, max).frames == FramesOf(ms) && !Feed([], chunks, max).refused
  {
    assert [] + Flatten(chunks) == EncodeAll(ms);
    FeedIsDrain([], chunks, max);
    EncodeAllDrains(ms, max);
  }

  // ---------------------------------------------------------------- streams of masked frames

  /** A frame as a client sends it: section 5.3 of RFC 6455. */
  datatype ClientFrame = ClientFrame(opcode: int, fin: bool, form: nat, key: seq<byte>, payload: seq<byte>)

  predicate Sendable(m: ClientFrame, max: nat) {
    |m.key| == 4 && FormFits(m.form, |m.payload|) && 6 + m.form + |m.payload| <= max
  }

  predicate AllSendable(ms: seq<ClientFrame>, max: nat) {
    forall m :: m in ms ==> Sendable(m, max)
  }

  function EncodeClient(m: ClientFrame, max: nat): seq<byte>
    requires Sendable(m, max)
  {
    EncodeMasked(m.opcode, m.fin, m.form, m.key, m.payload)
  }

  function EncodeMaskedAll(ms: seq<ClientFrame>, max: nat): seq<byte>
    requires AllSendable(ms, max)
  {
    if ms == [] then [] else EncodeClient(ms[0], max) + EncodeMaskedAll(ms[1..], max)
  }

  /** What the client meant: opcode in four bits, its own fin bit, the payload before masking. */
  function OriginalsOf(ms: seq<ClientFrame>): seq<Frame> {
    if ms == [] then [] else [Frame(ms[0].payload, ms[0].opcode % 16, ms[0].fin)] + OriginalsOf(ms[1..])
  }

  lemma {:induction false} EncodeMaskedAllDrains(ms: seq<ClientFrame>, max: nat)
    requires AllSendable(ms, max)
    ensures Drain(EncodeMaskedAll(ms, max), max) == Drained(OriginalsOf(ms), [], false)
    decreases |ms|
  {
    if ms != [] {
      var m, rest := ms[0], EncodeMaskedAll(ms[1..], max);
      var e := EncodeClient(m, max);
      MaskedRoundTrip(m.opcode, m.fin, m.form, m.key, m.payload, rest, max);
      EncodeMaskedAllDrains(ms[1..], max);
      hide EncodeMasked, ParseFrame, Sendable;
      assert (e + rest)[|e|..] == rest;
    }
  }

  /** Masked frames with any keys, length forms and fin bits, sent as one stream and received in any chunks, are
      delivered with the payloads the client masked. */
  lemma MaskedStreamRoundTrip(ms: seq<ClientFrame>, chunks: seq<seq<byte>>, max: nat)
    requires AllSendable(ms, max) && max <= SAFE_LIMIT
    requires Flatten(chunks) == EncodeMaskedAll(ms, max)
    ensures Feed([], chunks, max).frames == OriginalsOf(ms) && !Feed([], chunks, max).refused
  {
    assert [] + Flatten(chunks) == EncodeMaskedAll(ms, max);
    FeedIsDrain([], chunks, max);
    EncodeMaskedAllDrains(ms, max);
  }
}
