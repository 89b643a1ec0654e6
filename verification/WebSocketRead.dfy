/**
 * The read side of crow/websocket.h: the state machine of `do_read`, one completed socket read at
 * a time, and `handle_fragment`.
 */
module WebSocketRead {

  import opened Bits
  import opened Octets
  import opened Wrappers

  // Frames are those of section 5.2 of RFC 6455; the transport may hand over payload bytes in pieces of
  // any size.

  const BUFFER_SIZE: nat := 4096
  const TWO_64: nat := 0x1_0000_0000_0000_0000

  datatype ReadState = MiniHeader | Len16 | Len64 | Mask | Payload

  const CONTINUATION: byte := 0
  const TEXT: byte := 1
  const BINARY: byte := 2
  const CLOSE: byte := 8
  const PING: byte := 9
  const PONG: byte := 10

  /** What the message handler has been given, and the message being assembled. */
  datatype Inbox = Inbox(
    message: bytes, isBinary: bool, delivered: seq<(bytes, bool)>, pongsSent: seq<bytes>, pongReceived: bool)

  datatype Reader = Reader(
    state: ReadState, first: byte, hasMask: bool, mask: bytes, remaining: nat, fragment: bytes,
    inbox: Inbox, alive: bool)

  function Xor(a: byte, b: byte): byte {
    Pow2Values();
    BitsFit(a, b, 8);
    XorBits(a, b)
  }

  function Unmask(data: bytes, mask: bytes): (r: bytes)
    requires |mask| == 4
    ensures |r| == |data|
    ensures forall i :: 0 <= i < |data| ==> r[i] == Xor(data[i], mask[i % 4])
  {
    seq(|data|, i requires 0 <= i < |data| => Xor(data[i], mask[i % 4]))
  }

  /** Masking is its own inverse. */
  lemma UnmaskTwice(data: bytes, mask: bytes)
    requires |mask| == 4
    ensures Unmask(Unmask(data, mask), mask) == data
  {
    forall i | 0 <= i < |data| ensures Xor(Xor(data[i], mask[i % 4]), mask[i % 4]) == data[i] {
      XorTwice(data[i], mask[i % 4]);
    }
  }

  lemma XorTwice(a: byte, b: byte)
    ensures Xor(Xor(a, b), b) == a
  {
    XorBitsTwice(a, b);
  }

  function BigEndian(bs: bytes): nat {
    if bs == [] then 0 else BigEndian(bs[..|bs| - 1]) * 256 + bs[|bs| - 1]
  }

  predicate IsFin(first: byte) { first >= 0x80 }

  function Opcode(first: byte): byte { first % 0x10 }

  function AppendData(i: Inbox, fin: bool, data: bytes): Inbox {
    if fin then i.(message := [], delivered := i.delivered + [(i.message + data, i.isBinary)])
    else i.(message := i.message + data)
  }

  /** `handle_fragment` after unmasking, for frames other than Close. */
  function Handle(i: Inbox, fin: bool, opcode: byte, data: bytes): Inbox {
    if opcode == CONTINUATION then AppendData(i, fin, data)
    else if opcode == TEXT then AppendData(i.(isBinary := false), fin, data)
    else if opcode == BINARY then AppendData(i.(isBinary := true), fin, data)
    else if opcode == PING then i.(pongsSent := i.pongsSent + [data])
    else if opcode == PONG then i.(pongReceived := true)
    else i
  }

  function FragmentData(r: Reader): bytes
    requires r.hasMask ==> |r.mask| == 4
  {
    if r.hasMask then Unmask(r.fragment, r.mask) else r.fragment
  }

  /** A Close frame ends the reading: the answering Close is sent and the socket closed. */
  function HandleFragment(r: Reader): Reader
    requires r.hasMask ==> |r.mask| == 4
  {
    if Opcode(r.first) == CLOSE then r.(fragment := [], state := MiniHeader, alive := false)
    else
      var inbox := Handle(r.inbox, IsFin(r.first), Opcode(r.first), FragmentData(r));
      r.(fragment := [], state := MiniHeader, inbox := inbox)
  }

  /** Entering state Mask reads nothing yet: the length is checked, and an unmasked frame
      goes straight to its payload. */
  function EnterMask(r: Reader, maxPayload: nat): Reader {
    if r.remaining > maxPayload then r.(state := Mask, alive := false)
    else if r.hasMask then r.(state := Mask)
    else r.(state := Payload)
  }

  /** The reads the machine posts: fixed sizes for headers, up to a buffer of payload. */
  predicate Legal(r: Reader, bs: bytes) {
    && r.alive
    && match r.state
       case MiniHeader => |bs| == 2
       case Len16 => |bs| == 2
       case Len64 => |bs| == 8
       case Mask => |bs| == 4
       case Payload => |bs| <= r.remaining && |bs| <= BUFFER_SIZE && (bs == [] ==> r.remaining == 0)
                       && (r.hasMask ==> |r.mask| == 4)
  }

  /** One completed read. */
  function Consume(r: Reader, bs: bytes, maxPayload: nat): Reader
    requires Legal(r, bs)
  {
    match r.state
    case MiniHeader =>
      var r' := r.(first := bs[0], hasMask := bs[1] >= 0x80);
      var len := bs[1] % 0x80;
      if len == 127 then r'.(state := Len64)
      else if len == 126 then r'.(state := Len16)
      else EnterMask(r'.(remaining := len), maxPayload)
    case Len16 => EnterMask(r.(remaining := BigEndian(bs)), maxPayload)
    case Len64 => EnterMask(r.(remaining := BigEndian(bs)), maxPayload)
    case Mask => r.(mask := bs, state := Payload)
    case Payload =>
      var r' := r.(fragment := r.fragment + bs, remaining := r.remaining - |bs|);
      if r'.remaining == 0 then HandleFragment(r') else r'
  }

  /** The payload of the Close frame that a completed read ends with. */
  function CloseData(r: Reader, bs: bytes, maxPayload: nat): Option<bytes>
    requires Legal(r, bs)
  {
    if r.state.Payload? && !Consume(r, bs, maxPayload).alive then Some(FragmentData(r.(fragment := r.fragment + bs)))
    else None
  }

  /** A sequence of completed reads. */
  predicate LegalRun(r: Reader, chunks: seq<bytes>, maxPayload: nat)
    decreases |chunks|
  {
    chunks == [] || (Legal(r, chunks[0]) && LegalRun(Consume(r, chunks[0], maxPayload), chunks[1..], maxPayload))
  }

  function Run(r: Reader, chunks: seq<bytes>, maxPayload: nat): Reader
    requires LegalRun(r, chunks, maxPayload)
    decreases |chunks|
  {
    if chunks == [] then r else Run(Consume(r, chunks[0], maxPayload), chunks[1..], maxPayload)
  }

  function Concat(chunks: seq<bytes>): bytes {
    if chunks == [] then [] else chunks[0] + Concat(chunks[1..])
  }

  // ----- Frames on the wire (section 5.2 of RFC 6455) -----

  datatype LengthForm = SEVEN | SIXTEEN | SIXTY_FOUR

  datatype Frame = Frame(fin: bool, opcode: byte, form: LengthForm, mask: Option<bytes>, payload: bytes)

  predicate ValidFrame(f: Frame) {
    && f.opcode < 16
    && (f.mask.Some? ==> |f.mask.value| == 4)
    && match f.form
       case SEVEN => |f.payload| < 126
       case SIXTEEN => |f.payload| < 0x10000
       case SIXTY_FOUR => |f.payload| < TWO_64
  }

  /** `n` as `k` bytes, most significant first. */
  function Bytes(n: nat, k: nat): (r: bytes)
    ensures |r| == k
  {
    if k == 0 then [] else Bytes(n / 256, k - 1) + [n % 256]
  }

  function Pow256(k: nat): nat { if k == 0 then 1 else 256 * Pow256(k - 1) }

  lemma {:induction false} BytesDecode(n: nat, k: nat)
    requires n < Pow256(k)
    ensures BigEndian(Bytes(n, k)) == n
  {
    if k > 0 {
      assert n / 256 < Pow256(k - 1);
      BytesDecode(n / 256, k - 1);
      var b := Bytes(n, k);
      assert b[..|b| - 1] == Bytes(n / 256, k - 1);
    }
  }

  function FirstByte(f: Frame): byte { (if f.fin then 0x80 else 0) + f.opcode % 0x10 }

  function SecondByte(f: Frame): byte
    requires f.form == SEVEN ==> |f.payload| < 126
  {
    (if f.mask.Some? then 0x80 else 0)
        + (match f.form case SEVEN => |f.payload| case SIXTEEN => 126 case SIXTY_FOUR => 127)
  }

  function ExtendedLength(f: Frame): bytes {
    match f.form
    case SEVEN => []
    case SIXTEEN => Bytes(|f.payload|, 2)
    case SIXTY_FOUR => Bytes(|f.payload|, 8)
  }

  function MaskKey(f: Frame): bytes { if f.mask.Some? then f.mask.value else [] }

  function WirePayload(f: Frame): bytes
    requires f.mask.Some? ==> |f.mask.value| == 4
  {
    if f.mask.Some? then Unmask(f.payload, f.mask.value) else f.payload
  }

  function Encode(f: Frame): bytes
    requires ValidFrame(f)
  {
    [FirstByte(f), SecondByte(f)] + ExtendedLength(f) + MaskKey(f) + WirePayload(f)
  }

  /** Frames after which the reading goes on. */
  predicate ValidFrames(fs: seq<Frame>, maxPayload: nat) {
    forall f :: f in fs ==> ValidFrame(f) && f.opcode != CLOSE && |f.payload| <= maxPayload
  }

  function EncodeAll(fs: seq<Frame>): bytes
    requires forall f :: f in fs ==> ValidFrame(f)
  {
    if fs == [] then [] else Encode(fs[0]) + EncodeAll(fs[1..])
  }

  function HandleAll(i: Inbox, fs: seq<Frame>): Inbox
    decreases |fs|
  {
    if fs == [] then i else HandleAll(Handle(i, fs[0].fin, fs[0].opcode, fs[0].payload), fs[1..])
  }

  lemma HeaderBits(f: Frame)
    requires ValidFrame(f)
    ensures IsFin(FirstByte(f)) == f.fin && Opcode(FirstByte(f)) == f.opcode
    ensures (SecondByte(f) >= 0x80) == f.mask.Some?
    ensures SecondByte(f) % 0x80 ==
        match f.form { case SEVEN => |f.payload| case SIXTEEN => 126 case SIXTY_FOUR => 127 }
  {
  }

  // ----- Reading encoded frames -----

  /** The machine waits for the next frame. */
  predicate Ready(r: Reader) { r.alive && r.state == MiniHeader && r.fragment == [] }

  /** The machine is at, or in the middle of, frame `f`. */
  predicate InFrame(r: Reader, f: Frame)
    requires ValidFrame(f)
  {
    && r.alive
    && (r.state != MiniHeader ==> r.first == FirstByte(f) && r.hasMask == f.mask.Some?)
    && (r.state != Payload ==> r.fragment == [])
    && match r.state
       case MiniHeader => true
       case Len16 => f.form == SIXTEEN
       case Len64 => f.form == SIXTY_FOUR
       case Mask => f.mask.Some? && r.remaining == |f.payload|
       case Payload =>
         && (r.hasMask ==> r.mask == f.mask.value)
         && |r.fragment| + r.remaining == |f.payload|
         && r.fragment == WirePayload(f)[..|r.fragment|]
  }

  /** The bytes of `f` that are still to come. */
  function Left(r: Reader, f: Frame): bytes
    requires ValidFrame(f) && InFrame(r, f)
  {
    match r.state
    case MiniHeader => Encode(f)
    case Len16 => ExtendedLength(f) + MaskKey(f) + WirePayload(f)
    case Len64 => ExtendedLength(f) + MaskKey(f) + WirePayload(f)
    case Mask => MaskKey(f) + WirePayload(f)
    case Payload => WirePayload(f)[|r.fragment|..]
  }

  function Done(r: Reader, f: Frame): Inbox { Handle(r.inbox, f.fin, f.opcode, f.payload) }

  /** A read that takes its bytes from the front of the stream. */
  lemma TakePrefix(bs: bytes, more: bytes, a: bytes, b: bytes, x: bytes)
    requires bs + more == a + b + x && |bs| == |a|
    ensures bs == a && more == b + x
  {
    assert bs == (bs + more)[..|bs|] == (a + b + x)[..|a|] == a;
    assert more == (bs + more)[|bs|..] == (a + b + x)[|a|..] == b + x;
  }

  lemma AfterLength(r: Reader, f: Frame, maxPayload: nat)
    requires ValidFrame(f) && |f.payload| <= maxPayload
    requires r.alive && r.fragment == [] && r.first == FirstByte(f) && r.hasMask == f.mask.Some?
        && r.remaining == |f.payload|
    ensures var r' := EnterMask(r, maxPayload);
      r'.state != MiniHeader && InFrame(r', f) && Left(r', f) == MaskKey(f) + WirePayload(f) && r'.inbox == r.inbox
  {
    assert WirePayload(f)[..0] == [] && WirePayload(f)[0..] == WirePayload(f);
    assert f.mask.None? ==> MaskKey(f) + WirePayload(f) == WirePayload(f);
  }

  lemma StepHeader(r: Reader, f: Frame, bs: bytes, more: bytes, x: bytes, maxPayload: nat)
    requires ValidFrame(f) && |f.payload| <= maxPayload && InFrame(r, f) && r.state == MiniHeader
    requires Legal(r, bs) && bs + more == Left(r, f) + x
    ensures var r' := Consume(r, bs, maxPayload);
      r'.state != MiniHeader && InFrame(r', f) && more == Left(r', f) + x && r'.inbox == r.inbox
  {
    var tail := ExtendedLength(f) + MaskKey(f) + WirePayload(f);
    assert Encode(f) == [FirstByte(f), SecondByte(f)] + tail;
    TakePrefix(bs, more, [FirstByte(f), SecondByte(f)], tail, x);
    HeaderRead(r, f, maxPayload);
  }

  /** The two header bytes announce the frame. */
  lemma HeaderRead(r: Reader, f: Frame, maxPayload: nat)
    requires ValidFrame(f) && |f.payload| <= maxPayload && InFrame(r, f) && r.state == MiniHeader
    ensures var r' := Consume(r, [FirstByte(f), SecondByte(f)], maxPayload);
      && r'.state != MiniHeader && InFrame(r', f) && r'.inbox == r.inbox
      && Left(r', f) == ExtendedLength(f) + MaskKey(f) + WirePayload(f)
  {
    HeaderBits(f);
    if f.form == SEVEN {
      AfterLength(r.(first := FirstByte(f), hasMask := f.mask.Some?, remaining := |f.payload|), f, maxPayload);
      assert ExtendedLength(f) + MaskKey(f) == MaskKey(f);
    }
  }

  lemma StepLength(r: Reader, f: Frame, bs: bytes, more: bytes, x: bytes, maxPayload: nat)
    requires ValidFrame(f) && |f.payload| <= maxPayload && InFrame(r, f) && (r.state == Len16 || r.state == Len64)
    requires Legal(r, bs) && bs + more == Left(r, f) + x
    ensures var r' := Consume(r, bs, maxPayload);
      r'.state != MiniHeader && InFrame(r', f) && more == Left(r', f) + x && r'.inbox == r.inbox
  {
    var rest := MaskKey(f) + WirePayload(f);
    assert ExtendedLength(f) + MaskKey(f) + WirePayload(f) == ExtendedLength(f) + rest;
    TakePrefix(bs, more, ExtendedLength(f), rest, x);
    Powers();
    BytesDecode(|f.payload|, |bs|);
    AfterLength(r.(remaining := |f.payload|), f, maxPayload);
  }

  lemma Powers()
    ensures Pow256(2) == 0x10000 && Pow256(8) == TWO_64
  {
    assert Pow256(4) == 0x1_0000_0000;
  }

  lemma StepMask(r: Reader, f: Frame, bs: bytes, more: bytes, x: bytes, maxPayload: nat)
    requires ValidFrame(f) && InFrame(r, f) && r.state == Mask
    requires Legal(r, bs) && bs + more == Left(r, f) + x
    ensures var r' := Consume(r, bs, maxPayload);
      r'.state != MiniHeader && InFrame(r', f) && more == Left(r', f) + x && r'.inbox == r.inbox
  {
    TakePrefix(bs, more, MaskKey(f), WirePayload(f), x);
    assert WirePayload(f)[..0] == [] && WirePayload(f)[0..] == WirePayload(f);
  }

  /** The frame is over: handled, or the end of reading. */
  predicate AtEnd(r: Reader, f: Frame, bs: bytes, maxPayload: nat)
    requires Legal(r, bs)
  {
    var r' := Consume(r, bs, maxPayload);
    if f.opcode == CLOSE then !r'.alive && r'.inbox == r.inbox && CloseData(r, bs, maxPayload) == Some(f.payload)
    else Ready(r') && r'.inbox == Done(r, f)
  }

  lemma StepPayload(r: Reader, f: Frame, bs: bytes, more: bytes, x: bytes, maxPayload: nat)
    requires ValidFrame(f) && InFrame(r, f) && r.state == Payload
    requires Legal(r, bs) && bs + more == Left(r, f) + x
    ensures var r' := Consume(r, bs, maxPayload);
      if r.remaining == |bs| then AtEnd(r, f, bs, maxPayload) && more == x
      else r'.state != MiniHeader && InFrame(r', f) && more == Left(r', f) + x && r'.inbox == r.inbox
  {
    PayloadTaken(r, f, bs, more, x);
    if r.remaining == |bs| {
      WholeFragment(r.(fragment := r.fragment + bs, remaining := 0), f);
    }
  }

  /** Any read takes its bytes from the frame. */
  lemma StepFrame(r: Reader, f: Frame, bs: bytes, more: bytes, x: bytes, maxPayload: nat)
    requires ValidFrame(f) && |f.payload| <= maxPayload && InFrame(r, f)
    requires Legal(r, bs) && bs + more == Left(r, f) + x
    ensures var r' := Consume(r, bs, maxPayload);
      if r.state == Payload && r.remaining == |bs| then AtEnd(r, f, bs, maxPayload) && more == x
      else r'.state != MiniHeader && InFrame(r', f) && more == Left(r', f) + x && r'.inbox == r.inbox
  {
    match r.state {
      case MiniHeader => StepHeader(r, f, bs, more, x, maxPayload);
      case Len16 => StepLength(r, f, bs, more, x, maxPayload);
      case Len64 => StepLength(r, f, bs, more, x, maxPayload);
      case Mask => StepMask(r, f, bs, more, x, maxPayload);
      case Payload => StepPayload(r, f, bs, more, x, maxPayload);
    }
  }

  /** A payload read takes the next piece of the frame's payload. */
  lemma {:induction false} PayloadTaken(r: Reader, f: Frame, bs: bytes, more: bytes, x: bytes)
    requires ValidFrame(f) && InFrame(r, f) && r.state == Payload && |bs| <= r.remaining
    requires bs + more == Left(r, f) + x
    ensures var n := |r.fragment| + |bs|;
      && r.fragment + bs == WirePayload(f)[..n] && more == WirePayload(f)[n..] + x
      && (r.remaining == |bs| ==> r.fragment + bs == WirePayload(f) && more == x)
  {
    TakeNext(WirePayload(f), |r.fragment|, bs, more, x);
    assert [] + x == x;
  }

  lemma TakeNext(wire: bytes, k: nat, bs: bytes, more: bytes, x: bytes)
    requires k + |bs| <= |wire| && bs + more == wire[k..] + x
    ensures wire[..k] + bs == wire[..k + |bs|] && more == wire[k + |bs|..] + x
  {
    var n := k + |bs|;
    assert wire[k..] == wire[k..n] + wire[n..];
    TakePrefix(bs, more, wire[k..n], wire[n..], x);
    assert wire[..k] + wire[k..n] == wire[..n];
  }

  /** A fragment read completely is handled as the frame's own payload. */
  lemma WholeFragment(r: Reader, f: Frame)
    requires ValidFrame(f) && r.alive && r.first == FirstByte(f) && r.hasMask == f.mask.Some?
    requires (r.hasMask ==> r.mask == f.mask.value) && r.fragment == WirePayload(f)
    ensures FragmentData(r) == f.payload && Opcode(r.first) == f.opcode
    ensures f.opcode != CLOSE ==> Ready(HandleFragment(r)) && HandleFragment(r).inbox == Done(r, f)
  {
    HeaderBits(f);
    if f.mask.Some? {
      UnmaskTwice(f.payload, f.mask.value);
    }
  }

  lemma NothingLeft(r: Reader, chunks: seq<bytes>, maxPayload: nat)
    requires Ready(r) && LegalRun(r, chunks, maxPayload) && Concat(chunks) == []
    ensures chunks == []
  {
    if chunks != [] {
      assert false;
    }
  }

  /** The payload of the Close frame that a run of reads ends with. */
  function ClosedWith(r: Reader, chunks: seq<bytes>, maxPayload: nat): Option<bytes>
    requires LegalRun(r, chunks, maxPayload)
    decreases |chunks|
  {
    if chunks == [] then None
    else if |chunks| == 1 then CloseData(r, chunks[0], maxPayload)
    else ClosedWith(Consume(r, chunks[0], maxPayload), chunks[1..], maxPayload)
  }

  /** From `mid` on the run is the rest of the run from `r`. */
  predicate SameEnd(r: Reader, chunks: seq<bytes>, mid: Reader, rest: seq<bytes>, maxPayload: nat)
    requires LegalRun(r, chunks, maxPayload)
  {
    && LegalRun(mid, rest, maxPayload)
    && Run(mid, rest, maxPayload) == Run(r, chunks, maxPayload)
    && (rest != [] ==> ClosedWith(mid, rest, maxPayload) == ClosedWith(r, chunks, maxPayload))
  }

  /** The reads have consumed what there is to read: all the bytes, or up to a Close frame. */
  predicate Finished(r: Reader, chunks: seq<bytes>, unread: bytes, maxPayload: nat) {
    && LegalRun(r, chunks, maxPayload)
    && var r' := Run(r, chunks, maxPayload); !r'.alive || (r'.state == MiniHeader && unread == [])
  }

  /** Whatever sizes the payload arrives in, the handler sees the frames' own payloads, in order;
      what follows the frames is read from `mid` on. */
  lemma {:induction false} ReadFrames(
      r: Reader, f: Frame, fs: seq<Frame>, x: bytes, chunks: seq<bytes>, unread: bytes, maxPayload: nat)
    returns (mid: Reader, rest: seq<bytes>)
    requires ValidFrames([f] + fs, maxPayload) && ValidFrame(f) && InFrame(r, f)
    requires forall g :: g in fs ==> ValidFrame(g)
    requires Finished(r, chunks, unread, maxPayload)
    requires Concat(chunks) + unread == Left(r, f) + (EncodeAll(fs) + x)
    ensures Ready(mid) && mid.inbox == HandleAll(Done(r, f), fs) && Concat(rest) + unread == x
    ensures SameEnd(r, chunks, mid, rest, maxPayload)
    decreases |chunks|
  {
    assert f in [f] + fs;
    if chunks == [] {
      assert false;
    } else {
      var bs, more := chunks[0], Concat(chunks[1..]) + unread;
      var r' := Consume(r, bs, maxPayload);
      var y := EncodeAll(fs) + x;
      var finished := r.state == Payload && r.remaining == |bs|;
      assert bs + more == Left(r, f) + y by { Regroup(bs, Concat(chunks[1..]), unread); }
      StepFrame(r, f, bs, more, y, maxPayload);
      if !finished {
        mid, rest := ReadFrames(r', f, fs, x, chunks[1..], unread, maxPayload);
      } else if fs == [] {
        assert [] + x == x;
        mid, rest := r', chunks[1..];
      } else {
        assert forall g :: g in [fs[0]] + fs[1..] ==> g in [f] + fs;
        Regroup(Encode(fs[0]), EncodeAll(fs[1..]), x);
        mid, rest := ReadFrames(r', fs[0], fs[1..], x, chunks[1..], unread, maxPayload);
      }
    }
  }

  lemma Regroup<T>(a: seq<T>, b: seq<T>, c: seq<T>)
    ensures a + (b + c) == a + b + c
  {
  }

  const START := Reader(MiniHeader, 0, false, [], 0, [], Inbox([], false, [], [], false), true)

  lemma FramesAreHandled(fs: seq<Frame>, x: bytes, chunks: seq<bytes>, unread: bytes, maxPayload: nat)
    returns (mid: Reader, rest: seq<bytes>)
    requires ValidFrames(fs, maxPayload) && Finished(START, chunks, unread, maxPayload)
    requires Concat(chunks) + unread == EncodeAll(fs) + x
    ensures Ready(mid) && mid.inbox == HandleAll(START.inbox, fs) && Concat(rest) + unread == x
    ensures SameEnd(START, chunks, mid, rest, maxPayload)
  {
    if fs == [] {
      assert [] + x == x;
      mid, rest := START, chunks;
    } else {
      assert fs == [fs[0]] + fs[1..] && fs[0] in fs;
      Regroup(Encode(fs[0]), EncodeAll(fs[1..]), x);
      mid, rest := ReadFrames(START, fs[0], fs[1..], x, chunks, unread, maxPayload);
    }
  }

  // ----- The Close frame -----

  lemma EndsThere(r: Reader, chunks: seq<bytes>, maxPayload: nat)
    requires LegalRun(r, chunks, maxPayload) && !r.alive
    ensures chunks == []
  {
    if chunks != [] {
      assert false;
    }
  }

  /** A Close frame is the last thing that is read. */
  lemma {:induction false} ReadClose(
      r: Reader, f: Frame, x: bytes, chunks: seq<bytes>, unread: bytes, maxPayload: nat)
    requires ValidFrame(f) && f.opcode == CLOSE && |f.payload| <= maxPayload && InFrame(r, f)
    requires LegalRun(r, chunks, maxPayload) && !Run(r, chunks, maxPayload).alive
    requires Concat(chunks) + unread == Left(r, f) + x
    ensures Run(r, chunks, maxPayload).inbox == r.inbox && unread == x
    ensures ClosedWith(r, chunks, maxPayload) == Some(f.payload)
    decreases |chunks|
  {
    if chunks == [] {
      assert false;
    } else {
      var bs, more := chunks[0], Concat(chunks[1..]) + unread;
      var r' := Consume(r, bs, maxPayload);
      assert bs + more == Left(r, f) + x by { Regroup(bs, Concat(chunks[1..]), unread); }
      StepFrame(r, f, bs, more, x, maxPayload);
      if r.state == Payload && r.remaining == |bs| {
        EndsThere(r', chunks[1..], maxPayload);
        assert [] + unread == unread;
      } else {
        ReadClose(r', f, x, chunks[1..], unread, maxPayload);
      }
    }
  }

  /** The payload length that a completed read has made known. */
  function Announced(r: Reader, bs: bytes): Option<nat>
    requires Legal(r, bs)
  {
    match r.state
    case MiniHeader => if bs[1] % 0x80 < 126 then Some(bs[1] % 0x80) else None
    case Len16 => Some(BigEndian(bs))
    case Len64 => Some(BigEndian(bs))
    case _ => None
  }

  /** A length above the configured maximum closes the connection; nothing is delivered. */
  lemma TooLongCloses(r: Reader, bs: bytes, maxPayload: nat)
    requires Legal(r, bs) && Announced(r, bs).Some?
    ensures Consume(r, bs, maxPayload).alive <==> Announced(r, bs).value <= maxPayload
    ensures Consume(r, bs, maxPayload).inbox == r.inbox
  {
  }

  // ----- Messages (section 5.4 of RFC 6455) -----

  datatype Piece = Piece(form: LengthForm, mask: Option<bytes>, payload: bytes)

  /** Control frames, and the continuation piece after them. */
  datatype Tail = Tail(controls: seq<Frame>, piece: Piece)

  /** What a peer sends: a control frame, or a message in one or more pieces. */
  datatype Item = Control(frame: Frame) | Message(isBinary: bool, head: Piece, tails: seq<Tail>)

  function PieceFrame(fin: bool, opcode: byte, p: Piece): Frame { Frame(fin, opcode, p.form, p.mask, p.payload) }

  function TailFrames(ts: seq<Tail>): seq<Frame> {
    if ts == [] then []
    else ts[0].controls + [PieceFrame(|ts| == 1, CONTINUATION, ts[0].piece)] + TailFrames(ts[1..])
  }

  function ItemFrames(item: Item): seq<Frame> {
    match item
    case Control(f) => [f]
    case Message(isBinary, head, tails) =>
      [PieceFrame(tails == [], if isBinary then BINARY else TEXT, head)] + TailFrames(tails)
  }

  function Frames(items: seq<Item>): seq<Frame> {
    if items == [] then [] else ItemFrames(items[0]) + Frames(items[1..])
  }

  predicate IsControl(f: Frame) { f.fin && (f.opcode == PING || f.opcode == PONG) }

  predicate ValidItem(item: Item) {
    match item
    case Control(f) => IsControl(f)
    case Message(_, _, tails) => forall t :: t in tails ==> forall f :: f in t.controls ==> IsControl(f)
  }

  function TailText(ts: seq<Tail>): bytes {
    if ts == [] then [] else ts[0].piece.payload + TailText(ts[1..])
  }

  /** The messages of a list of items, whole and in order. */
  function Messages(items: seq<Item>): seq<(bytes, bool)> {
    if items == [] then [] else ItemMessages(items[0]) + Messages(items[1..])
  }

  /** The payloads of the pings among some frames. */
  function Pings(fs: seq<Frame>): seq<bytes> {
    if fs == [] then [] else (if fs[0].opcode == PING then [fs[0].payload] else []) + Pings(fs[1..])
  }

  lemma {:induction false} HandleConcat(i: Inbox, a: seq<Frame>, b: seq<Frame>)
    ensures HandleAll(i, a + b) == HandleAll(HandleAll(i, a), b)
    decreases |a|
  {
    if a == [] {
      assert a + b == b;
    } else {
      assert (a + b)[1..] == a[1..] + b;
      HandleConcat(Handle(i, a[0].fin, a[0].opcode, a[0].payload), a[1..], b);
    }
  }

  /** Every ping is answered with its own payload, in order, and nothing else is. */
  lemma {:induction false} PingsAnswered(i: Inbox, fs: seq<Frame>)
    ensures HandleAll(i, fs).pongsSent == i.pongsSent + Pings(fs)
    decreases |fs|
  {
    if fs == [] {
      assert i.pongsSent + [] == i.pongsSent;
    } else {
      var own := if fs[0].opcode == PING then [fs[0].payload] else [];
      PingAnswered(i, fs[0]);
      PingsAnswered(Handle(i, fs[0].fin, fs[0].opcode, fs[0].payload), fs[1..]);
      assert i.pongsSent + own + Pings(fs[1..]) == i.pongsSent + (own + Pings(fs[1..]));
    }
  }

  lemma PingAnswered(i: Inbox, f: Frame)
    ensures Handle(i, f.fin, f.opcode, f.payload).pongsSent ==
            i.pongsSent + if f.opcode == PING then [f.payload] else []
  {
  }

  lemma {:induction false} ControlsKeepMessage(i: Inbox, fs: seq<Frame>)
    requires forall f :: f in fs ==> IsControl(f)
    ensures var j := HandleAll(i, fs); j.message == i.message && j.isBinary == i.isBinary && j.delivered == i.delivered
    decreases |fs|
  {
    if fs != [] {
      assert fs[0] in fs;
      ControlsKeepMessage(Handle(i, fs[0].fin, fs[0].opcode, fs[0].payload), fs[1..]);
    }
  }

  lemma {:induction false} TailsDelivered(i: Inbox, ts: seq<Tail>)
    requires ts != [] && forall t :: t in ts ==> forall f :: f in t.controls ==> IsControl(f)
    ensures var j := HandleAll(i, TailFrames(ts));
      j.message == [] && j.delivered == i.delivered + [(i.message + TailText(ts), i.isBinary)]
    decreases |ts|
  {
    var t := ts[0];
    assert t in ts;
    var piece := PieceFrame(|ts| == 1, CONTINUATION, t.piece);
    var i1 := HandleAll(i, t.controls);
    ControlsKeepMessage(i, t.controls);
    HandleConcat(i, t.controls, [piece]);
    HandleConcat(i, t.controls + [piece], TailFrames(ts[1..]));
    var i2 := Handle(i1, piece.fin, piece.opcode, piece.payload);
    assert HandleAll(i1, [piece]) == i2 by { assert [piece][1..] == []; }
    if |ts| == 1 {
      assert ts[1..] == [] && t.piece.payload + [] == t.piece.payload;
    } else {
      assert forall u :: u in ts[1..] ==> u in ts;
      TailsDelivered(i2, ts[1..]);
      assert i.message + t.piece.payload + TailText(ts[1..]) == i.message + TailText(ts);
    }
  }

  lemma HandleOne(i: Inbox, f: Frame)
    ensures HandleAll(i, [f]) == Handle(i, f.fin, f.opcode, f.payload)
  {
    assert [f][1..] == [];
  }

  function ItemMessages(item: Item): seq<(bytes, bool)> {
    match item
    case Control(_) => []
    case Message(isBinary, head, tails) => [(head.payload + TailText(tails), isBinary)]
  }

  lemma ItemDelivered(i: Inbox, item: Item)
    requires i.message == [] && ValidItem(item)
    ensures var j := HandleAll(i, ItemFrames(item)); j.message == [] && j.delivered == i.delivered + ItemMessages(item)
  {
    match item {
      case Control(f) =>
        HandleOne(i, f);
        assert i.delivered + [] == i.delivered;
      case Message(isBinary, head, tails) =>
        var g := PieceFrame(tails == [], if isBinary then BINARY else TEXT, head);
        HandleConcat(i, [g], TailFrames(tails));
        HandleOne(i, g);
        assert [] + head.payload == head.payload && head.payload + [] == head.payload;
        if tails != [] {
          TailsDelivered(Handle(i, g.fin, g.opcode, g.payload), tails);
        }
    }
  }

  /** Fragmented messages with control frames in between come out whole and in order. */
  lemma {:induction false} MessagesDelivered(i: Inbox, items: seq<Item>)
    requires i.message == [] && forall item :: item in items ==> ValidItem(item)
    ensures var j := HandleAll(i, Frames(items)); j.message == [] && j.delivered == i.delivered + Messages(items)
    decreases |items|
  {
    if items == [] {
      assert i.delivered + [] == i.delivered;
    } else {
      assert items[0] in items;
      ItemDelivered(i, items[0]);
      MessagesDelivered(HandleAll(i, ItemFrames(items[0])), items[1..]);
      DeliveredInTurn(i, ItemFrames(items[0]), Frames(items[1..]), ItemMessages(items[0]), Messages(items[1..]));
    }
  }

  lemma DeliveredInTurn(i: Inbox, a: seq<Frame>, b: seq<Frame>, m: seq<(bytes, bool)>, n: seq<(bytes, bool)>)
    requires HandleAll(i, a).delivered == i.delivered + m
    requires var j := HandleAll(HandleAll(i, a), b); j.message == [] && j.delivered == HandleAll(i, a).delivered + n
    ensures var j := HandleAll(i, a + b); j.message == [] && j.delivered == i.delivered + (m + n)
  {
    HandleConcat(i, a, b);
    assert i.delivered + m + n == i.delivered + (m + n);
  }

  /** From bytes to messages: for every list of items, every encoding of its frames and every
      sequence of transfers that carries it, the handler gets exactly the messages, and the
      pings are answered in order. */
  lemma StreamDelivers(items: seq<Item>, chunks: seq<bytes>, maxPayload: nat)
    requires (forall item :: item in items ==> ValidItem(item)) && ValidFrames(Frames(items), maxPayload)
    requires LegalRun(START, chunks, maxPayload) && Run(START, chunks, maxPayload).state == MiniHeader
    requires Concat(chunks) == EncodeAll(Frames(items))
    ensures var r := Run(START, chunks, maxPayload);
      Ready(r) && r.inbox.delivered == Messages(items) && r.inbox.pongsSent == Pings(Frames(items))
  {
    assert Concat(chunks) + [] == EncodeAll(Frames(items)) + [];
    var mid, rest := FramesAreHandled(Frames(items), [], chunks, [], maxPayload);
    NothingLeft(mid, rest, maxPayload);
    ItemsAreHandled(items);
  }

  lemma ItemsAreHandled(items: seq<Item>)
    requires forall item :: item in items ==> ValidItem(item)
    ensures var i := HandleAll(START.inbox, Frames(items));
      i.delivered == Messages(items) && i.pongsSent == Pings(Frames(items))
  {
    MessagesDelivered(START.inbox, items);
    PingsAnswered(START.inbox, Frames(items));
    assert [] + Messages(items) == Messages(items) && [] + Pings(Frames(items)) == Pings(Frames(items));
  }

  /** A stream with a Close frame: once reading has ended, the handler has been given the messages
      before that frame and nothing of what comes after it, which is not even read; the last read
      brought the frame's payload. */
  lemma CloseEndsStream(
      items: seq<Item>, close: Frame, after: bytes, chunks: seq<bytes>, unread: bytes, maxPayload: nat)
    requires (forall item :: item in items ==> ValidItem(item)) && ValidFrames(Frames(items), maxPayload)
    requires ValidFrame(close) && close.opcode == CLOSE && |close.payload| <= maxPayload
    requires LegalRun(START, chunks, maxPayload) && !Run(START, chunks, maxPayload).alive
    requires Concat(chunks) + unread == EncodeAll(Frames(items)) + (Encode(close) + after)
    ensures var r := Run(START, chunks, maxPayload);
      && r.inbox.delivered == Messages(items) && r.inbox.pongsSent == Pings(Frames(items)) && unread == after
      && ClosedWith(START, chunks, maxPayload) == Some(close.payload)
  {
    var mid, rest := FramesAreHandled(Frames(items), Encode(close) + after, chunks, unread, maxPayload);
    ReadClose(mid, close, after, rest, unread, maxPayload);
    ItemsAreHandled(items);
  }

  // ----- build_header -----

  /** The header the server puts before its own frames: final, unmasked. */
  function BuildHeader(opcode: byte, size: nat): bytes
    requires opcode < 16
  {
    if size < 126 then [0x80 + opcode, size]
    else if size < 0x10000 then [0x80 + opcode, 126] + Bytes(size, 2)
    else [0x80 + opcode, 127] + Bytes(size, 8)
  }

  /** How long a frame header is, as its second byte says (section 5.2 of RFC 6455). */
  function HeaderSize(second: byte): nat {
    (2 + if second % 0x80 == 126 then 2 else if second % 0x80 == 127 then 8 else 0) + if second >= 0x80 then 4 else 0
  }

  /** The payload length an unmasked header tells. */
  function HeaderLength(h: bytes): nat
    requires |h| >= 2
  {
    if h[1] % 0x80 < 126 then h[1] % 0x80 else BigEndian(h[2..])
  }

  /** Every header the server builds, that of a Close frame too, tells a final frame of its own
      opcode, no mask, and the length, in the shortest of the three forms. */
  lemma HeaderDecodes(opcode: byte, size: nat)
    requires opcode < 16 && size < TWO_64
    ensures var h := BuildHeader(opcode, size);
      && |h| >= 2 && |h| == HeaderSize(h[1]) && h[1] < 0x80
      && IsFin(h[0]) && Opcode(h[0]) == opcode && HeaderLength(h) == size
      && (size < 126 <==> |h| == 2) && (size < 0x10000 <==> |h| <= 4)
  {
    FirstByteTells(opcode);
    if size < 126 {
    } else if size < 0x10000 {
      LongHeaderDecodes(opcode, size, 2);
    } else {
      LongHeaderDecodes(opcode, size, 8);
    }
  }

  lemma FirstByteTells(opcode: byte)
    requires opcode < 16
    ensures IsFin(0x80 + opcode) && Opcode(0x80 + opcode) == opcode
  {
  }

  lemma LongHeaderDecodes(opcode: byte, size: nat, k: nat)
    requires opcode < 16 && ((k == 2 && size < 0x10000) || (k == 8 && size < TWO_64))
    ensures var h := [0x80 + opcode, if k == 2 then 126 else 127] + Bytes(size, k);
      |h| == 2 + k && HeaderLength(h) == size
  {
    Powers();
    BytesDecode(size, k);
    var h: bytes := [0x80 + opcode, if k == 2 then 126 else 127] + Bytes(size, k);
    assert h[2..] == Bytes(size, k);
  }

  /** Header and payload are the frame the peer will decode. */
  lemma HeaderEncodes(opcode: byte, payload: bytes)
    requires opcode < 16 && |payload| < TWO_64
    ensures ValidFrame(ServerFrame(opcode, payload))
    ensures BuildHeader(opcode, |payload|) + payload == Encode(ServerFrame(opcode, payload))
  {
  }

  function ServerFrame(opcode: byte, payload: bytes): Frame {
    var form := if |payload| < 126 then SEVEN else if |payload| < 0x10000 then SIXTEEN else SIXTY_FOUR;
    Frame(true, opcode, form, None, payload)
  }

  /** What one end sends with build_header, this reader delivers unchanged. */
  lemma SentIsDelivered(isBinary: bool, payload: bytes, chunks: seq<bytes>, maxPayload: nat)
    requires |payload| <= maxPayload && |payload| < TWO_64
    requires LegalRun(START, chunks, maxPayload) && Run(START, chunks, maxPayload).state == MiniHeader
    requires Concat(chunks) == BuildHeader(if isBinary then BINARY else TEXT, |payload|) + payload
    ensures Run(START, chunks, maxPayload).inbox.delivered == [(payload, isBinary)]
  {
    var opcode := if isBinary then BINARY else TEXT;
    var f := ServerFrame(opcode, payload);
    var items := [Message(isBinary, Piece(f.form, None, payload), [])];
    HeaderEncodes(opcode, payload);
    assert items[1..] == [];
    assert ItemFrames(items[0]) == [f] && Frames(items) == [f];
    assert [f][1..] == [] && EncodeAll([f]) == Encode(f) + [];
    assert Encode(f) + [] == Encode(f);
    StreamDelivers(items, chunks, maxPayload);
    assert payload + [] == payload;
    assert Messages(items) == [(payload, isBinary)];
  }
}
