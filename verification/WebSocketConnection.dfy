/**
 * The object of crow/websocket.h: a connection's fields as `do_read` changes them on each
 * completed read, and its write buffers and flags as sends, `close`, the completion of a write
 * and the end of reading change them.
 */
module WebSocketConnection {

  import opened Octets
  import opened Wrappers
  import opened WebSocketRead
  import opened WebSocketWrite

  // ----- How reading ends -----

  const NO_STATUS: bytes := [0x03, 0xED]  // NoStatusCodePresent, 1005

  /** The close status a Close frame carries, and its reason (section 5.5.1 of RFC 6455). */
  function StatusOf(data: bytes): bytes { if |data| >= 2 then data[..2] else NO_STATUS }

  function ReasonOf(data: bytes): bytes { if |data| >= 2 then data[2..] else data }

  /** A Close frame is answered unless a Close was sent before; then the socket is closed. */
  function PeerClosed(w: Writer, data: bytes): Writer
    requires Enabled(w, Stop)
  {
    Step(if w.sentClose then w else Step(w, WebSocketWrite.Close(ReasonOf(data), StatusOf(data))), Stop)
  }

  /** What the end of a read does to the write side: nothing while the reading goes on. */
  function AfterRead(w: Writer, alive: bool, closing: Option<bytes>): Writer
    requires Enabled(w, Stop)
  {
    if closing.Some? then PeerClosed(w, closing.value) else if alive then w else Step(w, TooLong)
  }

  /** The peer's Close is answered once: its status and reason go back, after what was sent before;
      and the connection is closing with nothing more to read. */
  lemma CloseIsAnswered(w: Writer, data: bytes)
    requires Writes(w) && Enabled(w, Stop) && |data| < TWO_64
    ensures var w' := PeerClosed(w, data);
      && Writes(w') && w'.sentClose && w'.closing && !w'.reading
      && Concat(w'.enqueued) == Concat(w.enqueued) +
           (if w.sentClose then [] else Encode(ServerFrame(CLOSE, StatusOf(data) + ReasonOf(data))))
      && (|data| >= 2 ==> StatusOf(data) + ReasonOf(data) == data)
  {
    var e := WebSocketWrite.Close(ReasonOf(data), StatusOf(data));
    if !w.sentClose {
      StepWrites(w, e);
      StepWrites(Step(w, e), Stop);
      CloseFrame(ReasonOf(data), StatusOf(data));
      ConcatAppend(w.enqueued, Appended(e));
    } else {
      StepWrites(w, Stop);
      assert Concat(w.enqueued) + [] == Concat(w.enqueued);
    }
  }

  /** The pongs that are sent so far, in the order of their pings. */
  function Answered(w: Writer, pongs: seq<bytes>): (w': Writer)
    requires !w.destroyed
    ensures !w'.destroyed && w'.reading == w.reading && w'.overlong == w.overlong
  {
    if pongs == [] then w
    else Step(Answered(w, pongs[..|pongs| - 1]), Send(PONG, pongs[|pongs| - 1]))
  }

  class Connection {
    // reading
    var state: ReadState
    var first: byte
    var hasMask: bool
    var mask: bytes
    var remaining: nat
    var fragment: bytes
    var message: bytes
    var isBinary: bool
    var delivered: seq<(bytes, bool)>  // what the message handler was called with
    var pongsSent: seq<bytes>          // posted to the event loop
    var pongsRun: nat                  // how many of these it has run
    var pongReceived: bool
    var alive: bool
    const maxPayload: nat
    // writing
    var sending: seq<bytes>            // sending_buffers_
    var writing: seq<bytes>            // write_buffers_
    var inFlight: bool                 // an asynchronous write has been started and not completed
    var closeConnection: bool
    var hasSentClose: bool
    var isReading: bool
    var destroyed: bool
    ghost var overlong: bool           // a frame above the limit was announced
    ghost var enqueued: seq<bytes>     // every buffer ever appended to write_buffers_
    ghost var batches: seq<Batch>      // every completed write

    function Messages(): Inbox
      reads this`message, this`isBinary, this`delivered, this`pongsSent, this`pongReceived
    {
      Inbox(message, isBinary, delivered, pongsSent, pongReceived)
    }

    function Reading(): Reader
      reads this`state, this`first, this`hasMask, this`mask, this`remaining, this`fragment, this`message,
        this`isBinary, this`delivered, this`pongsSent, this`pongReceived, this`alive
    {
      Reader(state, first, hasMask, mask, remaining, fragment, Messages(), alive)
    }

    ghost function Writing(): Writer
      reads this`sending, this`writing, this`inFlight, this`closeConnection, this`hasSentClose, this`isReading,
        this`overlong, this`destroyed, this`enqueued, this`batches
    {
      Writer(sending, writing, inFlight, closeConnection, hasSentClose, isReading, overlong, destroyed,
             enqueued, batches)
    }

    constructor (maxPayload: nat)
      ensures Reading() == START && Writing() == OPENED && this.maxPayload == maxPayload && pongsRun == 0
    {
      this.maxPayload := maxPayload;
      state, first, hasMask, mask, remaining, fragment := MiniHeader, 0, false, [], 0, [];
      message, isBinary, delivered, pongsSent, pongReceived, alive := [], false, [], [], false, true;
      pongsRun := 0;
      sending, writing, inFlight, closeConnection, hasSentClose := [], [], false, false, false;
      isReading, overlong, destroyed, enqueued, batches := true, false, false, [], [];
    }

    /** What `do_read` does with the bytes of one completed read; `closing` is the payload of a
        Close frame that ended here. */
    method Take(bs: bytes) returns (closing: Option<bytes>)
      requires Legal(Reading(), bs)
      modifies this`state, this`first, this`hasMask, this`mask, this`remaining, this`fragment, this`message,
        this`isBinary, this`delivered, this`pongsSent, this`pongReceived, this`alive
      ensures Reading() == Consume(old(Reading()), bs, maxPayload)
      ensures closing == CloseData(old(Reading()), bs, maxPayload)
    {
      closing := None;
      match state {
        case MiniHeader =>
          first, hasMask := bs[0], bs[1] >= 0x80;
          var len := bs[1] % 0x80;
          if len == 127 {
            state := Len64;
          } else if len == 126 {
            state := Len16;
          } else {
            remaining := len;
            StartMask();
          }
        case Len16 =>
          remaining := BigEndian(bs);
          StartMask();
        case Len64 =>
          remaining := BigEndian(bs);
          StartMask();
        case Mask =>
          mask, state := bs, Payload;
        case Payload =>
          fragment, remaining := fragment + bs, remaining - |bs|;
          if remaining == 0 {
            closing := FinishFragment();
          }
      }
    }

    /** The completion of one socket read. A Close frame is answered and the socket closed; so it
        is when a frame is above the limit. */
    method OnRead(bs: bytes)
      requires Legal(Reading(), bs) && Enabled(Writing(), Stop)
      modifies this
      ensures Reading() == Consume(old(Reading()), bs, maxPayload)
      ensures Writing() == AfterRead(old(Writing()), alive, CloseData(old(Reading()), bs, maxPayload))
      ensures pongsRun == old(pongsRun)
    {
      var closing := TakeOnly(bs);
      EndRead(closing);
    }

    /** The write side does not notice. */
    method TakeOnly(bs: bytes) returns (closing: Option<bytes>)
      requires Legal(Reading(), bs)
      modifies this`state, this`first, this`hasMask, this`mask, this`remaining, this`fragment, this`message,
        this`isBinary, this`delivered, this`pongsSent, this`pongReceived, this`alive
      ensures Reading() == Consume(old(Reading()), bs, maxPayload)
      ensures closing == CloseData(old(Reading()), bs, maxPayload)
      ensures Writing() == old(Writing())
    {
      closing := Take(bs);
    }

    method EndRead(closing: Option<bytes>)
      requires Enabled(Writing(), Stop)
      modifies this`sending, this`writing, this`inFlight, this`enqueued, this`hasSentClose, this`closeConnection,
        this`isReading, this`destroyed, this`overlong
      ensures Writing() == AfterRead(old(Writing()), alive, closing)
      ensures Reading() == old(Reading())
    {
      if closing.Some? {
        OnPeerClose(closing.value);
      } else if !alive {
        OnTooLong();
      }
    }

    method StartMask()
      modifies this`state, this`alive
      ensures Reading() == EnterMask(old(Reading()), maxPayload)
    {
      if remaining > maxPayload {
        state, alive := Mask, false;
      } else if hasMask {
        state := Mask;
      } else {
        state := Payload;
      }
    }

    /** The in-place unmasking loop. */
    method UnmaskFragment()
      requires hasMask ==> |mask| == 4
      modifies this`fragment
      ensures fragment == FragmentData(old(Reading()))
    {
      if hasMask {
        var i := 0;
        ghost var masked := fragment;
        while i < |fragment|
          invariant i <= |fragment| == |masked|
          invariant forall k :: 0 <= k < |masked| ==>
                      fragment[k] == if k < i then Xor(masked[k], mask[k % 4]) else masked[k]
        {
          fragment := fragment[i := Xor(fragment[i], mask[i % 4])];
          i := i + 1;
        }
      }
    }

    /** The cases of `handle_fragment` for frames other than Close. */
    method HandleData()
      modifies this`message, this`isBinary, this`delivered, this`pongsSent, this`pongReceived
      ensures Messages() == Handle(old(Messages()), IsFin(first), Opcode(first), fragment)
    {
      var opcode := Opcode(first);
      if opcode == CONTINUATION || opcode == TEXT || opcode == BINARY {
        if opcode != CONTINUATION {
          isBinary := opcode == BINARY;
        }
        message := message + fragment;
        if IsFin(first) {
          delivered := delivered + [(message, isBinary)];
          message := [];
        }
      } else if opcode == PING {
        pongsSent := pongsSent + [fragment];
      } else if opcode == PONG {
        pongReceived := true;
      }
    }

    /** `handle_fragment` */
    method FinishFragment() returns (closing: Option<bytes>)
      requires hasMask ==> |mask| == 4
      modifies this`state, this`fragment, this`message, this`isBinary, this`delivered, this`pongsSent,
        this`pongReceived, this`alive
      ensures Reading() == HandleFragment(old(Reading()))
      ensures closing == if Opcode(first) == CLOSE then Some(FragmentData(old(Reading()))) else None
    {
      UnmaskFragment();
      closing := None;
      if Opcode(first) == CLOSE {
        closing, alive := Some(fragment), false;
      } else {
        HandleData();
      }
      fragment, state := [], MiniHeader;
    }

    /** A Close frame has been received: `close` when none was sent, then the end of reading. */
    method OnPeerClose(data: bytes)
      requires Enabled(Writing(), Stop)
      modifies this`sending, this`writing, this`inFlight, this`enqueued, this`hasSentClose, this`closeConnection,
        this`isReading, this`destroyed
      ensures Writing() == PeerClosed(old(Writing()), data)
    {
      if !hasSentClose {
        Close(ReasonOf(data), StatusOf(data));
      }
      OnStop();
    }

    /** The handshake of `start`. */
    method Start(response: seq<bytes>)
      requires Enabled(Writing(), WebSocketWrite.Start(response))
      modifies this`sending, this`writing, this`inFlight, this`enqueued
      ensures Writing() == Step(old(Writing()), WebSocketWrite.Start(response))
    {
      writing, enqueued := writing + response, enqueued + response;
      DoWrite();
    }

    /** `send_data_impl`: the header and the payload are enqueued together. */
    method SendData(opcode: byte, payload: bytes)
      requires Enabled(Writing(), Send(opcode, payload))
      modifies this`sending, this`writing, this`inFlight, this`enqueued
      ensures Writing() == Step(old(Writing()), Send(opcode, payload))
    {
      ghost var before := writing;
      writing := writing + [BuildHeader(opcode, |payload|)];
      writing := writing + [payload];
      assert writing == before + [BuildHeader(opcode, |payload|), payload];
      enqueued := enqueued + [BuildHeader(opcode, |payload|), payload];
      DoWrite();
    }

    /** The event loop runs the next posted pong. */
    method RunPong()
      requires pongsRun < |pongsSent| && Enabled(Writing(), Send(PONG, pongsSent[pongsRun]))
      modifies this`sending, this`writing, this`inFlight, this`enqueued, this`pongsRun
      ensures Writing() == Step(old(Writing()), Send(PONG, pongsSent[old(pongsRun)]))
      ensures pongsRun == old(pongsRun) + 1 && Reading() == old(Reading())
    {
      SendData(PONG, pongsSent[pongsRun]);
      pongsRun := pongsRun + 1;
    }

    /** `close`: the Close frame is enqueued as three buffers. */
    method Close(reason: bytes, status: bytes)
      requires Enabled(Writing(), WebSocketWrite.Close(reason, status))
      modifies this`sending, this`writing, this`inFlight, this`enqueued, this`hasSentClose
      ensures Writing() == Step(old(Writing()), WebSocketWrite.Close(reason, status))
    {
      ghost var before := writing;
      hasSentClose := true;
      writing := writing + [BuildHeader(CLOSE, |reason| + 2)];
      writing := writing + [status];
      writing := writing + [reason];
      assert writing == before + [BuildHeader(CLOSE, |reason| + 2), status, reason];
      enqueued := enqueued + [BuildHeader(CLOSE, |reason| + 2), status, reason];
      DoWrite();
    }

    /** `do_write`: a write is started only when none is under way. */
    method DoWrite()
      modifies this`sending, this`writing, this`inFlight
      ensures Writing() == WebSocketWrite.DoWrite(old(Writing()))
    {
      if sending == [] {
        sending, writing := writing, sending;
        inFlight := true;
      }
    }

    /** The completion of a write. */
    method OnWritten(ok: bool)
      requires Enabled(Writing(), Completed(ok))
      modifies this`sending, this`writing, this`inFlight, this`closeConnection, this`destroyed, this`batches
      ensures Writing() == Step(old(Writing()), Completed(ok))
    {
      batches := batches + [Batch(sending, ok)];
      if ok && !closeConnection {
        sending, inFlight := [], false;
        if writing != [] {
          DoWrite();
        }
        if hasSentClose {
          closeConnection := true;
        }
      } else {
        sending, inFlight, closeConnection := [], false, true;
        DeleteIfIdle();
      }
    }

    /** The end of reading: an error, or both Close frames seen. */
    method OnStop()
      requires Enabled(Writing(), Stop)
      modifies this`closeConnection, this`isReading, this`destroyed
      ensures Writing() == Step(old(Writing()), Stop)
    {
      isReading, closeConnection := false, true;
      DeleteIfIdle();
    }

    /** `check_destroy` */
    method DeleteIfIdle()
      requires !destroyed
      modifies this`destroyed
      ensures Writing() == CheckDestroy(old(Writing()))
    {
      if sending == [] && !isReading {
        destroyed := true;
      }
    }

    /** A frame above the limit. */
    method OnTooLong()
      requires Enabled(Writing(), TooLong)
      modifies this`closeConnection, this`destroyed, this`overlong
      ensures Writing() == Step(old(Writing()), TooLong)
    {
      closeConnection, overlong := true, true;
      DeleteIfIdle();
    }

    /** The event loop runs one handler. */
    method On(e: Event)
      requires Enabled(Writing(), e)
      modifies this`sending, this`writing, this`inFlight, this`enqueued, this`batches, this`hasSentClose,
        this`closeConnection, this`isReading, this`destroyed, this`overlong
      ensures Writing() == Step(old(Writing()), e)
    {
      match e
      case Start(response) => Start(response);
      case Send(opcode, payload) => SendData(opcode, payload);
      case Close(reason, status) => Close(reason, status);
      case Completed(ok) => OnWritten(ok);
      case Stop => OnStop();
      case TooLong => OnTooLong();
    }
  }

  /** A whole run of the event loop: what the object is left with is what the run says, so all
      that holds of every run holds of the object. */
  method Serve(events: seq<Event>, maxPayload: nat) returns (c: Connection)
    requires IsRun(events)
    ensures c.Writing() == After(events) && Writes(c.Writing())
  {
    c := new Connection(maxPayload);
    var i := 0;
    assert events[..0] == [];
    while i < |events|
      invariant i <= |events| && IsRun(events[..i])
      invariant c.Writing() == After(events[..i])
    {
      RunPrefix(events, i + 1);
      assert events[..i + 1][..i] == events[..i];
      c.On(events[i]);
      i := i + 1;
    }
    assert events[..i] == events;
    RunWrites(events);
  }

  /** A read does not take back a posted pong. */
  lemma PongsGrow(r: Reader, bs: bytes, maxPayload: nat)
    requires Legal(r, bs)
    ensures r.inbox.pongsSent <= Consume(r, bs, maxPayload).inbox.pongsSent
  {
  }

  /** Before the last read the connection is open. */
  lemma ReadsGoOn(r: Reader, chunks: seq<bytes>, maxPayload: nat)
    requires chunks != [] && LegalRun(r, chunks, maxPayload)
    ensures |chunks| > 1 ==> Consume(r, chunks[0], maxPayload).alive && CloseData(r, chunks[0], maxPayload) == None
    ensures |chunks| > 1 ==>
            ClosedWith(Consume(r, chunks[0], maxPayload), chunks[1..], maxPayload) == ClosedWith(r, chunks, maxPayload)
    ensures |chunks| == 1 ==> CloseData(r, chunks[0], maxPayload) == ClosedWith(r, chunks, maxPayload)
  {
    if |chunks| > 1 {
      assert Legal(Consume(r, chunks[0], maxPayload), chunks[1..][0]);
    }
  }

  lemma {:induction false} OpenAtEnd(r: Reader, chunks: seq<bytes>, maxPayload: nat)
    requires LegalRun(r, chunks, maxPayload) && Run(r, chunks, maxPayload).alive
    ensures ClosedWith(r, chunks, maxPayload) == None
    decreases |chunks|
  {
    if |chunks| > 1 {
      OpenAtEnd(Consume(r, chunks[0], maxPayload), chunks[1..], maxPayload);
    } else if |chunks| == 1 {
      assert chunks[1..] == [];
    }
  }

  /** Reads, with posted pongs run in between whenever the event loop gets to them. */
  method ReadAll(c: Connection, chunks: seq<bytes>, turns: nat -> bool)
    requires c.Reading() == START && c.Writing() == OPENED && c.pongsRun == 0
    requires LegalRun(START, chunks, c.maxPayload)
    modifies c
    ensures c.Reading() == Run(START, chunks, c.maxPayload) && c.pongsRun <= |c.pongsSent|
    ensures c.Writing() == AfterRead(Answered(OPENED, c.pongsSent[..c.pongsRun]), c.alive,
                                     ClosedWith(START, chunks, c.maxPayload))
  {
    var i, step := 0, 0;
    while i < |chunks|
      invariant i <= |chunks| && c.pongsRun <= |c.pongsSent|
      invariant LegalRun(c.Reading(), chunks[i..], c.maxPayload)
      invariant Run(c.Reading(), chunks[i..], c.maxPayload) == Run(START, chunks, c.maxPayload)
      invariant i < |chunks| ==> ClosedWith(c.Reading(), chunks[i..], c.maxPayload)
                                 == ClosedWith(START, chunks, c.maxPayload)
      invariant c.Writing() ==
                var w := Answered(OPENED, c.pongsSent[..c.pongsRun]);
                if i < |chunks| then w else AfterRead(w, c.alive, ClosedWith(START, chunks, c.maxPayload))
      decreases |chunks| - i, |c.pongsSent| - c.pongsRun
    {
      if c.pongsRun < |c.pongsSent| && turns(step) {
        assert c.pongsSent[..c.pongsRun + 1][..c.pongsRun] == c.pongsSent[..c.pongsRun];
        c.RunPong();
      } else {
        ghost var r, sent := c.Reading(), c.pongsSent;
        assert chunks[i..][1..] == chunks[i + 1..];
        ReadsGoOn(r, chunks[i..], c.maxPayload);
        PongsGrow(r, chunks[i], c.maxPayload);
        c.OnRead(chunks[i]);
        assert c.pongsSent[..c.pongsRun] == sent[..c.pongsRun];
        i := i + 1;
      }
      step := step + 1;
    }
    assert chunks[i..] == [];
  }

  /** A connection fed with transfers: the message handler gets exactly the peer's messages, and
      each ping is answered with its own payload, in order, whenever the loop runs the answers. */
  method Receive(ghost items: seq<Item>, chunks: seq<bytes>, maxPayload: nat, turns: nat -> bool)
    returns (c: Connection)
    requires (forall item :: item in items ==> ValidItem(item)) && ValidFrames(Frames(items), maxPayload)
    requires LegalRun(START, chunks, maxPayload) && Run(START, chunks, maxPayload).state == MiniHeader
    requires Concat(chunks) == EncodeAll(Frames(items))
    ensures c.alive && c.delivered == Messages(items)
    ensures c.Writing() == Answered(OPENED, Pings(Frames(items)))
  {
    StreamDelivers(items, chunks, maxPayload);
    OpenAtEnd(START, chunks, maxPayload);
    c := new Connection(maxPayload);
    ReadAll(c, chunks, turns);
    RunPongs(c);
  }

  /** The event loop runs what is posted. */
  method RunPongs(c: Connection)
    requires c.pongsRun <= |c.pongsSent|
    requires c.Writing() == Answered(OPENED, c.pongsSent[..c.pongsRun])
    modifies c
    ensures c.Reading() == old(c.Reading()) && c.Writing() == Answered(OPENED, c.pongsSent)
  {
    while c.pongsRun < |c.pongsSent|
      invariant c.pongsRun <= |c.pongsSent| && c.Reading() == old(c.Reading())
      invariant c.Writing() == Answered(OPENED, c.pongsSent[..c.pongsRun])
      decreases |c.pongsSent| - c.pongsRun
    {
      assert c.pongsSent[..c.pongsRun + 1][..c.pongsRun] == c.pongsSent[..c.pongsRun];
      c.RunPong();
    }
    assert c.pongsSent[..c.pongsRun] == c.pongsSent;
  }

  /** A peer that closes: the messages before its Close frame are delivered, the frame is answered,
      after the pongs run until then, and nothing that follows it is read. */
  method ReceiveClose(ghost items: seq<Item>, ghost close: Frame, ghost after: bytes, chunks: seq<bytes>,
                      ghost unread: bytes, maxPayload: nat, turns: nat -> bool)
    returns (c: Connection)
    requires (forall item :: item in items ==> ValidItem(item)) && ValidFrames(Frames(items), maxPayload)
    requires ValidFrame(close) && close.opcode == CLOSE && |close.payload| <= maxPayload
    requires LegalRun(START, chunks, maxPayload) && !Run(START, chunks, maxPayload).alive
    requires Concat(chunks) + unread == EncodeAll(Frames(items)) + (Encode(close) + after)
    ensures !c.alive && c.delivered == Messages(items) && c.pongsSent == Pings(Frames(items)) && unread == after
    ensures c.pongsRun <= |c.pongsSent|
    ensures c.Writing() == PeerClosed(Answered(OPENED, c.pongsSent[..c.pongsRun]), close.payload)
  {
    CloseEndsStream(items, close, after, chunks, unread, maxPayload);
    c := new Connection(maxPayload);
    ReadAll(c, chunks, turns);
  }
}
