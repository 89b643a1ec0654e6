/**
 * The write side of crow/websocket.h.
 */
module WebSocketWrite {

  import opened Octets
  import opened Wrappers
  import opened WebSocketRead

  // The two buffers of `do_write`, the completion of a socket write, `close`, and the deletion of the
  // connection in `check_destroy`. A run is any order of sends, a close, completions and the end of
  // reading that the event loop may take.

  /** What one asynchronous write was given, and whether it completed without an error. */
  datatype Batch = Batch(buffers: seq<bytes>, ok: bool)

  datatype Writer = Writer(
    sending: seq<bytes>,   // sending_buffers_
    writing: seq<bytes>,   // write_buffers_
    inFlight: bool,        // an asynchronous write has been started and not completed
    closing: bool,         // close_connection_
    sentClose: bool,       // has_sent_close_
    reading: bool,         // is_reading
    overlong: bool,        // a frame above the limit was announced: no read is outstanding any more
    destroyed: bool,
    enqueued: seq<bytes>,  // every buffer ever appended to write_buffers_
    batches: seq<Batch>)   // every completed write

  const OPENED := Writer([], [], false, false, false, true, false, false, [], [])

  datatype Event =
    | Start(response: seq<bytes>)          // the handshake
    | Send(opcode: byte, payload: bytes)   // send_data_impl
    | Close(reason: bytes, status: bytes)
    | Completed(ok: bool)                  // the completion handler of the write
    | Stop                                 // reading has ended and the socket is closed
    | TooLong                              // the same for a frame above the limit: is_reading stays set

  function DoWrite(w: Writer): Writer {
    if w.sending == [] then w.(sending := w.writing, writing := [], inFlight := true) else w
  }

  function Enqueue(w: Writer, buffers: seq<bytes>): Writer {
    DoWrite(w.(writing := w.writing + buffers, enqueued := w.enqueued + buffers))
  }

  function CheckDestroy(w: Writer): Writer { w.(destroyed := w.sending == [] && !w.reading) }

  function OnCompleted(w: Writer, ok: bool): Writer {
    var done := w.(batches := w.batches + [Batch(w.sending, ok)], sending := [], inFlight := false);
    if ok && !w.closing then
      var next := if done.writing != [] then DoWrite(done) else done;
      next.(closing := w.sentClose)
    else
      CheckDestroy(done.(closing := true))
  }

  /** The buffers an event appends. */
  function Appended(e: Event): seq<bytes>
    requires e.Send? ==> e.opcode < 16
  {
    match e
    case Start(response) => response
    case Send(opcode, payload) => [BuildHeader(opcode, |payload|), payload]
    case Close(reason, status) => [BuildHeader(CLOSE, |reason| + 2), status, reason]
    case _ => []
  }

  predicate Appends(e: Event) { e.Start? || e.Send? || e.Close? }

  predicate Enabled(w: Writer, e: Event) {
    && !w.destroyed
    && match e
       case Start(response) => response != []
       case Send(opcode, _) => opcode < 16
       case Close(_, status) => |status| == 2
       case Completed(_) => w.inFlight
       case Stop => w.reading && !w.overlong
       case TooLong => w.reading && !w.overlong
  }

  function Step(w: Writer, e: Event): Writer
    requires Enabled(w, e)
  {
    match e
    case Completed(ok) => OnCompleted(w, ok)
    case Stop => CheckDestroy(w.(closing := true, reading := false))
    case TooLong => CheckDestroy(w.(closing := true, overlong := true))
    case Close(_, _) => Enqueue(w.(sentClose := true), Appended(e))
    case _ => Enqueue(w, Appended(e))
  }

  predicate IsRun(es: seq<Event>)
    decreases |es|, 0
  {
    es == [] || (IsRun(es[..|es| - 1]) && Enabled(After(es[..|es| - 1]), es[|es| - 1]))
  }

  function After(es: seq<Event>): Writer
    requires IsRun(es)
    decreases |es|, 1
  {
    if es == [] then OPENED else Step(After(es[..|es| - 1]), es[|es| - 1])
  }

  // ----- What every run keeps -----

  function Flat(batches: seq<Batch>): seq<bytes> {
    if batches == [] then [] else Flat(batches[..|batches| - 1]) + batches[|batches| - 1].buffers
  }

  /** Nothing is lost, repeated or reordered between the queue and the socket; buffers are out
      exactly while a write is under way; without a closing connection none wait idly; and the
      object is deleted only with no write and no read outstanding. */
  ghost predicate Writes(w: Writer) {
    && Flat(w.batches) + w.sending + w.writing == w.enqueued
    && (w.inFlight <==> w.sending != [])
    && (w.sending == [] && w.writing != [] ==> w.closing)
    && (w.destroyed ==> !w.inFlight && !w.reading && w.closing)
    && (w.overlong ==> w.reading)
  }

  lemma FlatSnoc(batches: seq<Batch>, b: Batch)
    ensures Flat(batches + [b]) == Flat(batches) + b.buffers
  {
    assert (batches + [b])[..|batches|] == batches;
  }

  lemma StepWrites(w: Writer, e: Event)
    requires Writes(w) && Enabled(w, e)
    ensures Writes(Step(w, e))
  {
    if Appends(e) {
      EnqueueWrites(w, e);
    } else if e.Completed? {
      CompletedWrites(w, e.ok);
    }
  }

  lemma EnqueueWrites(w: Writer, e: Event)
    requires Writes(w) && Enabled(w, e) && Appends(e)
    ensures Writes(Step(w, e))
  {
    var buffers := Appended(e);
    assert buffers != [];
    assert Flat(w.batches) + w.sending + (w.writing + buffers) == w.enqueued + buffers;
    if w.sending == [] {
      assert Flat(w.batches) + (w.writing + buffers) + [] == w.enqueued + buffers;
    }
  }

  lemma CompletedWrites(w: Writer, ok: bool)
    requires Writes(w) && !w.destroyed && w.inFlight
    ensures Writes(OnCompleted(w, ok))
  {
    FlatSnoc(w.batches, Batch(w.sending, ok));
    var out := Flat(w.batches) + w.sending;
    assert out + [] + w.writing == out + w.writing + [] == w.enqueued;
  }

  lemma {:induction false} RunWrites(es: seq<Event>)
    requires IsRun(es)
    ensures Writes(After(es))
  {
    if es != [] {
      var n := |es| - 1;
      RunWrites(es[..n]);
      StepWrites(After(es[..n]), es[n]);
    }
  }

  /** Opcodes have four bits. */
  predicate SendsFit(es: seq<Event>) { forall e :: e in es ==> e.Send? ==> e.opcode < 16 }

  function AllAppended(es: seq<Event>): seq<bytes>
    requires SendsFit(es)
  {
    if es == [] then [] else AllAppended(es[..|es| - 1]) + Appended(es[|es| - 1])
  }

  lemma {:induction false} RunEnqueues(es: seq<Event>)
    requires IsRun(es)
    ensures SendsFit(es)
    ensures After(es).enqueued == AllAppended(es)
  {
    if es != [] {
      var n := |es| - 1;
      RunEnqueues(es[..n]);
      StepEnqueues(After(es[..n]), es[n]);
    }
  }

  lemma StepEnqueues(w: Writer, e: Event)
    requires Enabled(w, e)
    ensures Step(w, e).enqueued == w.enqueued + Appended(e)
  {
  }

  /** Over every run: what the completed writes were given, what is out and what waits is, in
      this order, everything that was sent, and one write at most is under way. */
  lemma NothingIsLost(es: seq<Event>)
    requires IsRun(es)
    ensures SendsFit(es)
    ensures var w := After(es);
      Flat(w.batches) + w.sending + w.writing == AllAppended(es) && (w.inFlight <==> w.sending != [])
  {
    RunWrites(es);
    RunEnqueues(es);
  }

  /** Until its completion the buffers of a write stay as they were handed to the socket. */
  lemma OneWriteAtATime(es: seq<Event>, e: Event)
    requires IsRun(es) && Enabled(After(es), e) && After(es).inFlight && !e.Completed?
    ensures var w, w' := After(es), Step(After(es), e);
      w'.inFlight && w'.sending == w.sending && w'.batches == w.batches
  {
    RunWrites(es);
  }

  /** The object goes exactly when its last read and its last write have ended after a close. */
  lemma DestroyedExactly(es: seq<Event>, e: Event)
    requires IsRun(es) && Enabled(After(es), e)
    ensures var w, w' := After(es), Step(After(es), e);
      w'.destroyed <==> (e.Stop? && !w.inFlight) || (e.Completed? && (!e.ok || w.closing) && !w.reading)
  {
    RunWrites(es);
  }

  lemma {:induction false} OverlongSeen(es: seq<Event>)
    requires IsRun(es)
    ensures After(es).overlong <==> TooLong in es
  {
    if es != [] {
      var n := |es| - 1;
      OverlongSeen(es[..n]);
      StepOverlong(After(es[..n]), es[n]);
      assert es == es[..n] + [es[n]];
    }
  }

  lemma StepOverlong(w: Writer, e: Event)
    requires Enabled(w, e)
    ensures Step(w, e).overlong <==> w.overlong || e == TooLong
  {
  }

  /** After a frame above the limit the object is never deleted: is_reading stays set. */
  lemma TooLongIsKept(es: seq<Event>)
    requires IsRun(es) && TooLong in es
    ensures !After(es).destroyed
  {
    RunWrites(es);
    OverlongSeen(es);
  }

  // ----- Buffers that stay unsent -----

  /** Buffers wait and no write is under way that would pick them up. */
  predicate Stranded(w: Writer) { w.writing != [] && !w.inFlight }

  /** A completion that finds the connection closing, or an error, with buffers waiting. */
  predicate Strands(w: Writer, e: Event) { e.Completed? && (!e.ok || w.closing) && w.writing != [] }

  lemma StepStrands(es: seq<Event>, e: Event)
    requires IsRun(es) && Enabled(After(es), e)
    ensures Stranded(Step(After(es), e)) <==> Strands(After(es), e) || (Stranded(After(es)) && !Appends(e))
  {
    RunWrites(es);
    if Appends(e) {
      assert Appended(e) != [];
    }
  }

  lemma {:induction false} RunPrefix(es: seq<Event>, k: nat)
    requires IsRun(es) && k <= |es|
    ensures IsRun(es[..k])
  {
    if k == |es| {
      assert es[..k] == es;
    } else {
      var n := |es| - 1;
      RunPrefix(es[..n], k);
      assert es[..n][..k] == es[..k];
    }
  }

  /** The step at `k` strands buffers and nothing was sent after it. */
  ghost predicate StrandedAt(es: seq<Event>, k: nat)
    requires IsRun(es)
  {
    && k < |es|
    && (RunPrefix(es, k); Strands(After(es[..k]), es[k]))
    && forall j :: k < j < |es| ==> !Appends(es[j])
  }

  /** Buffers stay unsent exactly when a completion found the connection closing, or failed,
      while they waited, and nothing was sent since: the next send writes them too. */
  lemma {:induction false} StrandedExactly(es: seq<Event>)
    requires IsRun(es)
    ensures Stranded(After(es)) <==> exists k: nat :: StrandedAt(es, k)
  {
    if es != [] {
      var n := |es| - 1;
      StrandedExactly(es[..n]);
      StepStrands(es[..n], es[n]);
      StrandedSnoc(es);
    }
  }

  lemma {:induction false} StrandedSnoc(es: seq<Event>)
    requires IsRun(es) && es != []
    ensures var n := |es| - 1;
      (exists k: nat :: StrandedAt(es, k))
      <==> Strands(After(es[..n]), es[n]) || (!Appends(es[n]) && exists k: nat :: StrandedAt(es[..n], k))
  {
    var n := |es| - 1;
    assert StrandedAt(es, n) <==> Strands(After(es[..n]), es[n]);
    if k: nat :| StrandedAt(es[..n], k) {
      StrandedEarlier(es, k);
    }
    if k: nat :| k < n && StrandedAt(es, k) {
      StrandedEarlier(es, k);
    }
  }

  lemma {:induction false} StrandedEarlier(es: seq<Event>, k: nat)
    requires IsRun(es) && k < |es| - 1
    ensures StrandedAt(es, k) <==> StrandedAt(es[..|es| - 1], k) && !Appends(es[|es| - 1])
  {
    var n := |es| - 1;
    RunPrefix(es, k);
    assert es[..n][..k] == es[..k];
    assert forall j :: k < j < n ==> es[..n][j] == es[j];
  }

  /** An end of reading, a failed write, or a write completed after a Close was sent. */
  predicate ClosesAt(es: seq<Event>, k: nat)
    requires k < |es|
  {
    || es[k].Stop? || es[k].TooLong?
    || (es[k].Completed? && (!es[k].ok || exists j :: 0 <= j < k && es[j].Close?))
  }

  lemma {:induction false} ClosingExactly(es: seq<Event>)
    requires IsRun(es)
    ensures After(es).sentClose <==> exists j :: 0 <= j < |es| && es[j].Close?
    ensures After(es).closing <==> exists k: nat :: k < |es| && ClosesAt(es, k)
  {
    if es != [] {
      var n := |es| - 1;
      ClosingExactly(es[..n]);
      assert forall k :: 0 <= k < n ==> es[..n][k] == es[k];
      forall k: nat | k < n ensures ClosesAt(es, k) <==> ClosesAt(es[..n], k) {
      }
      StepCloses(After(es[..n]), es[n]);
      CloseSeen(es);
      if After(es).closing && !After(es[..n]).closing {
        assert ClosesAt(es, n);
      }
    }
  }

  lemma CloseSeen(es: seq<Event>)
    requires es != []
    ensures var n := |es| - 1;
      (exists j :: 0 <= j < |es| && es[j].Close?)
      <==> (es[n].Close? || exists j :: 0 <= j < n && es[..n][j].Close?)
  {
    var n := |es| - 1;
    if j :| 0 <= j < n && es[..n][j].Close? {
      assert es[j].Close?;
    }
    if j :| 0 <= j < |es| && es[j].Close? {
      assert j == n || es[..n][j].Close?;
    }
  }

  lemma StepCloses(w: Writer, e: Event)
    requires Enabled(w, e)
    ensures var w' := Step(w, e);
      && (w'.sentClose <==> w.sentClose || e.Close?)
      && (w'.closing <==> w.closing || e.Stop? || e.TooLong? || (e.Completed? && (!e.ok || w.sentClose)))
  {
  }

  // ----- What arrives -----

  function Written(batches: seq<Batch>): seq<bytes> {
    if batches == [] then []
    else
      var last := batches[|batches| - 1];
      Written(batches[..|batches| - 1]) + if last.ok then last.buffers else []
  }

  predicate IsData(opcode: byte) { opcode == TEXT || opcode == BINARY }

  /** What `send_text`, `send_binary`, `send_ping` and `send_pong` send. */
  predicate IsSent(opcode: byte, payload: bytes) {
    (IsData(opcode) || opcode == PING || opcode == PONG) && |payload| < TWO_64
  }

  /** Messages, pings and pongs, and writes that succeed. */
  predicate Healthy(es: seq<Event>) {
    forall e :: e in es ==> (e.Send? && IsSent(e.opcode, e.payload)) || e == Completed(true)
  }

  lemma {:induction false} HealthyPrefix(es: seq<Event>)
    requires Healthy(es) && es != []
    ensures Healthy(es[..|es| - 1])
    ensures var e := es[|es| - 1]; (e.Send? && IsSent(e.opcode, e.payload)) || e == Completed(true)
  {
    assert es[|es| - 1] in es;
    forall e | e in es[..|es| - 1] ensures e in es {
    }
  }

  lemma {:induction false} HealthyRun(es: seq<Event>)
    requires IsRun(es) && Healthy(es)
    ensures !After(es).closing && !After(es).sentClose && Written(After(es).batches) == Flat(After(es).batches)
  {
    if es != [] {
      var n := |es| - 1;
      HealthyPrefix(es);
      HealthyRun(es[..n]);
      var bs := After(es[..n]).batches;
      if es[n].Completed? {
        var b := Batch(After(es[..n]).sending, true);
        assert After(es).batches == bs + [b];
        assert (bs + [b])[..|bs|] == bs;
      }
    }
  }

  function ItemOf(opcode: byte, payload: bytes): Item {
    if IsData(opcode) then Message(opcode == BINARY, Piece(ServerFrame(opcode, payload).form, None, payload), [])
    else Control(ServerFrame(opcode, payload))
  }

  function Items(es: seq<Event>): seq<Item> {
    if es == [] then []
    else
      var e := es[|es| - 1];
      Items(es[..|es| - 1]) + if e.Send? then [ItemOf(e.opcode, e.payload)] else []
  }

  function FramesOf(es: seq<Event>): (fs: seq<Frame>)
    requires Healthy(es)
    ensures forall f :: f in fs ==> ValidFrame(f)
  {
    if es == [] then []
    else
      var e := es[|es| - 1];
      HealthyPrefix(es);
      FramesOf(es[..|es| - 1]) + if e.Send? then [ServerFrame(e.opcode, e.payload)] else []
  }

  /** The messages sent, in order. */
  function Sent(es: seq<Event>): seq<(bytes, bool)> {
    if es == [] then []
    else
      var e := es[|es| - 1];
      Sent(es[..|es| - 1]) + if e.Send? && IsData(e.opcode) then [(e.payload, e.opcode == BINARY)] else []
  }

  /** The payloads of the pings sent, in order. */
  function PingsSent(es: seq<Event>): seq<bytes> {
    if es == [] then []
    else
      var e := es[|es| - 1];
      PingsSent(es[..|es| - 1]) + if e.Send? && e.opcode == PING then [e.payload] else []
  }

  lemma {:induction false} ConcatAppend(a: seq<bytes>, b: seq<bytes>)
    ensures Concat(a + b) == Concat(a) + Concat(b)
    decreases |a|
  {
    if a == [] {
      assert a + b == b;
    } else {
      assert (a + b)[1..] == a[1..] + b;
      ConcatAppend(a[1..], b);
    }
  }

  lemma {:induction false} EncodeSnoc(fs: seq<Frame>, f: Frame)
    requires (forall g :: g in fs ==> ValidFrame(g)) && ValidFrame(f)
    ensures forall g :: g in fs + [f] ==> ValidFrame(g)
    ensures EncodeAll(fs + [f]) == EncodeAll(fs) + Encode(f)
    decreases |fs|
  {
    if fs == [] {
      assert fs + [f] == [f] && [f][1..] == [];
      assert Encode(f) + [] == Encode(f);
    } else {
      assert (fs + [f])[0] == fs[0] && (fs + [f])[1..] == fs[1..] + [f];
      EncodeSnoc(fs[1..], f);
      Regroup(Encode(fs[0]), EncodeAll(fs[1..]), Encode(f));
    }
  }

  lemma {:induction false} FramesSnoc(items: seq<Item>, item: Item)
    ensures Frames(items + [item]) == Frames(items) + ItemFrames(item)
    decreases |items|
  {
    if items == [] {
      assert items + [item] == [item] && [item][1..] == [];
    } else {
      assert (items + [item])[1..] == items[1..] + [item];
      FramesSnoc(items[1..], item);
      Regroup(ItemFrames(items[0]), Frames(items[1..]), ItemFrames(item));
    }
  }

  lemma {:induction false} MessagesSnoc(items: seq<Item>, item: Item)
    ensures Messages(items + [item]) == Messages(items) + ItemMessages(item)
    decreases |items|
  {
    if items == [] {
      assert items + [item] == [item] && [item][1..] == [];
    } else {
      assert (items + [item])[1..] == items[1..] + [item];
      MessagesSnoc(items[1..], item);
      Regroup(ItemMessages(items[0]), Messages(items[1..]), ItemMessages(item));
    }
  }

  lemma SentItem(opcode: byte, payload: bytes)
    requires IsSent(opcode, payload)
    ensures ItemFrames(ItemOf(opcode, payload)) == [ServerFrame(opcode, payload)]
    ensures ItemMessages(ItemOf(opcode, payload)) == if IsData(opcode) then [(payload, opcode == BINARY)] else []
    ensures ValidItem(ItemOf(opcode, payload))
  {
    assert payload + [] == payload;
  }

  lemma {:induction false} PingsSnoc(fs: seq<Frame>, f: Frame)
    ensures Pings(fs + [f]) == Pings(fs) + if f.opcode == PING then [f.payload] else []
    decreases |fs|
  {
    var own := if f.opcode == PING then [f.payload] else [];
    if fs == [] {
      assert fs + [f] == [f] && [f][1..] == [];
    } else {
      assert (fs + [f])[1..] == fs[1..] + [f];
      PingsSnoc(fs[1..], f);
      Regroup(if fs[0].opcode == PING then [fs[0].payload] else [], Pings(fs[1..]), own);
    }
  }

  lemma {:induction false} SentItems(es: seq<Event>)
    requires Healthy(es)
    ensures Frames(Items(es)) == FramesOf(es) && Messages(Items(es)) == Sent(es)
    ensures Pings(FramesOf(es)) == PingsSent(es)
    ensures forall item :: item in Items(es) ==> ValidItem(item)
  {
    if es != [] {
      var n := |es| - 1;
      HealthyPrefix(es);
      SentItems(es[..n]);
      if es[n].Send? {
        var item := ItemOf(es[n].opcode, es[n].payload);
        FramesSnoc(Items(es[..n]), item);
        MessagesSnoc(Items(es[..n]), item);
        SentItem(es[n].opcode, es[n].payload);
        PingsSnoc(FramesOf(es[..n]), ServerFrame(es[n].opcode, es[n].payload));
      } else {
        NothingSent(es);
      }
    }
  }

  lemma NothingSent(es: seq<Event>)
    requires Healthy(es) && es != [] && !es[|es| - 1].Send?
    ensures var front := es[..|es| - 1];
      && Healthy(front) && Items(es) == Items(front) && FramesOf(es) == FramesOf(front)
      && Sent(es) == Sent(front) && PingsSent(es) == PingsSent(front)
  {
    HealthyPrefix(es);
  }

  lemma SentFrame(opcode: byte, payload: bytes)
    requires IsSent(opcode, payload)
    ensures ValidFrame(ServerFrame(opcode, payload))
    ensures Concat([BuildHeader(opcode, |payload|), payload]) == Encode(ServerFrame(opcode, payload))
  {
    HeaderEncodes(opcode, payload);
    ConcatPair(BuildHeader(opcode, |payload|), payload);
  }

  lemma CloseFrame(reason: bytes, status: bytes)
    requires |status| == 2 && |reason| + 2 < TWO_64
    ensures ValidFrame(ServerFrame(CLOSE, status + reason))
    ensures Concat([BuildHeader(CLOSE, |reason| + 2), status, reason]) == Encode(ServerFrame(CLOSE, status + reason))
  {
    var h := BuildHeader(CLOSE, |reason| + 2);
    HeaderEncodes(CLOSE, status + reason);
    assert [h, status, reason][1..] == [status, reason];
    ConcatPair(status, reason);
  }

  lemma ConcatPair(a: bytes, b: bytes)
    ensures Concat([a, b]) == a + b
  {
    assert [a, b][1..] == [b] && [b][1..] == [];
    assert Concat([b]) == b + [] == b;
  }

  lemma {:induction false} SentFrames(es: seq<Event>)
    requires Healthy(es) && SendsFit(es)
    ensures Concat(AllAppended(es)) == EncodeAll(FramesOf(es))
  {
    if es != [] {
      var n := |es| - 1;
      HealthyPrefix(es);
      SentFrames(es[..n]);
      if es[n].Send? {
        MoreFrames(AllAppended(es[..n]), FramesOf(es[..n]), es[n].opcode, es[n].payload);
      } else {
        assert AllAppended(es) == AllAppended(es[..n]) && FramesOf(es) == FramesOf(es[..n]);
      }
    }
  }

  lemma MoreFrames(buffers: seq<bytes>, fs: seq<Frame>, opcode: byte, payload: bytes)
    requires IsSent(opcode, payload)
    requires (forall f :: f in fs ==> ValidFrame(f)) && Concat(buffers) == EncodeAll(fs)
    ensures ValidFrame(ServerFrame(opcode, payload))
    ensures Concat(buffers + [BuildHeader(opcode, |payload|), payload]) ==
        EncodeAll(fs + [ServerFrame(opcode, payload)])
  {
    ConcatAppend(buffers, [BuildHeader(opcode, |payload|), payload]);
    SentFrame(opcode, payload);
    EncodeSnoc(fs, ServerFrame(opcode, payload));
  }

  predicate WithinLimit(es: seq<Event>, maxPayload: nat) {
    forall e :: e in es ==> e.Send? ==> |e.payload| <= maxPayload
  }

  lemma {:induction false} SentWithinLimit(es: seq<Event>, maxPayload: nat)
    requires Healthy(es) && WithinLimit(es, maxPayload)
    ensures ValidFrames(FramesOf(es), maxPayload)
  {
    if es != [] {
      var n := |es| - 1;
      HealthyPrefix(es);
      SentWithinLimit(es[..n], maxPayload);
      if es[n].Send? {
        HeaderEncodes(es[n].opcode, es[n].payload);
      }
    }
  }

  /** From end to end: whatever a connection sends, however its writes are batched and however the
      transport cuts the bytes, once no write is under way a reader of the same kind has been given
      exactly its messages and has answered exactly its pings, in order. */
  lemma SentMessagesArrive(es: seq<Event>, chunks: seq<bytes>, maxPayload: nat)
    requires IsRun(es) && Healthy(es) && WithinLimit(es, maxPayload) && !After(es).inFlight
    requires LegalRun(START, chunks, maxPayload) && Run(START, chunks, maxPayload).state == MiniHeader
    requires Concat(chunks) == Concat(Written(After(es).batches))
    ensures Run(START, chunks, maxPayload).inbox.delivered == Sent(es)
    ensures Run(START, chunks, maxPayload).inbox.pongsSent == PingsSent(es)
  {
    HealthyRun(es);
    RunWrites(es);
    NothingIsLost(es);
    var w := After(es);
    assert Flat(w.batches) + [] + [] == Flat(w.batches);
    SentItems(es);
    SentFrames(es);
    SentWithinLimit(es, maxPayload);
    StreamDelivers(Items(es), chunks, maxPayload);
  }

  // ----- A Close among the sends -----

  predicate AllSucceed(es: seq<Event>) { forall e :: e in es ==> e.Completed? ==> e.ok }

  lemma {:induction false} AllWritten(es: seq<Event>)
    requires IsRun(es) && AllSucceed(es)
    ensures Written(After(es).batches) == Flat(After(es).batches)
  {
    if es != [] {
      var n := |es| - 1;
      assert es[n] in es;
      AllWritten(es[..n]);
      if es[n].Completed? {
        OneMoreWritten(After(es[..n]).batches, Batch(After(es[..n]).sending, true));
      }
    }
  }

  lemma OneMoreWritten(batches: seq<Batch>, b: Batch)
    requires Written(batches) == Flat(batches) && b.ok
    ensures Written(batches + [b]) == Flat(batches + [b])
  {
    assert (batches + [b])[..|batches|] == batches;
  }

  /** What the events up to `k` append comes first. */
  lemma {:induction false} AppendedUpTo(es: seq<Event>, k: nat) returns (rest: seq<bytes>)
    requires SendsFit(es) && k < |es|
    ensures SendsFit(es[..k]) && (es[k].Send? ==> es[k].opcode < 16)
    ensures AllAppended(es) == AllAppended(es[..k]) + Appended(es[k]) + rest
    decreases |es|
  {
    var n := |es| - 1;
    SendsFitUpTo(es, k);
    if k == n {
      rest := [];
      assert AllAppended(es[..k]) + Appended(es[k]) + [] == AllAppended(es[..k]) + Appended(es[k]);
    } else {
      SendsFitUpTo(es, n);
      var before := AppendedUpTo(es[..n], k);
      assert es[..n][..k] == es[..k];
      rest := before + Appended(es[n]);
      Regroup(AllAppended(es[..k]) + Appended(es[k]), before, Appended(es[n]));
    }
  }

  lemma SendsFitUpTo(es: seq<Event>, k: nat)
    requires SendsFit(es) && k < |es|
    ensures SendsFit(es[..k]) && (es[k].Send? ==> es[k].opcode < 16)
  {
    assert es[k] in es;
  }

  lemma CloseFits(es: seq<Event>, k: nat)
    requires IsRun(es) && k < |es| && es[k].Close?
    ensures |es[k].status| == 2
  {
    RunPrefix(es, k + 1);
    assert es[..k + 1][..k] == es[..k];
  }

  /** Whatever is sent around a Close frame, once the peer's reader has ended it has been given the
      messages sent before the frame, and its status and reason; nothing sent later. */
  lemma SentBeforeClose(es: seq<Event>, k: nat, chunks: seq<bytes>, unread: bytes, maxPayload: nat)
    requires IsRun(es) && AllSucceed(es) && k < |es| && Healthy(es[..k]) && WithinLimit(es[..k], maxPayload)
    requires es[k].Close? && |es[k].reason| + 2 <= maxPayload && |es[k].reason| + 2 < TWO_64
    requires LegalRun(START, chunks, maxPayload) && !Run(START, chunks, maxPayload).alive
    requires Concat(chunks) + unread == Concat(Written(After(es).batches))
    ensures Run(START, chunks, maxPayload).inbox.delivered == Sent(es[..k])
    ensures Run(START, chunks, maxPayload).inbox.pongsSent == PingsSent(es[..k])
    ensures ClosedWith(START, chunks, maxPayload) == Some(es[k].status + es[k].reason)
  {
    var before := es[..k];
    AllWritten(es);
    NothingIsLost(es);
    var rest := AppendedUpTo(es, k);
    var w := After(es);
    SentItems(before);
    SentFrames(before);
    SentWithinLimit(before, maxPayload);
    CloseFits(es, k);
    CloseFrame(es[k].reason, es[k].status);
    var close := ServerFrame(CLOSE, es[k].status + es[k].reason);
    var pending := Concat(w.sending + w.writing);
    StreamIs(Flat(w.batches), w.sending, w.writing, AllAppended(before), Appended(es[k]), rest);
    Regroup(Concat(chunks), unread, pending);
    Regroup(EncodeAll(FramesOf(before)), Encode(close), Concat(rest));
    CloseEndsStream(Items(before), close, Concat(rest), chunks, unread + pending, maxPayload);
  }

  lemma StreamIs(a: seq<bytes>, b: seq<bytes>, c: seq<bytes>, x: seq<bytes>, y: seq<bytes>, z: seq<bytes>)
    requires a + b + c == x + y + z
    ensures Concat(a) + Concat(b + c) == Concat(x) + Concat(y) + Concat(z)
  {
    ConcatAppend(a, b + c);
    Regroup(a, b, c);
    ConcatAppend(x + y, z);
    ConcatAppend(x, y);
  }

  /** A connection that is not closed drains: two completions leave nothing unsent. */
  lemma DrainsInTwo(es: seq<Event>)
    requires IsRun(es) && After(es).inFlight && !After(es).closing && !After(es).sentClose && !After(es).destroyed
    ensures var w := Step(After(es), Completed(true));
      && (!w.inFlight ==> w.writing == [])
      && (w.inFlight ==> var w' := Step(w, Completed(true)); !w'.inFlight && w'.writing == [])
  {
    RunWrites(es);
    StepWrites(After(es), Completed(true));
  }

  // ----- Two runs -----

  lemma RunSnoc(es: seq<Event>, e: Event)
    requires IsRun(es) && Enabled(After(es), e)
    ensures IsRun(es + [e]) && After(es + [e]) == Step(After(es), e)
  {
    assert (es + [e])[..|es|] == es;
  }

  /** After a Close two messages are sent: the second is never written. */
  lemma SecondStaysUnsent(status: bytes, a: bytes, b: bytes) returns (es: seq<Event>)
    requires |status| == 2
    ensures es == [Close([], status), Completed(true), Send(TEXT, a), Send(TEXT, b), Completed(true)]
    ensures IsRun(es) && Stranded(After(es)) && After(es).writing == [BuildHeader(TEXT, |b|), b]
  {
    es := [];
    RunSnoc(es, Close([], status));
    es := es + [Close([], status)];
    RunSnoc(es, Completed(true));
    es := es + [Completed(true)];
    assert After(es) == OPENED.(closing := true, sentClose := true,
                                enqueued := After(es).enqueued, batches := After(es).batches);
    RunSnoc(es, Send(TEXT, a));
    es := es + [Send(TEXT, a)];
    RunSnoc(es, Send(TEXT, b));
    es := es + [Send(TEXT, b)];
    RunSnoc(es, Completed(true));
    es := es + [Completed(true)];
  }

  /** An over-long frame while a write is out: when the write is done nothing is outstanding, and
      the object stays. */
  lemma KeptForGood(a: bytes) returns (es: seq<Event>)
    ensures es == [Send(TEXT, a), TooLong, Completed(true)] && IsRun(es)
    ensures var w := After(es); w.closing && !w.inFlight && w.writing == [] && !w.destroyed
    ensures !Enabled(After(es), Stop) && !Enabled(After(es), TooLong)
  {
    es := [];
    RunSnoc(es, Send(TEXT, a));
    es := es + [Send(TEXT, a)];
    RunSnoc(es, TooLong);
    es := es + [TooLong];
    RunSnoc(es, Completed(true));
    es := es + [Completed(true)];
  }
}
