/**
 * The body states of the HTTP/1.1 parser in crow/http_parser_merged.h: Content-Length bodies and
 * chunked bodies (section 4.1 of RFC 7230).
 */
module HttpBody {

  import opened Octets

  // `Step` is the machine one byte at a time; class HttpParser reads whole buffers, taking body data in
  // blocks and delivering it through a mark, as the source does. The callback at the end of a message runs
  // the request's handler; a handler that completes its response before it returns clears the parser
  // (crow/http_connection.h, do_write_sync), and the next byte belongs to the next request.

  const TWO_64: nat := 0x1_0000_0000_0000_0000
  const ULLONG_MAX: nat := TWO_64 - 1
  const MAX_HEADER_SIZE: nat := 80 * 1024

  const CR: byte := 13
  const LF: byte := 10
  const SPACE: byte := 32
  const SEMICOLON: byte := 59

  datatype State =
    | ChunkSizeStart | ChunkSize | ChunkParameters | ChunkSizeAlmostDone
    | HeaderFieldStart | HeadersAlmostDone
    | ChunkData | ChunkDataAlmostDone | ChunkDataDone
    | BodyIdentity | MessageDone | StartReq

  /** TRAILER_FIELD is not an error of the source: a trailer field begins, and the header
      states that would read it are not part of this model. */
  datatype Errno = OK | INVALID_CHUNK_SIZE | INVALID_CONTENT_LENGTH | STRICT | HEADER_OVERFLOW | TRAILER_FIELD

  /** Whether the handler completes its response before it returns, for each of its calls. */
  type Answers = nat -> bool

  /** `message_complete`, the bodies the handler was called with, and the bytes left to the states of
      the next request, which are not part of this model. */
  datatype Calls = Calls(complete: bool, bodies: seq<seq<byte>>, next: seq<byte>, answers: Answers)

  /** The parser's fields, with the body of its request, and what became of its requests. */
  datatype Core = Core(state: State, contentLength: nat, nread: nat, trailing: bool, errno: Errno,
                       body: seq<byte>, calls: Calls)

  /** The states whose bytes count towards the header size limit. */
  predicate ParsingHeader(s: State) {
    s.ChunkSizeStart? || s.ChunkSize? || s.ChunkParameters? || s.ChunkSizeAlmostDone? ||
    s.HeaderFieldStart? || s.HeadersAlmostDone?
  }

  /** The table `unhex`: its entries from 128 on are left out, so they are zero. */
  function Unhex(b: byte): (v: int)
    ensures -1 <= v < 16
  {
    if 48 <= b <= 57 then b - 48
    else if 65 <= b <= 70 then b - 55
    else if 97 <= b <= 102 then b - 87
    else if b >= 128 then 0
    else -1
  }

  function Fail(c: Core, e: Errno): Core { c.(errno := e) }

  /** `HTTPParser::clear` */
  function Clear(c: Core): Core { c.(state := StartReq, body := [], calls := c.calls.(complete := false)) }

  function Call(calls: Calls, body: seq<byte>): Calls {
    calls.(complete := true, bodies := calls.bodies + [body])
  }

  /** `on_message_complete`: the handler is called, and clears the parser when it answers. */
  function Complete(c: Core): Core {
    var c' := c.(calls := Call(c.calls, c.body));
    if c.calls.answers(|c.calls.bodies|) then Clear(c') else c'
  }

  function Step(c: Core, ch: byte): Core {
    if c.errno != OK then c
    else
      var nread := if ParsingHeader(c.state) then c.nread + 1 else c.nread;
      if ParsingHeader(c.state) && nread > MAX_HEADER_SIZE then Fail(c.(nread := nread), HEADER_OVERFLOW)
      else Switch(c.(nread := nread), ch)
  }

  function Switch(c: Core, ch: byte): Core {
    match c.state
    case ChunkSizeStart =>
      if Unhex(ch) == -1 then Fail(c, INVALID_CHUNK_SIZE)
      else c.(contentLength := Unhex(ch), state := ChunkSize)
    case ChunkSize =>
      if ch == CR then c.(state := ChunkSizeAlmostDone)
      else if Unhex(ch) == -1 then
        if ch == SEMICOLON || ch == SPACE then c.(state := ChunkParameters) else Fail(c, INVALID_CHUNK_SIZE)
      else if (ULLONG_MAX - 16) / 16 < c.contentLength then Fail(c, INVALID_CONTENT_LENGTH)
      else c.(contentLength := (c.contentLength * 16 % TWO_64 + Unhex(ch)) % TWO_64)
    case ChunkParameters =>
      if ch == CR then c.(state := ChunkSizeAlmostDone) else c
    case ChunkSizeAlmostDone =>
      if ch != LF then Fail(c, STRICT)
      else if c.contentLength == 0 then c.(nread := 0, trailing := true, state := HeaderFieldStart)
      else c.(nread := 0, state := ChunkData)
    case HeaderFieldStart =>
      if ch == CR then c.(state := HeadersAlmostDone)
      else if ch == LF then Complete(c.(state := HeadersAlmostDone))  // the byte is executed again
      else Fail(c, TRAILER_FIELD)
    case HeadersAlmostDone =>
      if ch != LF then Fail(c, STRICT) else Complete(c)
    case ChunkData =>
      if c.contentLength == 0 then c
      else TakeData(c, [ch])
    case ChunkDataAlmostDone =>
      if ch != CR then Fail(c, STRICT) else c.(state := ChunkDataDone)
    case ChunkDataDone =>
      if ch != LF then Fail(c, STRICT) else c.(nread := 0, state := ChunkSizeStart)
    case BodyIdentity =>
      if c.contentLength == 0 then c
      else TakeData(c, [ch])
    case MessageDone =>
      Complete(c)
    case StartReq =>
      c.(calls := c.calls.(next := c.calls.next + [ch]))
  }

  /** A block of body data that does not exceed what is still expected. */
  function TakeData(c: Core, bs: seq<byte>): Core
    requires (c.state.ChunkData? || c.state.BodyIdentity?) && 0 < |bs| <= c.contentLength
  {
    var left := c.contentLength - |bs|;
    var c' := c.(contentLength := left, body := c.body + bs);
    if left > 0 then c'
    else if c.state.ChunkData? then c'.(state := ChunkDataAlmostDone)
    else Complete(c'.(state := MessageDone))
  }

  function Run(c: Core, bs: seq<byte>): Core
    decreases |bs|
  {
    if bs == [] then c else Run(Step(c, bs[0]), bs[1..])
  }

  /** How the bytes are split makes no difference. */
  lemma {:induction false} RunSplit(c: Core, a: seq<byte>, b: seq<byte>)
    ensures Run(c, a + b) == Run(Run(c, a), b)
    decreases |a|
  {
    if a == [] {
      assert a + b == b;
    } else {
      assert (a + b)[1..] == a[1..] + b;
      RunSplit(Step(c, a[0]), a[1..], b);
    }
  }

  /** Reading data byte by byte or in one block is the same. */
  lemma {:induction false} RunBlock(c: Core, bs: seq<byte>)
    requires c.errno == OK && (c.state.ChunkData? || c.state.BodyIdentity?) && 0 < |bs| <= c.contentLength
    ensures Run(c, bs) == TakeData(c, bs)
    decreases |bs|
  {
    if |bs| == 1 {
      assert bs == [bs[0]];
      assert Run(Step(c, bs[0]), bs[1..]) == Step(c, bs[0]);
    } else {
      var c' := Step(c, bs[0]);
      assert c' == c.(contentLength := c.contentLength - 1, body := c.body + [bs[0]]);
      RunBlock(c', bs[1..]);
      assert c.body + [bs[0]] + bs[1..] == c.body + bs;
    }
  }

  /** An error is final. */
  lemma {:induction false} RunStuck(c: Core, bs: seq<byte>)
    requires c.errno != OK
    ensures Run(c, bs) == c
    decreases |bs|
  {
    if bs != [] {
      RunStuck(c, bs[1..]);
    }
  }

  /** The assertions of the source hold in every reachable state. */
  predicate Reachable(c: Core) {
    c.errno == OK ==>
      && (c.state.ChunkSizeStart? ==> c.nread == 0)
      && (c.state.ChunkData? || c.state.BodyIdentity? ==> 0 < c.contentLength < ULLONG_MAX)
      && (c.state.ChunkDataAlmostDone? ==> c.contentLength == 0)
      && (c.state.ChunkSize? || c.state.ChunkParameters? || c.state.ChunkSizeAlmostDone? ==>
            c.contentLength < ULLONG_MAX - 15)
      && (c.state.HeaderFieldStart? || c.state.HeadersAlmostDone? ==> c.trailing)
      && c.nread <= MAX_HEADER_SIZE
  }

  lemma Accumulate(size: nat, digit: nat)
    requires size <= (ULLONG_MAX - 16) / 16 && digit < 16
    ensures (size * 16 % TWO_64 + digit) % TWO_64 == size * 16 + digit < ULLONG_MAX - 15
  {
    Small(size * 16);
    Small(size * 16 + digit);
  }

  lemma Small(a: nat)
    requires a < TWO_64
    ensures a % TWO_64 == a
  {
  }

  /** The size accumulator neither wraps nor reaches the 2^64-1 sentinel. */
  lemma StepKeepsReachable(c: Core, ch: byte)
    requires Reachable(c)
    ensures Reachable(Step(c, ch))
    ensures c.errno == OK && c.state.ChunkSize? && Step(c, ch).errno == OK && Step(c, ch).state.ChunkSize? ==>
            Step(c, ch).contentLength == c.contentLength * 16 + Unhex(ch) < ULLONG_MAX
  {
    if c.state.ChunkSize? && Unhex(ch) != -1 && c.contentLength <= (ULLONG_MAX - 16) / 16 {
      Accumulate(c.contentLength, Unhex(ch));
    }
  }

  lemma {:induction false} RunKeepsReachable(c: Core, bs: seq<byte>)
    requires Reachable(c)
    ensures Reachable(Run(c, bs))
    decreases |bs|
  {
    if bs != [] {
      StepKeepsReachable(c, bs[0]);
      RunKeepsReachable(Step(c, bs[0]), bs[1..]);
    }
  }

  // ----- Chunked coding -----

  /** chunk-size digits, anything from the first ';' or ' ' to the line end, and the data. */
  datatype Chunk = Chunk(digits: seq<byte>, ext: seq<byte>, data: seq<byte>)

  predicate IsHex(b: byte) { Unhex(b) != -1 && b < 128 }

  function HexValue(ds: seq<byte>): nat
    requires forall d :: d in ds ==> IsHex(d)
  {
    if ds == [] then 0
    else
      assert IsHex(ds[|ds| - 1]);
      HexValue(ds[..|ds| - 1]) * 16 + Unhex(ds[|ds| - 1])
  }

  predicate ValidLine(k: Chunk) {
    && k.digits != []
    && (forall d :: d in k.digits ==> IsHex(d))
    && (k.ext == [] || ((k.ext[0] == SEMICOLON || k.ext[0] == SPACE) && CR !in k.ext))
    && |k.digits| + |k.ext| + 2 <= MAX_HEADER_SIZE
    && HexValue(k.digits) == |k.data|
  }

  function EncodeLine(k: Chunk): seq<byte> { k.digits + k.ext + [CR, LF] }

  function EncodeChunk(k: Chunk): seq<byte> { EncodeLine(k) + k.data + [CR, LF] }

  function EncodeChunks(ks: seq<Chunk>): seq<byte> {
    if ks == [] then [] else EncodeChunk(ks[0]) + EncodeChunks(ks[1..])
  }

  function Payload(ks: seq<Chunk>): seq<byte> {
    if ks == [] then [] else ks[0].data + Payload(ks[1..])
  }

  /** One more hexadecimal digit. */
  lemma DigitStep(c: Core, d: byte)
    requires c.errno == OK && c.state.ChunkSize? && IsHex(d) && c.nread < MAX_HEADER_SIZE
    ensures Step(c, d) ==
            if c.contentLength * 16 + Unhex(d) < TWO_64 - 16
            then c.(contentLength := c.contentLength * 16 + Unhex(d), nread := c.nread + 1)
            else c.(errno := INVALID_CONTENT_LENGTH, nread := c.nread + 1)
  {
  }

  lemma FirstDigitStep(c: Core, d: byte)
    requires c.errno == OK && c.state.ChunkSizeStart? && IsHex(d) && c.nread < MAX_HEADER_SIZE
    ensures Step(c, d) == c.(state := ChunkSize, contentLength := Unhex(d), nread := c.nread + 1)
  {
  }

  /** Reading the digits one by one: as long as the value stays below the limit of the
      overflow test it is kept exactly, and from there on the size is refused. */
  lemma {:induction false} RunDigitsSo(c: Core, ds: seq<byte>)
    requires ds != [] && forall d :: d in ds ==> IsHex(d)
    requires c.errno == OK && c.state.ChunkSizeStart? && c.nread + |ds| <= MAX_HEADER_SIZE
    ensures HexValue(ds) < TWO_64 - 16 ==>
        Run(c, ds) == c.(state := ChunkSize, contentLength := HexValue(ds), nread := c.nread + |ds|)
    ensures HexValue(ds) >= TWO_64 - 16 ==> Run(c, ds).errno == INVALID_CONTENT_LENGTH
    decreases |ds|
  {
    var n := |ds| - 1;
    var front, last := ds[..n], ds[n];
    assert ds == front + [last] && last in ds;
    RunSplit(c, front, [last]);
    RunOne(Run(c, front), last);
    if n == 0 {
      assert front == [];
      FirstDigitStep(c, last);
    } else {
      RunDigitsSo(c, front);
      if HexValue(front) < TWO_64 - 16 {
        DigitStep(Run(c, front), last);
      }
    }
  }

  lemma RunDigits(c: Core, ds: seq<byte>)
    requires ds != [] && forall d :: d in ds ==> IsHex(d)
    requires c.errno == OK && c.state.ChunkSizeStart? && c.nread + |ds| <= MAX_HEADER_SIZE
    requires HexValue(ds) < TWO_64 - 16
    ensures Run(c, ds) == c.(state := ChunkSize, contentLength := HexValue(ds), nread := c.nread + |ds|)
  {
    RunDigitsSo(c, ds);
  }

  /** A chunk size is refused exactly when it exceeds the limit of the overflow test. */
  lemma RunDigitsIff(c: Core, ds: seq<byte>)
    requires ds != [] && forall d :: d in ds ==> IsHex(d)
    requires c.errno == OK && c.state.ChunkSizeStart? && c.nread + |ds| <= MAX_HEADER_SIZE
    ensures Run(c, ds).errno == if HexValue(ds) < TWO_64 - 16 then OK else INVALID_CONTENT_LENGTH
  {
    RunDigitsSo(c, ds);
  }

  lemma {:induction false} RunParameters(c: Core, bs: seq<byte>)
    requires c.errno == OK && c.state.ChunkParameters? && CR !in bs && c.nread + |bs| <= MAX_HEADER_SIZE
    ensures Run(c, bs) == c.(nread := c.nread + |bs|)
    decreases |bs|
  {
    if bs != [] {
      assert Step(c, bs[0]) == c.(nread := c.nread + 1);
      RunParameters(Step(c, bs[0]), bs[1..]);
    }
  }

  lemma RunOne(c: Core, a: byte)
    ensures Run(c, [a]) == Step(c, a)
  {
    assert [a][1..] == [];
  }

  lemma RunTwo(c: Core, a: byte, b: byte)
    ensures Run(c, [a, b]) == Step(Step(c, a), b)
  {
    assert [a, b][1..] == [b];
    RunOne(Step(c, a), b);
  }

  /** A whole chunk-size line. */
  lemma RunLine(c: Core, k: Chunk)
    requires ValidLine(k) && HexValue(k.digits) < TWO_64 - 16
    requires c.errno == OK && c.state.ChunkSizeStart? && c.nread == 0
    ensures Run(c, EncodeLine(k)) ==
            if |k.data| == 0 then c.(state := HeaderFieldStart, contentLength := 0, nread := 0, trailing := true)
            else c.(state := ChunkData, contentLength := |k.data|, nread := 0)
  {
    var c1 := Run(c, k.digits);
    var c2 := Run(c1, k.ext);
    RunDigits(c, k.digits);
    if k.ext != [] {
      RunParameters(Step(c1, k.ext[0]), k.ext[1..]);
    }
    RunSplit(c, k.digits, k.ext);
    RunSplit(c, k.digits + k.ext, [CR, LF]);
    RunTwo(c2, CR, LF);
  }

  lemma RunChunk(c: Core, k: Chunk)
    requires ValidLine(k) && k.data != [] && |k.data| < TWO_64 - 16
    requires c.errno == OK && c.state.ChunkSizeStart? && c.nread == 0
    ensures Run(c, EncodeChunk(k)) == c.(contentLength := 0, body := c.body + k.data)
  {
    var c1 := Run(c, EncodeLine(k));
    RunLine(c, k);
    RunBlock(c1, k.data);
    var c2 := Run(c1, k.data);
    RunTwo(c2, CR, LF);
    RunSplit(c, EncodeLine(k), k.data);
    RunSplit(c, EncodeLine(k) + k.data, [CR, LF]);
  }

  predicate ValidChunks(ks: seq<Chunk>) {
    forall k :: k in ks ==> ValidLine(k) && 0 < |k.data| < TWO_64 - 16
  }

  lemma {:induction false} RunChunks(c: Core, ks: seq<Chunk>)
    requires ValidChunks(ks)
    requires c.errno == OK && c.state.ChunkSizeStart? && c.nread == 0
    ensures Run(c, EncodeChunks(ks)) ==
            c.(contentLength := if ks == [] then c.contentLength else 0, body := c.body + Payload(ks))
    decreases |ks|
  {
    if ks == [] {
      assert c.body + [] == c.body;
    } else {
      RunChunk(c, ks[0]);
      var c1 := Run(c, EncodeChunk(ks[0]));
      RunChunks(c1, ks[1..]);
      RunSplit(c, EncodeChunk(ks[0]), EncodeChunks(ks[1..]));
      assert c.body + ks[0].data + Payload(ks[1..]) == c.body + Payload(ks);
    }
  }

  /** A chunked message body with no trailer fields. */
  function EncodeBody(ks: seq<Chunk>, last: Chunk): seq<byte> {
    EncodeChunks(ks) + EncodeLine(last) + [CR, LF]
  }

  function Start(state: State, length: nat, answers: Answers): Core {
    Core(state, length, 0, false, OK, [], Calls(false, [], [], answers))
  }

  /** The end of the last chunk: the message is complete, and the handler is called. */
  lemma ChunkedBodyCompletes(ks: seq<Chunk>, last: Chunk, answers: Answers)
    requires ValidChunks(ks) && ValidLine(last) && last.data == []
    ensures Run(Start(ChunkSizeStart, 0, answers), EncodeBody(ks, last))
         == Complete(Core(HeadersAlmostDone, 0, 2, true, OK, Payload(ks), Calls(false, [], [], answers)))
  {
    var c0 := Start(ChunkSizeStart, 0, answers);
    RunChunks(c0, ks);
    var c1 := Run(c0, EncodeChunks(ks));
    RunLine(c1, last);
    var c2 := Run(c1, EncodeLine(last));
    RunTwo(c2, CR, LF);
    RunSplit(c0, EncodeChunks(ks), EncodeLine(last));
    RunSplit(c0, EncodeChunks(ks) + EncodeLine(last), [CR, LF]);
    assert [] + Payload(ks) == Payload(ks);
  }

  /** Any payload in any chunked encoding comes out whole. Bytes after it are the next request's if
      and only if the handler answered before it returned; otherwise the first of them is an error,
      unless it is a line feed, which completes the message again. */
  lemma ChunkedBodyDecodes(ks: seq<Chunk>, last: Chunk, surplus: seq<byte>, answers: Answers)
    requires ValidChunks(ks) && ValidLine(last) && last.data == []
    ensures var c := Run(Start(ChunkSizeStart, 0, answers), EncodeBody(ks, last) + surplus);
      && [Payload(ks)] <= c.calls.bodies
      && (answers(0) ==>
            c.errno == OK && c.calls.bodies == [Payload(ks)] && c.state.StartReq? && c.calls.next == surplus)
      && (!answers(0) && surplus == [] ==> c.errno == OK && c.calls.bodies == [Payload(ks)] && c.calls.complete)
      && (!answers(0) && surplus != [] && surplus[0] != LF ==> c.errno == STRICT && c.calls.bodies == [Payload(ks)])
      && (!answers(0) && surplus != [] && surplus[0] == LF ==> [Payload(ks), Payload(ks)] <= c.calls.bodies)
  {
    var c0 := Start(ChunkSizeStart, 0, answers);
    ChunkedBodyCompletes(ks, last, answers);
    var c1 := Run(c0, EncodeBody(ks, last));
    RunSplit(c0, EncodeBody(ks, last), surplus);
    if answers(0) {
      RunStartReq(c1, surplus);
    } else if surplus != [] {
      RunGrows(Step(c1, surplus[0]), surplus[1..]);
      if surplus[0] != LF {
        RunStuck(Step(c1, surplus[0]), surplus[1..]);
      }
    }
  }

  lemma {:induction false} RunStartReq(c: Core, bs: seq<byte>)
    requires c.errno == OK && c.state.StartReq?
    ensures Run(c, bs) == c.(calls := c.calls.(next := c.calls.next + bs))
    decreases |bs|
  {
    if bs == [] {
      assert c.calls.next + bs == c.calls.next;
    } else {
      RunStartReq(Step(c, bs[0]), bs[1..]);
      assert c.calls.next + [bs[0]] + bs[1..] == c.calls.next + bs;
    }
  }

  /** What the handler was called with is never taken back. */
  lemma {:induction false} RunGrows(c: Core, bs: seq<byte>)
    ensures c.calls.bodies <= Run(c, bs).calls.bodies
    decreases |bs|
  {
    if bs != [] {
      assert c.calls.bodies <= Step(c, bs[0]).calls.bodies;
      RunGrows(Step(c, bs[0]), bs[1..]);
    }
  }

  /** How many of `n` bytes find the message complete and its response open, from call `i` on. */
  function Repeats(answers: Answers, i: nat, n: nat): (k: nat)
    ensures k <= n && (forall j :: i <= j < i + k ==> !answers(j)) && (k < n ==> answers(i + k))
    decreases n
  {
    if n == 0 || answers(i) then 0 else 1 + Repeats(answers, i + 1, n - 1)
  }

  function Copies(bs: seq<byte>, n: nat): (r: seq<seq<byte>>)
    ensures |r| == n && forall h :: h in r ==> h == bs
  {
    if n == 0 then [] else Copies(bs, n - 1) + [bs]
  }

  /** After `n` calls with the same body. */
  function Called(c: Core, n: nat): Core {
    c.(calls := c.calls.(bodies := c.calls.bodies + Copies(c.body, n)))
  }

  /** While no call answers, each byte after a message of known length calls the handler again. */
  lemma {:induction false} RunMessageDone(c: Core, bs: seq<byte>)
    requires c.errno == OK && c.state.MessageDone?
    requires forall i :: |c.calls.bodies| <= i < |c.calls.bodies| + |bs| ==> !c.calls.answers(i)
    ensures Run(Complete(c), bs) == Complete(Called(c, |bs|))
    decreases |bs|
  {
    var n := |bs|;
    if n == 0 {
      assert Called(c, 0) == c by {
        assert c.calls.bodies + [] == c.calls.bodies;
      }
    } else {
      var front, last := bs[..n - 1], bs[n - 1];
      assert bs == front + [last];
      RunMessageDone(c, front);
      RunSplit(Complete(c), front, [last]);
      var d := Complete(Called(c, n - 1));
      assert !c.calls.answers(|c.calls.bodies| + (n - 1));
      assert d.state.MessageDone? && d.body == c.body;
      RunOne(d, last);
      CalledAgain(c, n - 1);
    }
  }

  lemma CalledAgain(c: Core, n: nat)
    requires !c.calls.answers(|c.calls.bodies| + n)
    ensures Complete(Complete(Called(c, n))) == Complete(Called(c, n + 1))
  {
    assert c.calls.bodies + Copies(c.body, n) + [c.body] == c.calls.bodies + Copies(c.body, n + 1);
  }

  /** Bytes after a message of known length: the first `k` find its response open. */
  lemma RunSurplus(c: Core, surplus: seq<byte>, k: nat)
    requires c.errno == OK && c.state.MessageDone?
    requires k == Repeats(c.calls.answers, |c.calls.bodies|, |surplus|)
    ensures Run(Complete(c), surplus) == Run(Complete(Called(c, k)), surplus[k..])
  {
    RunMessageDone(c, surplus[..k]);
    assert surplus == surplus[..k] + surplus[k..];
    RunSplit(Complete(c), surplus[..k], surplus[k..]);
  }

  /** The last call leaves what remains to the next request, or nothing remains. */
  lemma RunLastCall(c: Core, rest: seq<byte>)
    requires c.errno == OK && c.state.MessageDone? && c.calls.next == []
    requires rest != [] ==> c.calls.answers(|c.calls.bodies|)
    ensures var c' := Run(Complete(c), rest);
      && c'.errno == OK && c'.calls.bodies == c.calls.bodies + [c.body] && c'.calls.next == rest
      && c'.state == if c.calls.answers(|c.calls.bodies|) then StartReq else MessageDone
  {
    if rest != [] {
      RunStartReq(Complete(c), rest);
    }
  }

  /** A Content-Length body is delivered whole. A further byte of the buffer completes the message
      once more as long as no call has answered; the bytes from then on are the next request's. */
  lemma IdentityBodyDecodes(bs: seq<byte>, surplus: seq<byte>, answers: Answers)
    requires 0 < |bs| < ULLONG_MAX
    ensures var c := Run(Start(BodyIdentity, |bs|, answers), bs + surplus);
      var k := Repeats(answers, 0, |surplus|);
      && c.errno == OK && c.calls.bodies == Copies(bs, 1 + k) && c.calls.next == surplus[k..]
      && c.state == if answers(k) then StartReq else MessageDone
  {
    var c := Start(BodyIdentity, |bs|, answers);
    var k := Repeats(answers, 0, |surplus|);
    var d := c.(contentLength := 0, body := bs, state := MessageDone);
    assert Run(c, bs) == Complete(d) by {
      RunBlock(c, bs);
      assert [] + bs == bs;
    }
    RunSplit(c, bs, surplus);
    RunSurplus(d, surplus, k);
    assert [] + Copies(bs, k) == Copies(bs, k);
    RunLastCall(Called(d, k), surplus[k..]);
  }

  /** Surplus bytes complete the message again if and only if its handler did not answer before it
      returned, and all of them are left to the next request if and only if it did. */
  lemma SurplusCompletesIffOpen(bs: seq<byte>, surplus: seq<byte>, answers: Answers)
    requires 0 < |bs| < ULLONG_MAX && surplus != []
    ensures var c := Run(Start(BodyIdentity, |bs|, answers), bs + surplus);
      && (|c.calls.bodies| > 1 <==> !answers(0))
      && (c.calls.next == surplus <==> answers(0))
      && (|c.calls.bodies| == 1 + |surplus| <==> forall i: nat :: i < |surplus| ==> !answers(i))
  {
    IdentityBodyDecodes(bs, surplus, answers);
    var k := Repeats(answers, 0, |surplus|);
    assert k < |surplus| ==> answers(k);
  }

  // ----- Completion happens at the last byte -----

  predicate Settled(c: Core) {
    c.errno == OK && c.calls.complete ==> c.calls.bodies != [] && (c.state.HeadersAlmostDone? || c.state.MessageDone?)
  }

  lemma {:induction false} RunKeepsSettled(c: Core, bs: seq<byte>)
    requires Settled(c)
    ensures Settled(Run(c, bs))
    decreases |bs|
  {
    if bs != [] {
      RunKeepsSettled(Step(c, bs[0]), bs[1..]);
    }
  }

  /** While the response is open, a byte that is not an error completes the message again. */
  lemma RunAfterCompletion(c: Core, bs: seq<byte>)
    requires Settled(c) && c.calls.complete && bs != [] && Run(c, bs).errno == OK
    ensures |Run(c, bs).calls.bodies| > |c.calls.bodies|
  {
    var c' := Step(c, bs[0]);
    if c.errno != OK {
      RunStuck(c, bs);
    } else if c'.errno != OK {
      RunStuck(c', bs[1..]);
    } else {
      RunGrows(c', bs[1..]);
    }
  }

  function Concat(buffers: seq<seq<byte>>): seq<byte> {
    if buffers == [] then [] else buffers[0] + Concat(buffers[1..])
  }

  // ----- The parser object -----

  datatype Mark = NoMark | MarkAt(p: nat)

  class HttpParser {
    var state: State
    var contentLength: nat
    var nread: nat
    var trailing: bool
    var errno: Errno
    var body: seq<byte>          // of the request being read, as far as on_body has delivered it
    var messageComplete: bool
    var handled: seq<seq<byte>>  // the bodies the handler was called with
    var next: seq<byte>          // left to the next request
    const answers: Answers

    function View(): Core
      reads this
    {
      Core(state, contentLength, nread, trailing, errno, body, Calls(messageComplete, handled, next, answers))
    }

    constructor (c: Core)
      ensures View() == c
    {
      state, contentLength, nread, trailing := c.state, c.contentLength, c.nread, c.trailing;
      errno, body, messageComplete := c.errno, c.body, c.calls.complete;
      handled, next, answers := c.calls.bodies, c.calls.next, c.calls.answers;
    }

    /** One buffer. Blocks of body data are marked and delivered when the mark is flushed.
        After an error the marked but undelivered data is dropped. */
    method Execute(data: seq<byte>) returns (consumed: nat)
      requires Reachable(View()) && errno == OK && data != []
      modifies this
      ensures Reachable(View())
      ensures errno == Run(old(View()), data).errno
      ensures errno == OK ==> View() == Run(old(View()), data) && consumed == |data|
      ensures errno != OK ==> old(body) <= body <= Run(old(View()), data).body && consumed < |data|
      ensures errno != OK ==> handled == Run(old(View()), data).calls.bodies
    {
      ghost var c0 := View();
      ghost var c := View();  // the byte-wise machine after data[..p]
      var mark := NoMark;
      var p := 0;
      while p < |data|
        invariant p <= |data|
        invariant c == Run(c0, data[..p]) && Reachable(c) && c.errno == OK
        invariant Synced(c, mark, data, p)
        invariant state.StartReq? || c0.body <= body
      {
        if state.ChunkData? || state.BodyIdentity? {
          ghost var q := p;
          p, mark := ReadBlock(data, p, mark, c);
          BlockAt(c0, c, data, q, p - q);
          RunKeepsReachable(c0, data[..p]);
          c := TakeData(c, data[q..p]);
        } else {
          StopsAt(c0, c, data, p);
          StepKeepsReachable(c, data[p]);
          mark := ReadByte(data, p, mark, c);
          c := Step(c, data[p]);
          if errno != OK {
            return p;
          }
          p := p + 1;
        }
      }
      assert data[..p] == data;
      if mark.MarkAt? {
        body := body + data[mark.p..p];
      }
      return |data|;
    }

    /** `HTTPParser::feed`: while a complete message has no response, further buffers are ignored. */
    method Feed(buffer: seq<byte>) returns (ok: bool)
      requires Reachable(View()) && errno == OK && buffer != []
      modifies this
      ensures Reachable(View())
      ensures old(messageComplete) ==> ok && View() == old(View())
      ensures !old(messageComplete) ==> errno == Run(old(View()), buffer).errno
      ensures !old(messageComplete) && errno == OK ==> ok && View() == Run(old(View()), buffer)
      ensures !old(messageComplete) && errno != OK ==> !ok
    {
      if messageComplete {
        return true;
      }
      var consumed := Execute(buffer);
      ok := errno == OK && consumed == |buffer|;
    }

    /** Bytes that complete no more than one message come out the same for every way of cutting
        them into buffers. */
    method FeedAll(buffers: seq<seq<byte>>) returns (ok: bool)
      requires Reachable(View()) && Settled(View()) && errno == OK && handled == []
      requires forall b :: b in buffers ==> b != []
      requires Run(View(), Concat(buffers)).errno == OK && |Run(View(), Concat(buffers)).calls.bodies| <= 1
      modifies this
      ensures ok && View() == Run(old(View()), Concat(buffers))
    {
      ghost var c0 := View();
      ok := true;
      var i := 0;
      while i < |buffers|
        invariant i <= |buffers| && ok
        invariant Reachable(View()) && Settled(View()) && errno == OK
        invariant Run(View(), Concat(buffers[i..])) == Run(c0, Concat(buffers))
      {
        var b := buffers[i];
        assert b in buffers;
        ghost var rest := Concat(buffers[i + 1..]);
        assert buffers[i..][1..] == buffers[i + 1..];
        RunSplit(View(), b, rest);
        if messageComplete {
          RunAfterCompletion(View(), b + rest);
          assert false;
        }
        RunKeepsSettled(View(), b);
        if Run(View(), b).errno != OK {
          RunStuck(Run(View(), b), rest);
        }
        ok := Feed(b);
        i := i + 1;
      }
    }

    /** The fields are those of the byte-wise machine, up to marked data not delivered yet. */
    ghost predicate Synced(c: Core, mark: Mark, data: seq<byte>, p: nat)
      requires p <= |data|
      reads this
    {
      && View() == c.(body := body)
      && (mark.MarkAt? ==> mark.p < p && (c.state.ChunkData? || c.state.ChunkDataAlmostDone? || c.state.BodyIdentity?))
      && c.body == body + Pending(mark, data, p)
    }

    /** The states that take a block of body data. */
    method ReadBlock(data: seq<byte>, p: nat, mark: Mark, ghost c: Core) returns (p': nat, mark': Mark)
      requires p < |data| && Synced(c, mark, data, p)
      requires errno == OK && (state.ChunkData? || state.BodyIdentity?) && Reachable(c)
      modifies this
      ensures p < p' <= |data| && p' - p <= c.contentLength
      ensures Synced(TakeData(c, data[p..p']), mark', data, p')
      ensures state.StartReq? || old(body) <= body
    {
      assert contentLength != 0 && contentLength != ULLONG_MAX;
      var toRead := if contentLength < |data| - p then contentLength else |data| - p;
      mark' := if mark.NoMark? then MarkAt(p) else mark;
      p' := p + toRead;
      PendingGrows(mark, mark'.p, data, p, p', body, c.body);
      contentLength := contentLength - toRead;
      if contentLength == 0 {
        if state.ChunkData? {
          state := ChunkDataAlmostDone;
        } else {
          state := MessageDone;
          body := body + data[mark'.p..p'];
          mark' := NoMark;
          OnMessageComplete();
        }
      }
    }

    method OnMessageComplete()
      modifies this
      ensures View() == Complete(old(View()))
    {
      messageComplete := true;
      handled := handled + [body];
      if answers(|handled| - 1) {
        ClearMessage();
      }
    }

    method ClearMessage()
      modifies this
      ensures View() == Clear(old(View()))
    {
      body, messageComplete, state := [], false, StartReq;
    }

    /** The states that look at one byte. */
    method ReadByte(data: seq<byte>, p: nat, mark: Mark, ghost c: Core) returns (mark': Mark)
      requires p < |data| && Synced(c, mark, data, p)
      requires errno == OK && !state.ChunkData? && !state.BodyIdentity? && Reachable(c)
      modifies this
      ensures errno == Step(c, data[p]).errno
      ensures errno == OK ==> Synced(Step(c, data[p]), mark', data, p + 1)
      ensures errno != OK ==> handled == Step(c, data[p]).calls.bodies && body <= Step(c, data[p]).body
      ensures errno != OK || !state.StartReq? ==> !old(state.StartReq?) && old(body) <= body
    {
      assert state.ChunkDataAlmostDone? ==> contentLength == 0;
      assert state.ChunkSizeStart? ==> nread == 0;
      mark' := mark;
      assert mark.NoMark? ==> View() == c;
      SwitchByte(data[p]);
      if errno == OK && state.ChunkDataDone? && mark.MarkAt? {
        body := body + data[mark.p..p];
        mark' := NoMark;
      }
    }

    method SwitchByte(ch: byte)
      requires errno == OK && !state.ChunkData? && !state.BodyIdentity?
      modifies this
      ensures View() == Step(old(View()), ch)
      ensures errno != OK || !state.StartReq? ==> !old(state.StartReq?) && body == old(body)
    {
      if ParsingHeader(state) {
        nread := nread + 1;
        if nread > MAX_HEADER_SIZE {
          errno := HEADER_OVERFLOW;
          return;
        }
      }
      match state {
        case ChunkSizeStart =>
          var v := Unhex(ch);
          if v == -1 { errno := INVALID_CHUNK_SIZE; } else { contentLength, state := v, ChunkSize; }
        case ChunkSize =>
          if ch == CR {
            state := ChunkSizeAlmostDone;
          } else {
            var v := Unhex(ch);
            if v == -1 {
              if ch == SEMICOLON || ch == SPACE { state := ChunkParameters; } else { errno := INVALID_CHUNK_SIZE; }
            } else if (ULLONG_MAX - 16) / 16 < contentLength {
              errno := INVALID_CONTENT_LENGTH;
            } else {
              contentLength := (contentLength * 16 % TWO_64 + v) % TWO_64;
            }
          }
        case ChunkParameters =>
          if ch == CR { state := ChunkSizeAlmostDone; }
        case ChunkSizeAlmostDone =>
          if ch != LF {
            errno := STRICT;
          } else {
            nread := 0;
            if contentLength == 0 { trailing, state := true, HeaderFieldStart; } else { state := ChunkData; }
          }
        case HeaderFieldStart =>
          if ch == CR {
            state := HeadersAlmostDone;
          } else if ch == LF {
            state := HeadersAlmostDone;
            OnMessageComplete();
          } else {
            errno := TRAILER_FIELD;
          }
        case HeadersAlmostDone =>
          if ch != LF { errno := STRICT; } else { OnMessageComplete(); }
        case ChunkDataAlmostDone =>
          if ch != CR { errno := STRICT; } else { state := ChunkDataDone; }
        case ChunkDataDone =>
          if ch != LF { errno := STRICT; } else { nread, state := 0, ChunkSizeStart; }
        case MessageDone =>
          OnMessageComplete();
        case StartReq =>
          next := next + [ch];
      }
    }
  }

  /** Data that is marked but not delivered yet. */
  function Pending(mark: Mark, data: seq<byte>, p: nat): seq<byte>
    requires p <= |data| && (mark.MarkAt? ==> mark.p <= p)
  {
    if mark.NoMark? then [] else data[mark.p..p]
  }

  lemma PendingGrows(mark: Mark, m: nat, data: seq<byte>, p: nat, p': nat, delivered: seq<byte>, all: seq<byte>)
    requires m <= p <= p' <= |data| && (mark == MarkAt(m) || (mark == NoMark && m == p))
    requires all == delivered + Pending(mark, data, p)
    ensures all + data[p..p'] == delivered + data[m..p']
  {
    assert data[m..p] + data[p..p'] == data[m..p'];
    assert Pending(mark, data, p) == data[m..p];
  }

  lemma ByteAt(c0: Core, c: Core, data: seq<byte>, p: nat)
    requires p < |data| && Run(c0, data[..p]) == c
    ensures Run(c0, data[..p + 1]) == Step(c, data[p])
  {
    assert data[..p + 1] == data[..p] + [data[p]];
    RunSplit(c0, data[..p], [data[p]]);
    RunOne(c, data[p]);
  }

  lemma BlockAt(c0: Core, c: Core, data: seq<byte>, p: nat, n: nat)
    requires p + n <= |data| && Run(c0, data[..p]) == c
    requires c.errno == OK && (c.state.ChunkData? || c.state.BodyIdentity?) && 0 < n <= c.contentLength
    ensures Run(c0, data[..p + n]) == TakeData(c, data[p..p + n])
  {
    assert data[..p + n] == data[..p] + data[p..p + n];
    RunSplit(c0, data[..p], data[p..p + n]);
    RunBlock(c, data[p..p + n]);
  }

  /** The next byte; where it raises an error, the rest of the buffer is not looked at. */
  lemma StopsAt(c0: Core, c: Core, data: seq<byte>, p: nat)
    requires p < |data| && Run(c0, data[..p]) == c
    ensures Run(c0, data[..p + 1]) == Step(c, data[p])
    ensures Step(c, data[p]).errno != OK ==> Run(c0, data) == Step(c, data[p])
  {
    ByteAt(c0, c, data, p);
    var c' := Step(c, data[p]);
    if c'.errno != OK {
      assert data == data[..p + 1] + data[p + 1..];
      RunSplit(c0, data[..p + 1], data[p + 1..]);
      RunStuck(c', data[p + 1..]);
    }
  }

  /** Any payload, any chunked encoding of it, any cut into buffers, any handler: delivered whole,
      completed once. */
  method ReceiveChunked(ghost ks: seq<Chunk>, ghost last: Chunk, buffers: seq<seq<byte>>, answers: Answers)
    returns (parser: HttpParser)
    requires ValidChunks(ks) && ValidLine(last) && last.data == []
    requires (forall b :: b in buffers ==> b != []) && Concat(buffers) == EncodeBody(ks, last)
    ensures parser.errno == OK && parser.handled == [Payload(ks)]
  {
    ChunkedBodyCompletes(ks, last, answers);
    parser := new HttpParser(Start(ChunkSizeStart, 0, answers));
    var ok := parser.FeedAll(buffers);
  }

  /** Likewise for a body of known length. If the handler answers at once, whatever follows in the
      same buffers is the next request's, however it is cut. */
  method ReceiveIdentity(ghost bs: seq<byte>, length: nat, ghost surplus: seq<byte>, buffers: seq<seq<byte>>,
                         answers: Answers)
    returns (parser: HttpParser)
    requires 0 < |bs| == length < ULLONG_MAX && (surplus != [] ==> answers(0))
    requires (forall b :: b in buffers ==> b != []) && Concat(buffers) == bs + surplus
    ensures parser.errno == OK && parser.handled == [bs] && parser.next == surplus
  {
    IdentityBodyDecodes(bs, surplus, answers);
    assert Copies(bs, 1) == [] + [bs];
    parser := new HttpParser(Start(BodyIdentity, length, answers));
    var ok := parser.FeedAll(buffers);
  }
}
