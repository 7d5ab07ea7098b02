/**
 * Requests and responses (src/request.rs): a message is the 8-byte codec
 * header followed by a body the caller's constructor writes, composed in
 * a frame buffer and sent as one frame over the framed transport.
 */
module Request {
  import opened Results
  import opened Bytes
  import opened Cursor
  import opened MessageTypes
  import opened Codec
  import opened FramedTransport

  /** `RequestResponseError`, with the transport's error over a cursor. */
  datatype RequestResponseError =
    | InvalidRequest
    | InvalidResponse
    | CodecFailure(codecError: CodecError)
    | TransportFailure(transportError: FramedTransportError)

  /** The `?` that turns a transport result into a request/response result. */
  function FromTransport(r: Result<(), FramedTransportError>): (e: Result<(), RequestResponseError>)
    ensures e.Ok? <==> r.Ok?
    ensures e.Err? ==> e.error == TransportFailure(r.error)
  {
    if r.Ok? then Ok(()) else Err(TransportFailure(r.error))
  }

  // ---------------------------------------------------------------------
  // Composing a message

  /**
   * One step of the constructor `send_message` hands the codec: a value
   * written with the write method of its kind, a callback written with
   * `write_callback`, or an error of the constructor's own, which ends
   * the body there with nothing written for it.
   */
  datatype Step = Write(value: Value) | Callback(ids: seq<u64>, id: u64) | Abort(error: CodecError)

  /** A constructor the source's types allow: the strings it writes are `&str`. */
  predicate Constructible(body: seq<Step>) {
    forall i :: 0 <= i < |body| ==> body[i].Write? ==> Writable(body[i].value)
  }

  /** The constructor that writes the values vs in order. */
  function Values(vs: seq<Value>): seq<Step> {
    seq(|vs|, i requires 0 <= i < |vs| => Write(vs[i]))
  }

  /**
   * The cursor writes of one step, or the error it ends the body with
   * before writing anything: its own, or `InvalidCallback` for an id the
   * table does not hold.
   */
  function StepWrites(s: Step): (r: Result<seq<seq<byte>>, CodecError>)
    ensures r.Err? <==> s.Abort? || (s.Callback? && s.id !in s.ids)
    ensures s.Abort? ==> r == Err(s.error)
    ensures s.Callback? && r.Err? ==> r.error == InvalidCallback
    ensures s.Callback? && r.Ok? ==>
      exists i :: 0 <= i < |s.ids| && s.ids[i] == s.id && r.value == Parts(U8(i % 0x100))
  {
    match s
    case Write(v) => Ok(Parts(v))
    case Callback(ids, id) =>
      (match ChooseCallback(ids, id)
       case WriteIndex(index) => Ok(Parts(U8(index)))
       case _ => Err(InvalidCallback))
    case Abort(e) => Err(e)
  }

  /** Every write fits a buffer of n bytes on its own. */
  predicate EachFits(parts: seq<seq<byte>>, n: nat) {
    forall i :: 0 <= i < |parts| ==> |parts[i]| <= n
  }

  /**
   * A series of writes through a `BufferCursor`: each is an
   * all-or-nothing write at t's position, which never moves, and the
   * series stops at the first that does not fit.
   */
  function PutAllAt(t: Tape, parts: seq<seq<byte>>): (r: (Tape, bool))
    requires t.Valid()
    ensures r.0.Valid() && |r.0.bytes| == |t.bytes| && r.0.pos == t.pos
    ensures r.1 <==> EachFits(parts, t.Remaining())
    decreases |parts|
  {
    if parts == [] then (t, true)
    else
      var (t1, ok) := t.Put(parts[0]);
      if ok then PutAllAt(Tape(t1.bytes, t.pos), parts[1..]) else (t, false)
  }

  /** When every write fits, the last one is what the position shows. */
  lemma {:induction false} PutAllAtLast(t: Tape, parts: seq<seq<byte>>)
    requires t.Valid() && parts != [] && PutAllAt(t, parts).1
    ensures var last := parts[|parts| - 1];
      |last| <= t.Remaining() && PutAllAt(t, parts).0.Peek(|last|) == last
    decreases |parts|
  {
    var u := Tape(t.Put(parts[0]).0.bytes, t.pos);
    PutThenPeek(t, parts[0]);
    if |parts| > 1 {
      PutAllAtLast(u, parts[1..]);
    }
  }

  /** The writes of a series, with the cursor advancing past each or staying at its position. */
  function Writes(t: Tape, parts: seq<seq<byte>>, advance: bool): (r: (Tape, bool))
    requires t.Valid()
    ensures r.0.Valid() && |r.0.bytes| == |t.bytes|
  {
    if advance then PutAll(t, parts) else PutAllAt(t, parts)
  }

  /** Two series of writes through a `BufferCursor` one after the other are one series. */
  lemma {:induction false} PutAllAtAppend(t: Tape, a: seq<seq<byte>>, b: seq<seq<byte>>)
    requires t.Valid()
    ensures PutAllAt(t, a + b) ==
      (if PutAllAt(t, a).1 then PutAllAt(PutAllAt(t, a).0, b) else PutAllAt(t, a))
    decreases |a|
  {
    if a == [] {
      assert a + b == b;
    } else {
      assert (a + b)[0] == a[0];
      assert (a + b)[1..] == a[1..] + b;
      var (t1, ok) := t.Put(a[0]);
      if ok {
        PutAllAtAppend(Tape(t1.bytes, t.pos), a[1..], b);
      }
    }
  }

  lemma WritesAppend(t: Tape, a: seq<seq<byte>>, b: seq<seq<byte>>, advance: bool)
    requires t.Valid()
    ensures Writes(t, a + b, advance) ==
      (if Writes(t, a, advance).1 then Writes(Writes(t, a, advance).0, b, advance) else Writes(t, a, advance))
  {
    if advance {
      PutAllAppend(t, a, b);
    } else {
      PutAllAtAppend(t, a, b);
    }
  }

  /**
   * What the steps of a body do from t: the cursor afterwards and the
   * constructor's result. A step's own error ends the body with nothing
   * written for it; a write that does not fit ends it with
   * `Cursor(InsufficientBuffer)`, the earlier writes of that step kept.
   * advance says whether the cursor moves past each write (a
   * `SliceCursor`) or stays where it is (a `BufferCursor`).
   */
  function RunBody(t: Tape, body: seq<Step>, advance: bool): (r: (Tape, Result<(), CodecError>))
    requires t.Valid()
    ensures r.0.Valid() && |r.0.bytes| == |t.bytes|
    ensures !advance ==> r.0.pos == t.pos
    ensures r.1.Err? ==>
      r.1.error == Cursor(InsufficientBuffer) || exists i :: 0 <= i < |body| && StepWrites(body[i]) == Err(r.1.error)
    ensures r.1.Ok? ==> forall i :: 0 <= i < |body| ==> StepWrites(body[i]).Ok?
    decreases |body|
  {
    if body == [] then (t, Ok(()))
    else
      match StepWrites(body[0])
      case Err(e) => (t, Err(e))
      case Ok(parts) =>
        var (t1, ok) := Writes(t, parts, advance);
        if !ok then (t1, Err(Cursor(InsufficientBuffer)))
        else
          var r := RunBody(t1, body[1..], advance);
          assert forall i :: 1 <= i < |body| ==> body[i] == body[1..][i - 1];
          r
  }

  /** The steps of a ++ b are those of a, then, if a ended well, those of b. */
  lemma {:induction false} RunBodyAppend(t: Tape, a: seq<Step>, b: seq<Step>, advance: bool)
    requires t.Valid()
    ensures RunBody(t, a + b, advance) ==
      (if RunBody(t, a, advance).1.Ok? then RunBody(RunBody(t, a, advance).0, b, advance) else RunBody(t, a, advance))
    decreases |a|
  {
    if a == [] {
      assert a + b == b;
    } else {
      assert (a + b)[0] == a[0];
      assert (a + b)[1..] == a[1..] + b;
      if StepWrites(a[0]).Ok? {
        var t1 := Writes(t, StepWrites(a[0]).value, advance).0;
        if Writes(t, StepWrites(a[0]).value, advance).1 {
          RunBodyAppend(t1, a[1..], b, advance);
        }
      }
    }
  }

  /** A body of values makes exactly the values' writes, and fails only when one does not fit. */
  lemma {:induction false} RunValues(t: Tape, vs: seq<Value>, advance: bool)
    requires t.Valid()
    ensures RunBody(t, Values(vs), advance).0 == Writes(t, PartsOf(vs), advance).0
    ensures RunBody(t, Values(vs), advance).1 ==
      if Writes(t, PartsOf(vs), advance).1 then Ok(()) else Err(Cursor(InsufficientBuffer))
    decreases |vs|
  {
    if vs != [] {
      assert Values(vs)[0] == Write(vs[0]);
      assert Values(vs)[1..] == Values(vs[1..]);
      WritesAppend(t, Parts(vs[0]), PartsOf(vs[1..]), advance);
      var (t1, ok) := Writes(t, Parts(vs[0]), advance);
      if ok {
        RunValues(t1, vs[1..], advance);
      }
    }
  }

  /** A body of values is constructible when each value is writable. */
  lemma ValuesConstructible(vs: seq<Value>)
    requires forall i :: 0 <= i < |vs| ==> Writable(vs[i])
    ensures Constructible(Values(vs))
  {
  }

  /**
   * The cursor and the result after `start_write_message` and the
   * constructor's steps, on a frame buffer that held buffer.
   */
  function Composed(buffer: seq<byte>, header: MessageHeader, body: seq<Step>, advance: bool): (r: (Tape, Result<(), CodecError>))
    ensures r.0.Valid() && |r.0.bytes| == |buffer|
    ensures !advance ==> r.0.pos == 0
  {
    var h := Writes(Tape(buffer, 0), HeaderParts(header), advance);
    assert !advance ==> h.0.pos == 0;
    if h.1 then RunBody(h.0, body, advance) else (h.0, Err(Cursor(InsufficientBuffer)))
  }

  /**
   * What composing a message in a frame buffer that held buffer yields:
   * the bytes from the start of the buffer up to the codec's position, or
   * the error that ended it, either a write that did not fit or the error
   * of one of the steps; when it succeeds, every step wrote.
   */
  function Compose(buffer: seq<byte>, header: MessageHeader, body: seq<Step>): (r: Result<seq<byte>, CodecError>)
    ensures r.Err? ==>
      r.error == Cursor(InsufficientBuffer) || exists i :: 0 <= i < |body| && StepWrites(body[i]) == Err(r.error)
    ensures r.Ok? ==> forall i :: 0 <= i < |body| ==> StepWrites(body[i]).Ok?
  {
    var c := Composed(buffer, header, body, true);
    if c.1.Ok? then Ok(c.0.bytes[..c.0.pos]) else Err(c.1.error)
  }

  /**
   * A step that fails on its own, after steps that ended well, ends the
   * message with its error, whatever follows it, and leaves the buffer
   * as the header and the earlier steps wrote it.
   */
  lemma ComposeStopsAt(buffer: seq<byte>, header: MessageHeader, pre: seq<Step>, s: Step, post: seq<Step>, advance: bool)
    requires Composed(buffer, header, pre, advance).1.Ok? && StepWrites(s).Err?
    ensures Composed(buffer, header, pre + [s] + post, advance).0 == Composed(buffer, header, pre, advance).0
    ensures Composed(buffer, header, pre + [s] + post, advance).1 == Err(StepWrites(s).error)
    ensures advance ==> Compose(buffer, header, pre + [s] + post) == Err(StepWrites(s).error)
  {
    var h := Writes(Tape(buffer, 0), HeaderParts(header), advance);
    RunBodyAppend(h.0, pre, [s] + post, advance);
    assert pre + [s] + post == pre + ([s] + post);
    assert ([s] + post)[0] == s;
  }

  /** The cursor writes of a message of values: the header's, then the body's. */
  function MessageParts(header: MessageHeader, body: seq<Value>): seq<seq<byte>> {
    HeaderParts(header) + PartsOf(body)
  }

  /** The bytes of a message of values: the header word, the sequence, then the body's encoding. */
  function EncodeMessage(header: MessageHeader, body: seq<Value>): seq<byte> {
    Flatten(MessageParts(header, body))
  }

  /** A message of values is composed by the writes of its parts. */
  lemma ComposedValues(buffer: seq<byte>, header: MessageHeader, vs: seq<Value>, advance: bool)
    ensures Composed(buffer, header, Values(vs), advance).0 == Writes(Tape(buffer, 0), MessageParts(header, vs), advance).0
    ensures Composed(buffer, header, Values(vs), advance).1.Ok? == Writes(Tape(buffer, 0), MessageParts(header, vs), advance).1
  {
    var t := Tape(buffer, 0);
    WritesAppend(t, HeaderParts(header), PartsOf(vs), advance);
    var h := Writes(t, HeaderParts(header), advance);
    if h.1 {
      RunValues(h.0, vs, advance);
    }
  }

  lemma {:induction false} FlattenAppend(a: seq<seq<byte>>, b: seq<seq<byte>>)
    ensures Flatten(a + b) == Flatten(a) + Flatten(b)
    decreases |a|
  {
    if a == [] {
      assert a + b == b;
    } else {
      assert (a + b)[0] == a[0];
      assert (a + b)[1..] == a[1..] + b;
      FlattenAppend(a[1..], b);
    }
  }

  /** A message is its 8 header bytes followed by the encoding of its body. */
  lemma MessageLayout(header: MessageHeader, body: seq<Value>)
    ensures var m := EncodeMessage(header, body);
      |m| >= 8 && m[..4] == LeBytes(HeaderWord(header), 4) &&
      m[4..8] == LeBytes(header.sequence, 4) && m[8..] == Flatten(PartsOf(body))
  {
    FlattenAppend(HeaderParts(header), PartsOf(body));
    FlattenTwo(LeBytes(HeaderWord(header), 4), LeBytes(header.sequence, 4));
  }

  /**
   * Composing a message of values succeeds exactly when the whole message
   * fits the frame buffer, and then yields the message, whatever the
   * buffer held before.
   */
  lemma ComposeEncodes(buffer: seq<byte>, header: MessageHeader, body: seq<Value>)
    ensures Compose(buffer, header, Values(body)).Ok? <==> |EncodeMessage(header, body)| <= |buffer|
    ensures Compose(buffer, header, Values(body)).Ok? ==>
      Compose(buffer, header, Values(body)).value == EncodeMessage(header, body)
  {
    var m := EncodeMessage(header, body);
    ComposedValues(buffer, header, body, true);
    PutAllIsPut(Tape(buffer, 0), MessageParts(header, body));
    if |m| <= |buffer| {
      assert Splice(buffer, 0, m)[..|m|] == m;
    }
  }

  /**
   * Through a `BufferCursor`, a message of values is written whole
   * exactly when each of its writes fits the buffer on its own, and the
   * buffer then starts with the last of them, not with the header.
   */
  lemma ComposedAtStart(buffer: seq<byte>, header: MessageHeader, vs: seq<Value>)
    ensures Composed(buffer, header, Values(vs), false).1.Ok? <==> EachFits(MessageParts(header, vs), |buffer|)
    ensures var ps := MessageParts(header, vs); var last := ps[|ps| - 1];
      Composed(buffer, header, Values(vs), false).1.Ok? ==>
        |last| <= |buffer| && Composed(buffer, header, Values(vs), false).0.bytes[..|last|] == last
  {
    ComposedValues(buffer, header, vs, false);
    var ps := MessageParts(header, vs);
    if PutAllAt(Tape(buffer, 0), ps).1 {
      PutAllAtLast(Tape(buffer, 0), ps);
    }
  }

  // ---------------------------------------------------------------------
  // Requests and responses

  /** `Request`. */
  datatype Request = Request(service: u32, request: u32, sequence: u32, isOneway: bool)

  /** `Response`. */
  datatype Response = Response(service: u32, request: u32, sequence: u32, isNotification: bool)

  /** The header `send_request` sends: a oneway message or an invocation. */
  function RequestHeader(q: Request): (h: MessageHeader)
    ensures h.messageType == Oneway || h.messageType == Invocation
    ensures h.messageType == Oneway <==> q.isOneway
    ensures h.service == q.service && h.request == q.request && h.sequence == q.sequence
  {
    MessageHeader(if q.isOneway then Oneway else Invocation, q.service, q.request, q.sequence)
  }

  /** The header `send_response` sends: a notification or a reply. */
  function ResponseHeader(p: Response): (h: MessageHeader)
    ensures h.messageType == Notification || h.messageType == Reply
    ensures h.messageType == Notification <==> p.isNotification
    ensures h.service == p.service && h.request == p.request && h.sequence == p.sequence
  {
    MessageHeader(if p.isNotification then Notification else Reply, p.service, p.request, p.sequence)
  }

  /** What `receive_request` makes of a received header: only invocations and oneway messages are requests. */
  function AsRequest(h: MessageHeader): (r: Result<Request, RequestResponseError>)
    ensures r.Ok? <==> h.messageType == Invocation || h.messageType == Oneway
    ensures r.Err? ==> r.error == InvalidRequest
    ensures r.Ok? ==> r.value.isOneway == (h.messageType == Oneway)
    ensures r.Ok? ==> r.value.service == h.service && r.value.request == h.request && r.value.sequence == h.sequence
  {
    match h.messageType
    case Invocation => Ok(Request(h.service, h.request, h.sequence, false))
    case Oneway => Ok(Request(h.service, h.request, h.sequence, true))
    case _ => Err(InvalidRequest)
  }

  /** What `receive_response` makes of a received header: only notifications and replies are responses. */
  function AsResponse(h: MessageHeader): (r: Result<Response, RequestResponseError>)
    ensures r.Ok? <==> h.messageType == Notification || h.messageType == Reply
    ensures r.Err? ==> r.error == InvalidResponse
    ensures r.Ok? ==> r.value.isNotification == (h.messageType == Notification)
    ensures r.Ok? ==> r.value.service == h.service && r.value.request == h.request && r.value.sequence == h.sequence
  {
    match h.messageType
    case Notification => Ok(Response(h.service, h.request, h.sequence, true))
    case Reply => Ok(Response(h.service, h.request, h.sequence, false))
    case _ => Err(InvalidResponse)
  }

  /** Every header is a request or a response, never both. */
  lemma RequestOrResponse(h: MessageHeader)
    ensures AsRequest(h).Ok? <==> AsResponse(h).Err?
  {
  }

  /** The header a request is sent with classifies back as that request. */
  lemma RequestHeaderClassifies(q: Request)
    ensures AsRequest(RequestHeader(q)) == Ok(q)
  {
  }

  /** The header a response is sent with classifies back as that response. */
  lemma ResponseHeaderClassifies(p: Response)
    ensures AsResponse(ResponseHeader(p)) == Ok(p)
  {
  }

  /** A request's header is never taken for a response, nor a response's for a request. */
  lemma HeadersDoNotCross(q: Request, p: Response)
    ensures AsResponse(RequestHeader(q)) == Err(InvalidResponse)
    ensures AsRequest(ResponseHeader(p)) == Err(InvalidRequest)
  {
  }

  // ---------------------------------------------------------------------
  // Sending

  /**
   * The constructor run on the codec: each step with the codec method it
   * names, stopping at the first error.
   */
  method WriteBody(codec: BasicCodec, body: seq<Step>) returns (r: Result<(), CodecError>)
    requires codec.Valid() && Constructible(body)
    modifies codec.cursor, codec.cursor.buffer.arr
    ensures codec.Valid()
    ensures codec.cursor.View() == RunBody(old(codec.cursor.View()), body, true).0
    ensures r == RunBody(old(codec.cursor.View()), body, true).1
  {
    ghost var start := codec.cursor.View();
    var k := 0;
    while k < |body|
      invariant 0 <= k <= |body| && codec.Valid()
      invariant RunBody(start, body, true) == RunBody(codec.cursor.View(), body[k..], true)
    {
      assert body[k..][0] == body[k] && body[k..][1..] == body[k + 1..];
      match body[k] {
        case Write(v) =>
          r := codec.WriteValue(v);
        case Callback(ids, id) =>
          r := codec.WriteCallback(ids, id);
        case Abort(e) =>
          r := Err(e);
      }
      if r.Err? {
        return;
      }
      k := k + 1;
    }
    r := Ok(());
  }

  /**
   * `send_message`: composes the header and then the body in the frame
   * buffer through a codec, and sends what the codec wrote, from the start
   * of the buffer to its position, as one frame. A codec error, the
   * constructor's own included, is returned before anything is sent.
   */
  method SendMessage(transport: BasicFramedTransport, frameBuffer: array<byte>, header: MessageHeader, body: seq<Step>)
    returns (r: Result<(), RequestResponseError>)
    requires transport.underlying.Valid() && frameBuffer != transport.underlying.buffer.arr
    requires Constructible(body)
    modifies transport.underlying, transport.underlying.buffer.arr, frameBuffer
    ensures transport.underlying.Valid()
    ensures frameBuffer[..] == Composed(old(frameBuffer[..]), header, body, true).0.bytes
    ensures var m := Compose(old(frameBuffer[..]), header, body);
      m.Err? ==> r == Err(CodecFailure(m.error)) && transport.underlying.View() == old(transport.underlying.View())
    ensures var m := Compose(old(frameBuffer[..]), header, body);
      m.Ok? ==>
        transport.underlying.View() == SendFrame(old(transport.underlying.View()), m.value).0 &&
        r == FromTransport(SendFrame(old(transport.underlying.View()), m.value).1)
  {
    ghost var t := transport.underlying.View();
    var cursor := new SliceCursor.New(Whole(frameBuffer));
    var codec := new BasicCodec.New(cursor);
    ghost var t0 := cursor.View();
    assert t0 == Tape(old(frameBuffer[..]), 0);
    ghost var whole := Composed(t0.bytes, header, body, true);
    var e := codec.StartWriteMessage(header);
    assert frameBuffer[..] == cursor.View().bytes;
    if e.Err? {
      assert transport.underlying.View() == t;
      return Err(CodecFailure(e.error));
    }
    ghost var t1 := cursor.View();
    e := WriteBody(codec, body);
    assert frameBuffer[..] == cursor.View().bytes && cursor.View() == whole.0 && e == whole.1;
    if e.Err? {
      assert transport.underlying.View() == t;
      return Err(CodecFailure(e.error));
    }
    var position := codec.Detach().GetPosition();
    var written := frameBuffer[0..position];
    assert written == Compose(t0.bytes, header, body).value;
    var sent := transport.Send(written);
    r := FromTransport(sent);
  }

  /** `send_request`: the message with the request's header. */
  method SendRequest(q: Request, transport: BasicFramedTransport, frameBuffer: array<byte>, body: seq<Step>)
    returns (r: Result<(), RequestResponseError>)
    requires transport.underlying.Valid() && frameBuffer != transport.underlying.buffer.arr
    requires Constructible(body)
    modifies transport.underlying, transport.underlying.buffer.arr, frameBuffer
    ensures transport.underlying.Valid()
    ensures frameBuffer[..] == Composed(old(frameBuffer[..]), RequestHeader(q), body, true).0.bytes
    ensures var m := Compose(old(frameBuffer[..]), RequestHeader(q), body);
      m.Err? ==> r == Err(CodecFailure(m.error)) && transport.underlying.View() == old(transport.underlying.View())
    ensures var m := Compose(old(frameBuffer[..]), RequestHeader(q), body);
      m.Ok? ==>
        transport.underlying.View() == SendFrame(old(transport.underlying.View()), m.value).0 &&
        r == FromTransport(SendFrame(old(transport.underlying.View()), m.value).1)
  {
    r := SendMessage(transport, frameBuffer, RequestHeader(q), body);
  }

  /** `send_response`: the message with the response's header. */
  method SendResponse(p: Response, transport: BasicFramedTransport, frameBuffer: array<byte>, body: seq<Step>)
    returns (r: Result<(), RequestResponseError>)
    requires transport.underlying.Valid() && frameBuffer != transport.underlying.buffer.arr
    requires Constructible(body)
    modifies transport.underlying, transport.underlying.buffer.arr, frameBuffer
    ensures transport.underlying.Valid()
    ensures frameBuffer[..] == Composed(old(frameBuffer[..]), ResponseHeader(p), body, true).0.bytes
    ensures var m := Compose(old(frameBuffer[..]), ResponseHeader(p), body);
      m.Err? ==> r == Err(CodecFailure(m.error)) && transport.underlying.View() == old(transport.underlying.View())
    ensures var m := Compose(old(frameBuffer[..]), ResponseHeader(p), body);
      m.Ok? ==>
        transport.underlying.View() == SendFrame(old(transport.underlying.View()), m.value).0 &&
        r == FromTransport(SendFrame(old(transport.underlying.View()), m.value).1)
  {
    r := SendMessage(transport, frameBuffer, ResponseHeader(p), body);
  }

  /**
   * The codec's writes through a `BufferCursor`, one after another,
   * stopping at the first that does not fit: each lands at the cursor's
   * position, which stays where it was.
   */
  method WriteEach(cursor: BufferCursor, parts: seq<seq<byte>>) returns (r: Result<(), CodecError>)
    requires cursor.Valid()
    modifies cursor.buffer.arr
    ensures cursor.Valid() && cursor.position == old(cursor.position)
    ensures cursor.View() == PutAllAt(old(cursor.View()), parts).0
    ensures r == if PutAllAt(old(cursor.View()), parts).1 then Ok(()) else Err(Cursor(InsufficientBuffer))
    ensures r.Ok? <==> EachFits(parts, cursor.Remaining())
  {
    ghost var start := cursor.View();
    var k := 0;
    while k < |parts|
      invariant 0 <= k <= |parts| && cursor.Valid() && cursor.position == old(cursor.position)
      invariant PutAllAt(start, parts) == PutAllAt(cursor.View(), parts[k..])
    {
      assert parts[k..][0] == parts[k] && parts[k..][1..] == parts[k + 1..];
      var w := cursor.Write(parts[k]);
      if w.Err? {
        return Err(Cursor(w.error));
      }
      k := k + 1;
    }
    r := Ok(());
  }

  /** The constructor run on a codec over a `BufferCursor`: every write lands at its position. */
  method WriteBodyAt(cursor: BufferCursor, body: seq<Step>) returns (r: Result<(), CodecError>)
    requires cursor.Valid()
    modifies cursor.buffer.arr
    ensures cursor.Valid() && cursor.position == old(cursor.position)
    ensures cursor.View() == RunBody(old(cursor.View()), body, false).0
    ensures r == RunBody(old(cursor.View()), body, false).1
  {
    ghost var start := cursor.View();
    var k := 0;
    while k < |body|
      invariant 0 <= k <= |body| && cursor.Valid() && cursor.position == old(cursor.position)
      invariant RunBody(start, body, false) == RunBody(cursor.View(), body[k..], false)
    {
      assert body[k..][0] == body[k] && body[k..][1..] == body[k + 1..];
      var s := StepWrites(body[k]);
      if s.Err? {
        return Err(s.error);
      }
      r := WriteEach(cursor, s.value);
      if r.Err? {
        return;
      }
      k := k + 1;
    }
    r := Ok(());
  }

  /**
   * `send_message` as written: the codec's cursor is a `BufferCursor`,
   * whose position never moves, so every write of the header and of the
   * body lands at the start of the frame buffer, and the range sent,
   * from the start to the position, is empty. Whatever the message, the
   * frame sent is that of an empty payload.
   */
  method SendMessageAsWritten(transport: BasicFramedTransport, frameBuffer: array<byte>, header: MessageHeader, body: seq<Step>)
    returns (r: Result<(), RequestResponseError>)
    requires transport.underlying.Valid() && frameBuffer != transport.underlying.buffer.arr
    modifies transport.underlying, transport.underlying.buffer.arr, frameBuffer
    ensures transport.underlying.Valid()
    ensures frameBuffer[..] == Composed(old(frameBuffer[..]), header, body, false).0.bytes
    ensures var c := Composed(old(frameBuffer[..]), header, body, false);
      c.1.Err? ==> r == Err(CodecFailure(c.1.error)) && transport.underlying.View() == old(transport.underlying.View())
    ensures Composed(old(frameBuffer[..]), header, body, false).1.Ok? ==>
      transport.underlying.View() == SendFrame(old(transport.underlying.View()), []).0 &&
      r == FromTransport(SendFrame(old(transport.underlying.View()), []).1)
  {
    ghost var t := transport.underlying.View();
    var cursor := new BufferCursor.New(Whole(frameBuffer));
    assert cursor.View() == Tape(old(frameBuffer[..]), 0);
    var e := WriteEach(cursor, HeaderParts(header));
    if e.Err? {
      assert transport.underlying.View() == t;
      return Err(CodecFailure(e.error));
    }
    e := WriteBodyAt(cursor, body);
    if e.Err? {
      assert transport.underlying.View() == t;
      return Err(CodecFailure(e.error));
    }
    var written := frameBuffer[0..cursor.GetPosition()];
    assert written == [];
    var sent := transport.Send(written);
    r := FromTransport(sent);
  }

  // ---------------------------------------------------------------------
  // Receiving

  /** The header of a message: its first two words, as `start_read_message` reads them. */
  function ReadHeaderOf(message: seq<byte>): (r: Result<MessageHeader, CodecError>)
    requires 8 <= |message|
  {
    DecodeHeader(LeValue(message[..4]), LeValue(message[4..8]))
  }

  /**
   * What `receive_message` returns for a received frame: the transport's
   * error, the codec's error on the header, or the header.
   */
  function OpenMessage(f: Result<seq<byte>, FramedTransportError>): (r: Result<MessageHeader, RequestResponseError>)
    requires f.Ok? ==> 8 <= |f.value|
    ensures f.Err? ==> r == Err(TransportFailure(f.error))
    ensures f.Ok? ==> (r.Ok? <==> ReadHeaderOf(f.value).Ok?)
    ensures f.Ok? && r.Ok? ==> r.value == ReadHeaderOf(f.value).value
    ensures f.Ok? && r.Err? ==> r.error == CodecFailure(ReadHeaderOf(f.value).error)
  {
    if f.Err? then Err(TransportFailure(f.error))
    else
      match ReadHeaderOf(f.value)
      case Ok(h) => Ok(h)
      case Err(e) => Err(CodecFailure(e))
  }

  /** What `receive_request` returns for a received frame, the codec aside. */
  function AcceptRequest(f: Result<seq<byte>, FramedTransportError>): (r: Result<Request, RequestResponseError>)
    requires f.Ok? ==> 8 <= |f.value|
  {
    match OpenMessage(f)
    case Ok(h) => AsRequest(h)
    case Err(e) => Err(e)
  }

  /** What `receive_response` returns for a received frame, the codec aside. */
  function AcceptResponse(f: Result<seq<byte>, FramedTransportError>): (r: Result<Response, RequestResponseError>)
    requires f.Ok? ==> 8 <= |f.value|
  {
    match OpenMessage(f)
    case Ok(h) => AsResponse(h)
    case Err(e) => Err(e)
  }

  /**
   * Receiving from t into a buffer of bufferLength bytes does not panic:
   * the header and the payload are there for the cursor to read, and a
   * frame that arrives holds at least the 8 bytes of a message header.
   */
  predicate Receivable(t: Tape, bufferLength: nat) {
    t.Valid() && 4 <= t.Remaining() && PayloadAvailable(t, bufferLength) &&
    (ReceiveFrame(t, bufferLength).1.Ok? ==> 8 <= |ReceiveFrame(t, bufferLength).1.value|)
  }

  /**
   * The codec `receive_message` hands back: over exactly the message at
   * the front of buffer, positioned after its header, so what is left to
   * read is the body.
   */
  ghost predicate Positioned(codec: BasicCodec, buffer: array<byte>, message: seq<byte>)
    reads codec, codec.cursor, buffer
  {
    8 <= |message| <= buffer.Length && codec.cursor.buffer == Slice(buffer, 0, |message|) &&
    codec.Valid() && codec.cursor.position == 8 &&
    buffer[..|message|] == message && codec.Unread() == message[8..]
  }

  /**
   * The codec of `receive_message` over the first length bytes of
   * buffer, and the header it reads from them.
   */
  method OpenCodec(buffer: array<byte>, length: nat) returns (h: Result<MessageHeader, CodecError>, codec: BasicCodec)
    requires 8 <= length <= buffer.Length
    ensures fresh(codec) && fresh(codec.cursor)
    ensures h == ReadHeaderOf(buffer[..length])
    ensures Positioned(codec, buffer, buffer[..length])
  {
    ghost var message := buffer[..length];
    var cursor := new SliceCursor.New(Slice(buffer, 0, length));
    codec := new BasicCodec.New(cursor);
    assert codec.Unread() == message;
    h := codec.StartReadMessage();
    assert codec.Unread() == message[8..];
  }

  /**
   * `receive_message`: receives a frame into buffer, then reads the
   * message header with a codec over exactly the received bytes.
   */
  method ReceiveMessage(transport: BasicFramedTransport, buffer: array<byte>)
    returns (r: Result<(MessageHeader, BasicCodec), RequestResponseError>)
    requires transport.underlying.Valid() && buffer != transport.underlying.buffer.arr
    requires Receivable(transport.underlying.View(), buffer.Length)
    modifies transport.underlying, buffer
    ensures transport.underlying.Valid()
    ensures transport.underlying.View() == ReceiveFrame(old(transport.underlying.View()), buffer.Length).0
    ensures var t := old(transport.underlying.View()); var length := HeaderLength(t);
      if length <= buffer.Length then buffer[..] == Splice(old(buffer[..]), 0, t.Skip(4).Peek(length))
      else buffer[..] == old(buffer[..])
    ensures var m := OpenMessage(ReceiveFrame(old(transport.underlying.View()), buffer.Length).1);
      r.Ok? == m.Ok? && (r.Err? ==> r.error == m.error) && (r.Ok? ==> r.value.0 == m.value)
    ensures r.Ok? ==>
      fresh(r.value.1) && fresh(r.value.1.cursor) &&
      Positioned(r.value.1, buffer, ReceiveFrame(old(transport.underlying.View()), buffer.Length).1.value)
  {
    var f := transport.Receive(Whole(buffer));
    if f.Err? {
      return Err(TransportFailure(f.error));
    }
    assert buffer[..|f.value|] == f.value;
    var h, codec := OpenCodec(buffer, |f.value|);
    if h.Err? {
      return Err(CodecFailure(h.error));
    }
    r := Ok((h.value, codec));
  }

  /** `receive_request`: a received message whose header is a request's. */
  method ReceiveRequest(transport: BasicFramedTransport, buffer: array<byte>)
    returns (r: Result<(Request, BasicCodec), RequestResponseError>)
    requires transport.underlying.Valid() && buffer != transport.underlying.buffer.arr
    requires Receivable(transport.underlying.View(), buffer.Length)
    modifies transport.underlying, buffer
    ensures transport.underlying.Valid()
    ensures transport.underlying.View() == ReceiveFrame(old(transport.underlying.View()), buffer.Length).0
    ensures var t := old(transport.underlying.View()); var length := HeaderLength(t);
      if length <= buffer.Length then buffer[..] == Splice(old(buffer[..]), 0, t.Skip(4).Peek(length))
      else buffer[..] == old(buffer[..])
    ensures var q := AcceptRequest(ReceiveFrame(old(transport.underlying.View()), buffer.Length).1);
      r.Ok? == q.Ok? && (r.Err? ==> r.error == q.error) && (r.Ok? ==> r.value.0 == q.value)
    ensures r.Ok? ==>
      fresh(r.value.1) && fresh(r.value.1.cursor) &&
      Positioned(r.value.1, buffer, ReceiveFrame(old(transport.underlying.View()), buffer.Length).1.value)
  {
    var m := ReceiveMessage(transport, buffer);
    if m.Err? {
      return Err(m.error);
    }
    var (header, codec) := m.value;
    var q := AsRequest(header);
    if q.Err? {
      return Err(q.error);
    }
    r := Ok((q.value, codec));
  }

  /** `receive_response`: a received message whose header is a response's. */
  method ReceiveResponse(transport: BasicFramedTransport, buffer: array<byte>)
    returns (r: Result<(Response, BasicCodec), RequestResponseError>)
    requires transport.underlying.Valid() && buffer != transport.underlying.buffer.arr
    requires Receivable(transport.underlying.View(), buffer.Length)
    modifies transport.underlying, buffer
    ensures transport.underlying.Valid()
    ensures transport.underlying.View() == ReceiveFrame(old(transport.underlying.View()), buffer.Length).0
    ensures var t := old(transport.underlying.View()); var length := HeaderLength(t);
      if length <= buffer.Length then buffer[..] == Splice(old(buffer[..]), 0, t.Skip(4).Peek(length))
      else buffer[..] == old(buffer[..])
    ensures var p := AcceptResponse(ReceiveFrame(old(transport.underlying.View()), buffer.Length).1);
      r.Ok? == p.Ok? && (r.Err? ==> r.error == p.error) && (r.Ok? ==> r.value.0 == p.value)
    ensures r.Ok? ==>
      fresh(r.value.1) && fresh(r.value.1.cursor) &&
      Positioned(r.value.1, buffer, ReceiveFrame(old(transport.underlying.View()), buffer.Length).1.value)
  {
    var m := ReceiveMessage(transport, buffer);
    if m.Err? {
      return Err(m.error);
    }
    var (header, codec) := m.value;
    var p := AsResponse(header);
    if p.Err? {
      return Err(p.error);
    }
    r := Ok((p.value, codec));
  }

  // ---------------------------------------------------------------------
  // Round trips

  /**
   * The header read back from a message is the header it was written
   * with, keeping the low bytes of service and request.
   */
  lemma MessageHeaderRoundTrip(header: MessageHeader, body: seq<Value>)
    ensures 8 <= |EncodeMessage(header, body)|
    ensures ReadHeaderOf(EncodeMessage(header, body)) ==
      Ok(MessageHeader(header.messageType, header.service % 0x100, header.request % 0x100, header.sequence))
  {
    var m := EncodeMessage(header, body);
    MessageLayout(header, body);
    Pow256Widths();
    assert LeValue(m[..4]) == HeaderWord(header) by {
      LeValueOfLeBytes(HeaderWord(header), 4);
    }
    assert LeValue(m[4..8]) == header.sequence by {
      LeValueOfLeBytes(header.sequence, 4);
    }
    HeaderRoundTrip(header);
  }

  /** A header whose service and request fit a byte reads back as itself. */
  lemma HeaderReadsBack(header: MessageHeader, body: seq<Value>)
    requires header.service < 0x100 && header.request < 0x100
    ensures 8 <= |EncodeMessage(header, body)| && ReadHeaderOf(EncodeMessage(header, body)) == Ok(header)
  {
    assert MessageHeader(header.messageType, header.service % 0x100, header.request % 0x100, header.sequence) == header;
    MessageHeaderRoundTrip(header, body);
  }

  /** A payload of at least 8 bytes sent as a frame is received back as it was sent. */
  lemma Delivered(t: Tape, m: seq<byte>, bufferLength: nat)
    requires t.Valid() && SendFrame(t, m).1.Ok? && 8 <= |m| <= bufferLength
    ensures var u := Tape(SendFrame(t, m).0.bytes, t.pos);
      Receivable(u, bufferLength) &&
      ReceiveFrame(u, bufferLength).0 == SendFrame(t, m).0 && ReceiveFrame(u, bufferLength).1 == Ok(m)
  {
    SendThenReceive(t, m, bufferLength);
  }

  /**
   * A message sent as a frame is received as that frame, and its header
   * opens as the header it was sent with, when service and request fit a
   * byte.
   */
  lemma MessageRoundTrip(t: Tape, header: MessageHeader, body: seq<Value>, bufferLength: nat)
    requires t.Valid() && header.service < 0x100 && header.request < 0x100
    requires SendFrame(t, EncodeMessage(header, body)).1.Ok? && |EncodeMessage(header, body)| <= bufferLength
    ensures var m := EncodeMessage(header, body);
      var u := Tape(SendFrame(t, m).0.bytes, t.pos);
      Receivable(u, bufferLength) &&
      ReceiveFrame(u, bufferLength).0 == SendFrame(t, m).0 && ReceiveFrame(u, bufferLength).1 == Ok(m) &&
      OpenMessage(ReceiveFrame(u, bufferLength).1) == Ok(header)
  {
    HeaderReadsBack(header, body);
    Delivered(t, EncodeMessage(header, body), bufferLength);
  }

  /**
   * A request sent is received as that request, with its body after the
   * header, when its service and request fit a byte.
   */
  lemma RequestRoundTrip(t: Tape, q: Request, body: seq<Value>, bufferLength: nat)
    requires t.Valid() && q.service < 0x100 && q.request < 0x100
    requires var m := EncodeMessage(RequestHeader(q), body);
      SendFrame(t, m).1.Ok? && |m| <= bufferLength
    ensures var m := EncodeMessage(RequestHeader(q), body);
      var u := Tape(SendFrame(t, m).0.bytes, t.pos);
      Receivable(u, bufferLength) && ReceiveFrame(u, bufferLength).1 == Ok(m) &&
      AcceptRequest(ReceiveFrame(u, bufferLength).1) == Ok(q) && m[8..] == Flatten(PartsOf(body))
  {
    MessageRoundTrip(t, RequestHeader(q), body, bufferLength);
    RequestHeaderClassifies(q);
    MessageLayout(RequestHeader(q), body);
  }

  /**
   * A response sent is received as that response, with its body after the
   * header, when its service and request fit a byte.
   */
  lemma ResponseRoundTrip(t: Tape, p: Response, body: seq<Value>, bufferLength: nat)
    requires t.Valid() && p.service < 0x100 && p.request < 0x100
    requires var m := EncodeMessage(ResponseHeader(p), body);
      SendFrame(t, m).1.Ok? && |m| <= bufferLength
    ensures var m := EncodeMessage(ResponseHeader(p), body);
      var u := Tape(SendFrame(t, m).0.bytes, t.pos);
      Receivable(u, bufferLength) && ReceiveFrame(u, bufferLength).1 == Ok(m) &&
      AcceptResponse(ReceiveFrame(u, bufferLength).1) == Ok(p) && m[8..] == Flatten(PartsOf(body))
  {
    MessageRoundTrip(t, ResponseHeader(p), body, bufferLength);
    ResponseHeaderClassifies(p);
    MessageLayout(ResponseHeader(p), body);
  }

  /** Two payloads sent one after the other are received one after the other, in that order. */
  lemma DeliveredInOrder(t: Tape, m1: seq<byte>, m2: seq<byte>, bufferLength: nat)
    requires t.Valid() && SendFrame(t, m1).1.Ok? && SendFrame(SendFrame(t, m1).0, m2).1.Ok?
    requires 8 <= |m1| <= bufferLength && 8 <= |m2| <= bufferLength
    ensures var end := SendFrame(SendFrame(t, m1).0, m2).0;
      var u := Tape(end.bytes, t.pos);
      Receivable(u, bufferLength) && ReceiveFrame(u, bufferLength).1 == Ok(m1) &&
      var v := ReceiveFrame(u, bufferLength).0;
      Receivable(v, bufferLength) && ReceiveFrame(v, bufferLength).1 == Ok(m2) &&
      ReceiveFrame(v, bufferLength).0 == end
  {
    FramesInOrder(t, m1, m2, bufferLength);
  }

  /**
   * A request and then a response sent over one transport are received in
   * that order as that request and that response.
   */
  lemma RequestThenResponse(t: Tape, q: Request, p: Response, requestBody: seq<Value>, responseBody: seq<Value>, bufferLength: nat)
    requires t.Valid() && q.service < 0x100 && q.request < 0x100 && p.service < 0x100 && p.request < 0x100
    requires var m1, m2 := EncodeMessage(RequestHeader(q), requestBody), EncodeMessage(ResponseHeader(p), responseBody);
      SendFrame(t, m1).1.Ok? && SendFrame(SendFrame(t, m1).0, m2).1.Ok? && |m1| <= bufferLength && |m2| <= bufferLength
    ensures var m1, m2 := EncodeMessage(RequestHeader(q), requestBody), EncodeMessage(ResponseHeader(p), responseBody);
      var end := SendFrame(SendFrame(t, m1).0, m2).0;
      var u := Tape(end.bytes, t.pos);
      Receivable(u, bufferLength) && ReceiveFrame(u, bufferLength).1 == Ok(m1) &&
      AcceptRequest(ReceiveFrame(u, bufferLength).1) == Ok(q) &&
      var v := ReceiveFrame(u, bufferLength).0;
      Receivable(v, bufferLength) && ReceiveFrame(v, bufferLength).1 == Ok(m2) &&
      AcceptResponse(ReceiveFrame(v, bufferLength).1) == Ok(p) && ReceiveFrame(v, bufferLength).0 == end
  {
    var m1, m2 := EncodeMessage(RequestHeader(q), requestBody), EncodeMessage(ResponseHeader(p), responseBody);
    HeaderReadsBack(RequestHeader(q), requestBody);
    HeaderReadsBack(ResponseHeader(p), responseBody);
    RequestHeaderClassifies(q);
    ResponseHeaderClassifies(p);
    DeliveredInOrder(t, m1, m2, bufferLength);
  }

  /**
   * `start_read_message` as `receive_message` makes it, through a
   * `BufferCursor`: both words are read at the cursor's position, which
   * never moves, so the sequence is read from the header word itself and
   * the codec is left before the header instead of after it.
   */
  method StartReadMessageAsWritten(cursor: BufferCursor) returns (r: Result<MessageHeader, CodecError>)
    requires cursor.Valid() && 4 <= cursor.Remaining()
    ensures var word := LeValue(cursor.View().Peek(4)); r == DecodeHeader(word, word)
  {
    var first := new byte[4];
    var header := cursor.Read(Whole(first));
    var second := new byte[4];
    var sequence := cursor.Read(Whole(second));
    r := DecodeHeader(LeValue(header.value), LeValue(sequence.value));
  }

  /** For the request of the exchange below, the sequence read as written is not the one sent. */
  lemma SequenceMisread()
    ensures var h := RequestHeader(Request(1, 2, 0, false));
      var word := LeValue(LeBytes(HeaderWord(h), 4));
      DecodeHeader(word, word).Ok? && DecodeHeader(word, word).value.sequence == 0x0101_0200 != h.sequence
  {
    var h := RequestHeader(Request(1, 2, 0, false));
    assert HeaderWord(h) == 0x0101_0200;
    Pow256Widths();
    LeValueOfLeBytes(HeaderWord(h), 4);
  }

  // ---------------------------------------------------------------------
  // The exchange of the request/response test

  /** The bytes 0, 1, ..., n - 1, each `(index & 0xff) as u8`. */
  function Counting(n: nat): (s: seq<byte>)
    ensures |s| == n && forall i :: 0 <= i < n ==> s[i] == i % 0x100
  {
    seq(n, (i: int) => (i % 0x100) as byte)
  }

  /** A body of one binary: its length prefix and its bytes, which read back as a binary. */
  lemma BinaryBody(d: seq<byte>)
    requires |d| < 0x1_0000_0000
    ensures var s := Flatten(PartsOf([Binary(d)]));
      |s| == 4 + |d| && Readable(KBinary, s, |d|) && LengthPrefix(s) == |d| && s[4..4 + |d|] == d
  {
    Pow256Widths();
    assert [Binary(d)][1..] == [];
    assert PartsOf([Binary(d)]) == [LeBytes(|d|, 4), d];
    FlattenTwo(LeBytes(|d|, 4), d);
    PayloadRead(d, []);
    assert LeBytes(|d|, 4) + d + [] == LeBytes(|d|, 4) + d;
  }

  /** Two payloads whose frames both fit what remains are both sent, one after the other. */
  lemma TwoFramesFit(t: Tape, m1: seq<byte>, m2: seq<byte>)
    requires t.Valid() && |m1| <= MAX_MESSAGE_SIZE && |m2| <= MAX_MESSAGE_SIZE
    requires 8 + |m1| + |m2| <= t.Remaining()
    ensures SendFrame(t, m1).1.Ok? && SendFrame(SendFrame(t, m1).0, m2).1.Ok?
    ensures SendFrame(SendFrame(t, m1).0, m2).0.pos == t.pos + 8 + |m1| + |m2|
  {
    SendFrameOk(t, m1);
    SendFrameOk(SendFrame(t, m1).0, m2);
  }

  /** The sending half of the exchange: a request, then a response, with one body. */
  method SendBoth(transport: BasicFramedTransport, frameBuffer: array<byte>, q: Request, p: Response, body: seq<Value>)
    requires transport.underlying.Valid() && frameBuffer != transport.underlying.buffer.arr
    requires forall i :: 0 <= i < |body| ==> Writable(body[i])
    requires var m1, m2 := EncodeMessage(RequestHeader(q), body), EncodeMessage(ResponseHeader(p), body);
      |m1| <= frameBuffer.Length && |m2| <= frameBuffer.Length &&
      SendFrame(transport.underlying.View(), m1).1.Ok? &&
      SendFrame(SendFrame(transport.underlying.View(), m1).0, m2).1.Ok?
    modifies transport.underlying, transport.underlying.buffer.arr, frameBuffer
    ensures transport.underlying.Valid()
    ensures var m1, m2 := EncodeMessage(RequestHeader(q), body), EncodeMessage(ResponseHeader(p), body);
      transport.underlying.View() == SendFrame(SendFrame(old(transport.underlying.View()), m1).0, m2).0
    ensures var first := Composed(old(frameBuffer[..]), RequestHeader(q), Values(body), true).0.bytes;
      frameBuffer[..] == Composed(first, ResponseHeader(p), Values(body), true).0.bytes
    ensures var m2 := EncodeMessage(ResponseHeader(p), body);
      |m2| <= frameBuffer.Length && frameBuffer[..|m2|] == m2
  {
    ghost var m1, m2 := EncodeMessage(RequestHeader(q), body), EncodeMessage(ResponseHeader(p), body);
    ghost var t := transport.underlying.View();
    ValuesConstructible(body);
    ComposeEncodes(frameBuffer[..], RequestHeader(q), body);
    var sent := SendRequest(q, transport, frameBuffer, Values(body));
    assert transport.underlying.View() == SendFrame(t, m1).0;
    ComposeEncodes(frameBuffer[..], ResponseHeader(p), body);
    sent := SendResponse(p, transport, frameBuffer, Values(body));
  }

  /** A received request whose body is one binary: the request, and the binary read into a buffer of its length. */
  method ReceiveBinaryRequest(receiver: BasicFramedTransport, receiveBuffer: array<byte>, d: seq<byte>)
    returns (q: Request, data: seq<byte>)
    requires receiver.underlying.Valid() && receiveBuffer != receiver.underlying.buffer.arr
    requires Receivable(receiver.underlying.View(), receiveBuffer.Length) && |d| < 0x1_0000_0000
    requires var f := ReceiveFrame(receiver.underlying.View(), receiveBuffer.Length).1;
      AcceptRequest(f).Ok? && f.value[8..] == Flatten(PartsOf([Binary(d)]))
    modifies receiver.underlying, receiveBuffer
    ensures receiver.underlying.Valid()
    ensures receiver.underlying.View() == ReceiveFrame(old(receiver.underlying.View()), receiveBuffer.Length).0
    ensures var t := old(receiver.underlying.View()); var length := HeaderLength(t);
      if length <= receiveBuffer.Length then receiveBuffer[..] == Splice(old(receiveBuffer[..]), 0, t.Skip(4).Peek(length))
      else receiveBuffer[..] == old(receiveBuffer[..])
    ensures q == AcceptRequest(ReceiveFrame(old(receiver.underlying.View()), receiveBuffer.Length).1).value
    ensures data == d
  {
    BinaryBody(d);
    var received := ReceiveRequest(receiver, receiveBuffer);
    var codec: BasicCodec;
    q, codec := received.value.0, received.value.1;
    var dataBuffer := new byte[|d|];
    var read := codec.ReadBinary(Whole(dataBuffer));
    data := read.value;
  }

  /** A received response whose body is one binary: the response, and the binary read into a buffer of its length. */
  method ReceiveBinaryResponse(receiver: BasicFramedTransport, receiveBuffer: array<byte>, d: seq<byte>)
    returns (p: Response, data: seq<byte>)
    requires receiver.underlying.Valid() && receiveBuffer != receiver.underlying.buffer.arr
    requires Receivable(receiver.underlying.View(), receiveBuffer.Length) && |d| < 0x1_0000_0000
    requires var f := ReceiveFrame(receiver.underlying.View(), receiveBuffer.Length).1;
      AcceptResponse(f).Ok? && f.value[8..] == Flatten(PartsOf([Binary(d)]))
    modifies receiver.underlying, receiveBuffer
    ensures receiver.underlying.Valid()
    ensures receiver.underlying.View() == ReceiveFrame(old(receiver.underlying.View()), receiveBuffer.Length).0
    ensures var t := old(receiver.underlying.View()); var length := HeaderLength(t);
      if length <= receiveBuffer.Length then receiveBuffer[..] == Splice(old(receiveBuffer[..]), 0, t.Skip(4).Peek(length))
      else receiveBuffer[..] == old(receiveBuffer[..])
    ensures p == AcceptResponse(ReceiveFrame(old(receiver.underlying.View()), receiveBuffer.Length).1).value
    ensures data == d
  {
    BinaryBody(d);
    var received := ReceiveResponse(receiver, receiveBuffer);
    var codec: BasicCodec;
    p, codec := received.value.0, received.value.1;
    var dataBuffer := new byte[|d|];
    var read := codec.ReadBinary(Whole(dataBuffer));
    data := read.value;
  }

  /** The first block of the test: a request and then a response sent over a transport on buffer. */
  method SendExchange(buffer: array<byte>, request: Request, response: Response, body: seq<Value>)
    requires forall i :: 0 <= i < |body| ==> Writable(body[i])
    requires var m1, m2 := EncodeMessage(RequestHeader(request), body), EncodeMessage(ResponseHeader(response), body);
      |m1| <= 256 && |m2| <= 256 && 8 + |m1| + |m2| <= buffer.Length
    modifies buffer
    ensures var m1, m2 := EncodeMessage(RequestHeader(request), body), EncodeMessage(ResponseHeader(response), body);
      var t := Tape(old(buffer[..]), 0);
      t.Valid() && SendFrame(t, m1).1.Ok? && SendFrame(SendFrame(t, m1).0, m2).1.Ok? &&
      buffer[..] == SendFrame(SendFrame(t, m1).0, m2).0.bytes
  {
    ghost var m1, m2 := EncodeMessage(RequestHeader(request), body), EncodeMessage(ResponseHeader(response), body);
    var frameBuffer := new byte[256];
    var cursor := new SliceCursor.New(Whole(buffer));
    var transport := new BasicFramedTransport.New(cursor);
    ghost var t := cursor.View();
    assert t == Tape(old(buffer[..]), 0);
    TwoFramesFit(t, m1, m2);
    SendBoth(transport, frameBuffer, request, response, body);
    assert transport.Release().GetPosition() > 0;
    assert buffer[..] == cursor.View().bytes;
  }

  /** A transport reading buffer from its start. */
  method OpenReceiver(buffer: array<byte>) returns (receiver: BasicFramedTransport)
    ensures fresh(receiver.underlying) && receiver.underlying.Valid() && receiver.underlying.buffer.arr == buffer
    ensures receiver.underlying.View() == Tape(buffer[..], 0)
  {
    var readCursor := new SliceCursor.New(Whole(buffer));
    receiver := new BasicFramedTransport.New(readCursor);
  }

  /** The second block of the test: the request and then the response received, in order, from u. */
  method ReceiveExchange(receiver: BasicFramedTransport, ghost u: Tape, ghost m1: seq<byte>, ghost m2: seq<byte>,
                         request: Request, response: Response, d: seq<byte>, n: nat)
    returns (q: Request, d1: seq<byte>, p: Response, d2: seq<byte>)
    requires receiver.underlying.Valid() && receiver.underlying.View() == u && |d| < 0x1_0000_0000
    requires 8 <= |m1| && 8 <= |m2| && m1[8..] == Flatten(PartsOf([Binary(d)])) && m2[8..] == Flatten(PartsOf([Binary(d)]))
    requires Receivable(u, n) && ReceiveFrame(u, n).1 == Ok(m1) && AcceptRequest(Ok(m1)) == Ok(request)
    requires var v := ReceiveFrame(u, n).0;
      Receivable(v, n) && ReceiveFrame(v, n).1 == Ok(m2) && AcceptResponse(Ok(m2)) == Ok(response)
    modifies receiver.underlying
    ensures receiver.underlying.Valid() && receiver.underlying.View() == ReceiveFrame(ReceiveFrame(u, n).0, n).0
    ensures q == request && p == response && d1 == d && d2 == d
  {
    var receiveBuffer := new byte[n];
    ghost var v := ReceiveFrame(u, n).0;
    q, d1 := ReceiveBinaryRequest(receiver, receiveBuffer, d);
    assert receiver.underlying.View() == v;
    p, d2 := ReceiveBinaryResponse(receiver, receiveBuffer, d);
  }

  /**
   * The test of src/request.rs:250-319 with the corrected `send_message`,
   * for any request and response whose service and request fit a byte and
   * any binary body that fits the 256-byte frame buffer: both are sent
   * into one buffer and received back from its start, in order, with
   * their fields and their bodies intact.
   */
  method ExchangeOf(request: Request, response: Response, d: seq<byte>) returns (q: Request, d1: seq<byte>, p: Response, d2: seq<byte>)
    requires request.service < 0x100 && request.request < 0x100
    requires response.service < 0x100 && response.request < 0x100
    requires |d| <= 244
    ensures q == request && p == response && d1 == d && d2 == d
  {
    var buffer := new byte[(4 + 0) + (4 + 16) + (4 + 65535)];
    var body := [Binary(d)];
    ghost var m1, m2 := EncodeMessage(RequestHeader(request), body), EncodeMessage(ResponseHeader(response), body);
    assert |m1| == 12 + |d| && |m2| == 12 + |d| && m1[8..] == Flatten(PartsOf(body)) && m2[8..] == Flatten(PartsOf(body)) by {
      BinaryBody(d);
      MessageLayout(RequestHeader(request), body);
      MessageLayout(ResponseHeader(response), body);
    }
    ghost var t := Tape(buffer[..], 0);
    SendExchange(buffer, request, response, body);
    var receiver := OpenReceiver(buffer);
    RequestThenResponse(t, request, response, body, body, 256);
    q, d1, p, d2 := ReceiveExchange(receiver, receiver.underlying.View(), m1, m2, request, response, d, 256);
  }

  /**
   * The values of the test: a request (1, 2, 0, not oneway) and a
   * response (4, 5, 0, not a notification), each with the 16 bytes 0..15
   * as its body.
   */
  method Exchange() returns (q: Request, d1: seq<byte>, p: Response, d2: seq<byte>)
    ensures q == Request(1, 2, 0, false) && p == Response(4, 5, 0, false)
    ensures d1 == Counting(16) && d2 == Counting(16)
  {
    q, d1, p, d2 := ExchangeOf(Request(1, 2, 0, false), Response(4, 5, 0, false), Counting(16));
  }
}
