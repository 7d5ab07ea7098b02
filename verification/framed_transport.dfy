/**
 * The framed transport (src/framed_transport.rs:41-147). A message travels
 * as one frame, `[length u16 LE][crc u16 LE][payload]`, over an underlying
 * transport; here the underlying transport is a `SliceCursor`, so a frame
 * sent and a frame received are writes to and reads from one byte tape.
 */
module FramedTransport {
  import opened Results
  import opened Bytes
  import opened Cursor
  import opened Codec
  import opened Crc16

  /** `FramedTransportError`, with the cursor's error as the underlying one. */
  datatype FramedTransportError =
    | BufferTooShort
    | DataTooLong
    | ChecksumError
    | InvalidHeader
    | UnderlyingError(error: CursorError)

  /** The largest payload: the length field is a `u16`. */
  const MAX_MESSAGE_SIZE: nat := 65535

  /** The number a 16-bit register holds: the `u16` the source compares and writes. */
  function Widen(c: bv16): (n: nat)
    ensures n < 0x1_0000
  {
    c as nat
  }

  /** The CRC-16 of a payload, as the number the header carries. */
  function Crc(d: seq<byte>): (c: nat)
    ensures c < 0x1_0000
  {
    Widen(Checksum(d))
  }

  /** The four header bytes of the frame of d: its length, then its CRC. */
  function Header(d: seq<byte>): (h: seq<byte>)
    requires |d| <= MAX_MESSAGE_SIZE
    ensures |h| == 4
  {
    LeBytes(|d|, 2) + LeBytes(Crc(d), 2)
  }

  /** The frame of d: the header, then the payload. */
  function Frame(d: seq<byte>): (f: seq<byte>)
    requires |d| <= MAX_MESSAGE_SIZE
    ensures |f| == 4 + |d|
  {
    Header(d) + d
  }

  // ---------------------------------------------------------------------
  // What `send` and `receive` do to the underlying tape

  /**
   * `send` on a tape: refuse a payload that is too long, else write the
   * header and then the payload, each all or nothing, stopping at the
   * first write that does not fit.
   */
  function SendFrame(t: Tape, d: seq<byte>): (r: (Tape, Result<(), FramedTransportError>))
    requires t.Valid()
    ensures r.0.Valid() && |r.0.bytes| == |t.bytes|
  {
    if |d| > MAX_MESSAGE_SIZE then (t, Err(DataTooLong))
    else
      var (t1, headerOk) := t.Put(Header(d));
      if !headerOk then (t1, Err(UnderlyingError(InsufficientBuffer)))
      else
        var (t2, dataOk) := t1.Put(d);
        (t2, if dataOk then Ok(()) else Err(UnderlyingError(InsufficientBuffer)))
  }

  /** The length field of the header at the tape's position. */
  function HeaderLength(t: Tape): (n: nat)
    requires t.Valid() && 4 <= t.Remaining()
  {
    LeValue(t.Peek(4)[..2])
  }

  /** The CRC field of the header at the tape's position. */
  function HeaderCrc(t: Tape): (c: nat)
    requires t.Valid() && 4 <= t.Remaining()
  {
    LeValue(t.Peek(4)[2..])
  }

  /**
   * The payload `receive` goes on to read is all there. A shorter stream
   * makes the cursor's `read` panic, so `receive` needs this of its caller.
   */
  predicate PayloadAvailable(t: Tape, bufferLength: nat)
    requires t.Valid() && 4 <= t.Remaining()
  {
    HeaderLength(t) <= bufferLength ==> 4 + HeaderLength(t) <= t.Remaining()
  }

  /**
   * `receive` on a tape into a buffer of bufferLength bytes: read the
   * header, reject a length over the maximum or over the buffer, else read
   * the payload and check its CRC against the header's.
   */
  function ReceiveFrame(t: Tape, bufferLength: nat): (r: (Tape, Result<seq<byte>, FramedTransportError>))
    requires t.Valid() && 4 <= t.Remaining() && PayloadAvailable(t, bufferLength)
    ensures r.0.Valid() && r.0.bytes == t.bytes
  {
    var length := HeaderLength(t);
    var t1 := t.Skip(4);
    if length > MAX_MESSAGE_SIZE then (t1, Err(InvalidHeader))
    else if bufferLength < length then (t1, Err(BufferTooShort))
    else
      var payload := t1.Peek(length);
      (t1.Skip(length), if Crc(payload) != HeaderCrc(t) then Err(ChecksumError) else Ok(payload))
  }

  // ---------------------------------------------------------------------
  // Properties of frames

  /**
   * `send` succeeds exactly when the payload is short enough and its whole
   * frame fits, and then it has written the frame at the position.
   */
  lemma SendFrameOk(t: Tape, d: seq<byte>)
    requires t.Valid()
    ensures SendFrame(t, d).1.Ok? <==> |d| <= MAX_MESSAGE_SIZE && 4 + |d| <= t.Remaining()
    ensures SendFrame(t, d).1.Ok? ==> SendFrame(t, d).0 == t.Put(Frame(d)).0
  {
    if |d| <= MAX_MESSAGE_SIZE && 4 + |d| <= t.Remaining() {
      SpliceSplice(t.bytes, t.pos, Header(d), d);
    }
  }

  /**
   * The failures of `send`: a payload over the maximum writes nothing; a
   * header that does not fit writes nothing; a payload that does not fit
   * after the header leaves the header written.
   */
  lemma SendFrameErrors(t: Tape, d: seq<byte>)
    requires t.Valid()
    ensures |d| > MAX_MESSAGE_SIZE ==> SendFrame(t, d).0 == t && SendFrame(t, d).1 == Err(DataTooLong)
    ensures |d| <= MAX_MESSAGE_SIZE && t.Remaining() < 4 ==>
      SendFrame(t, d).0 == t && SendFrame(t, d).1 == Err(UnderlyingError(InsufficientBuffer))
    ensures |d| <= MAX_MESSAGE_SIZE && 4 <= t.Remaining() < 4 + |d| ==>
      SendFrame(t, d).0 == t.Put(Header(d)).0 && SendFrame(t, d).1 == Err(UnderlyingError(InsufficientBuffer)) &&
      t.Put(Header(d)).0.pos == t.pos + 4
  {
  }

  /** A header field read back from a frame is the number written into it. */
  lemma HeaderFields(d: seq<byte>)
    requires |d| <= MAX_MESSAGE_SIZE
    ensures LeValue(Header(d)[..2]) == |d| && LeValue(Header(d)[2..]) == Crc(d)
  {
    Pow256Widths();
    assert Header(d)[..2] == LeBytes(|d|, 2);
    assert Header(d)[2..] == LeBytes(Crc(d), 2);
    LeValueOfLeBytes(|d|, 2);
    LeValueOfLeBytes(Crc(d), 2);
  }

  /** The length field holds at most 65535, so `receive` never reports `InvalidHeader`. */
  lemma ReceiveNeverInvalidHeader(t: Tape, bufferLength: nat)
    requires t.Valid() && 4 <= t.Remaining() && PayloadAvailable(t, bufferLength)
    ensures HeaderLength(t) <= MAX_MESSAGE_SIZE
    ensures ReceiveFrame(t, bufferLength).1 != Err(InvalidHeader)
  {
    Pow256Widths();
    assert |t.Peek(4)[..2]| == 2;
  }

  /** `receive` on a header whose length is over the buffer's. */
  lemma ReceiveFrameRefuses(t: Tape, bufferLength: nat)
    requires t.Valid() && 4 <= t.Remaining() && bufferLength < HeaderLength(t) <= MAX_MESSAGE_SIZE
    ensures PayloadAvailable(t, bufferLength)
    ensures ReceiveFrame(t, bufferLength).0 == t.Skip(4) && ReceiveFrame(t, bufferLength).1 == Err(BufferTooShort)
  {
  }

  /** `receive` on a header whose length fits and whose payload's CRC matches. */
  lemma ReceiveFrameAccepts(t: Tape, bufferLength: nat, payload: seq<byte>)
    requires t.Valid() && 4 <= t.Remaining() && HeaderLength(t) <= MAX_MESSAGE_SIZE
    requires HeaderLength(t) == |payload| <= bufferLength && 4 + |payload| <= t.Remaining()
    requires t.Skip(4).Peek(|payload|) == payload && Crc(payload) == HeaderCrc(t)
    ensures PayloadAvailable(t, bufferLength)
    ensures ReceiveFrame(t, bufferLength).0 == t.Skip(4 + |payload|) && ReceiveFrame(t, bufferLength).1 == Ok(payload)
  {
  }

  /** `receive` on a header whose length fits and whose payload's CRC differs. */
  lemma ReceiveFrameRejects(t: Tape, bufferLength: nat, payload: seq<byte>)
    requires t.Valid() && 4 <= t.Remaining() && HeaderLength(t) <= MAX_MESSAGE_SIZE
    requires HeaderLength(t) == |payload| <= bufferLength && 4 + |payload| <= t.Remaining()
    requires t.Skip(4).Peek(|payload|) == payload && Crc(payload) != HeaderCrc(t)
    ensures PayloadAvailable(t, bufferLength)
    ensures ReceiveFrame(t, bufferLength).0 == t.Skip(4 + |payload|) && ReceiveFrame(t, bufferLength).1 == Err(ChecksumError)
  {
  }

  /**
   * A frame at the tape's position is received back whole into a buffer
   * that can hold its payload, and the tape moves past it.
   */
  lemma ReceiveFrameOf(t: Tape, d: seq<byte>, bufferLength: nat)
    requires t.Valid() && |d| <= MAX_MESSAGE_SIZE && 4 + |d| <= t.Remaining()
    requires t.Peek(4 + |d|) == Frame(d) && |d| <= bufferLength
    ensures HeaderLength(t) == |d| && PayloadAvailable(t, bufferLength)
    ensures ReceiveFrame(t, bufferLength).0 == t.Skip(4 + |d|) && ReceiveFrame(t, bufferLength).1 == Ok(d)
  {
    assert t.Peek(4) == Header(d) && t.Skip(4).Peek(|d|) == d by {
      PeekSplit(t, 4, 4 + |d|);
      assert Frame(d)[..4] == Header(d) && Frame(d)[4..] == d;
    }
    assert HeaderLength(t) == |d| && HeaderCrc(t) == Crc(d) by {
      HeaderFields(d);
    }
    ReceiveFrameAccepts(t, bufferLength, d);
  }

  /**
   * A frame whose payload does not fit the buffer is refused after its
   * header, and only the header is consumed.
   */
  lemma ReceiveFrameTooShort(t: Tape, d: seq<byte>, bufferLength: nat)
    requires t.Valid() && |d| <= MAX_MESSAGE_SIZE && 4 <= t.Remaining()
    requires t.Peek(4) == Header(d) && bufferLength < |d|
    ensures PayloadAvailable(t, bufferLength)
    ensures ReceiveFrame(t, bufferLength).0 == t.Skip(4) && ReceiveFrame(t, bufferLength).1 == Err(BufferTooShort)
  {
    HeaderFields(d);
    ReceiveFrameRefuses(t, bufferLength);
  }

  /** Sending a payload and then receiving from where the send started gives the payload back. */
  lemma SendThenReceive(t: Tape, d: seq<byte>, bufferLength: nat)
    requires t.Valid() && SendFrame(t, d).1.Ok? && |d| <= bufferLength
    ensures var u := Tape(SendFrame(t, d).0.bytes, t.pos);
      u.Valid() && 4 <= u.Remaining() && PayloadAvailable(u, bufferLength) &&
      ReceiveFrame(u, bufferLength).0 == SendFrame(t, d).0 && ReceiveFrame(u, bufferLength).1 == Ok(d)
  {
    SendFrameOk(t, d);
    PutThenPeek(t, Frame(d));
    ReceiveFrameOf(Tape(SendFrame(t, d).0.bytes, t.pos), d, bufferLength);
  }

  /** Two successful sends leave the two frames one after the other from the first position. */
  lemma SendTwo(t: Tape, d1: seq<byte>, d2: seq<byte>)
    requires t.Valid() && SendFrame(t, d1).1.Ok? && SendFrame(SendFrame(t, d1).0, d2).1.Ok?
    ensures |d1| <= MAX_MESSAGE_SIZE && |d2| <= MAX_MESSAGE_SIZE
    ensures var end := SendFrame(SendFrame(t, d1).0, d2).0;
      var u := Tape(end.bytes, t.pos);
      end.pos == t.pos + |Frame(d1)| + |Frame(d2)| && end.pos <= |end.bytes| &&
      u.Peek(|Frame(d1)|) == Frame(d1) && u.Skip(|Frame(d1)|).Peek(|Frame(d2)|) == Frame(d2)
  {
    SendFrameOk(t, d1);
    SendFrameOk(SendFrame(t, d1).0, d2);
    PutTwo(t, Frame(d1), Frame(d2));
  }

  /** Two frames one after the other are received one after the other. */
  lemma ReceiveTwo(u: Tape, d1: seq<byte>, d2: seq<byte>, bufferLength: nat)
    requires u.Valid() && |d1| <= MAX_MESSAGE_SIZE && |d2| <= MAX_MESSAGE_SIZE
    requires |Frame(d1)| + |Frame(d2)| <= u.Remaining() && |d1| <= bufferLength && |d2| <= bufferLength
    requires u.Peek(|Frame(d1)|) == Frame(d1) && u.Skip(|Frame(d1)|).Peek(|Frame(d2)|) == Frame(d2)
    ensures 4 <= u.Remaining() && PayloadAvailable(u, bufferLength)
    ensures ReceiveFrame(u, bufferLength).0 == u.Skip(|Frame(d1)|) && ReceiveFrame(u, bufferLength).1 == Ok(d1)
    ensures var v := u.Skip(|Frame(d1)|);
      4 <= v.Remaining() && PayloadAvailable(v, bufferLength) &&
      ReceiveFrame(v, bufferLength).0 == v.Skip(|Frame(d2)|) && ReceiveFrame(v, bufferLength).1 == Ok(d2)
  {
    ReceiveFrameOf(u, d1, bufferLength);
    ReceiveFrameOf(u.Skip(|Frame(d1)|), d2, bufferLength);
  }

  /**
   * Frames come back in the order they were sent: after two sends from t,
   * two receives from t's position give the first payload, then the second.
   */
  lemma FramesInOrder(t: Tape, d1: seq<byte>, d2: seq<byte>, bufferLength: nat)
    requires t.Valid() && SendFrame(t, d1).1.Ok? && SendFrame(SendFrame(t, d1).0, d2).1.Ok?
    requires |d1| <= bufferLength && |d2| <= bufferLength
    ensures var end := SendFrame(SendFrame(t, d1).0, d2).0;
      var u := Tape(end.bytes, t.pos);
      u.Valid() && 4 <= u.Remaining() && PayloadAvailable(u, bufferLength) &&
      ReceiveFrame(u, bufferLength).1 == Ok(d1) &&
      var v := ReceiveFrame(u, bufferLength).0;
      4 <= v.Remaining() && PayloadAvailable(v, bufferLength) &&
      ReceiveFrame(v, bufferLength).0 == end && ReceiveFrame(v, bufferLength).1 == Ok(d2)
  {
    SendTwo(t, d1, d2);
    var end := SendFrame(SendFrame(t, d1).0, d2).0;
    ReceiveTwo(Tape(end.bytes, t.pos), d1, d2, bufferLength);
  }

  /** A payload that arrives altered in a way its CRC shows is refused with `ChecksumError`. */
  lemma ReceiveCorrupted(t: Tape, d: seq<byte>, e: seq<byte>, bufferLength: nat)
    requires t.Valid() && |d| <= MAX_MESSAGE_SIZE && 4 + |d| <= t.Remaining()
    requires t.Peek(4 + |d|) == Header(d) + e && |e| == |d| <= bufferLength
    requires Crc(e) != Crc(d)
    ensures PayloadAvailable(t, bufferLength)
    ensures ReceiveFrame(t, bufferLength).0 == t.Skip(4 + |d|) && ReceiveFrame(t, bufferLength).1 == Err(ChecksumError)
  {
    assert t.Peek(4) == Header(d) && t.Skip(4).Peek(|d|) == e by {
      PeekSplit(t, 4, 4 + |d|);
      assert (Header(d) + e)[..4] == Header(d) && (Header(d) + e)[4..] == e;
    }
    assert HeaderLength(t) == |d| && HeaderCrc(t) == Crc(d) by {
      HeaderFields(d);
    }
    ReceiveFrameRejects(t, bufferLength, e);
  }

  // ---------------------------------------------------------------------
  // The underlying transport and the framed transport

  /** Two series of one write each that exactly fill a buffer leave it holding both. */
  lemma FillTwo(z: seq<byte>, a: seq<byte>, b: seq<byte>)
    requires |z| == |a| + |b|
    ensures PutAll(PutAll(Tape(z, 0), [a]).0, [b]).0.bytes == a + b
  {
    PutAllOne(Tape(z, 0), a);
    PutAllOne(Tape(z, 0).Put(a).0, b);
    SpliceSplice(z, 0, a, b);
    assert Splice(z, 0, a + b) == a + b;
  }

  /** `write_all` of a cursor: its `write`, with the error passed on. */
  method WriteAll(c: SliceCursor, data: seq<byte>) returns (r: Result<(), CursorError>)
    requires c.Valid()
    modifies c, c.buffer.arr
    ensures c.Valid() && c.View() == old(c.View()).Put(data).0 && r.Ok? == old(c.View()).Put(data).1
    ensures r.Err? ==> r.error == InsufficientBuffer
  {
    r := c.Write(data);
  }

  /** `read_exact` of a cursor: its `read`, which fills all of dest or panics. */
  method ReadExact(c: SliceCursor, dest: Slice) returns (r: Result<(), CursorError>)
    requires c.Valid() && dest.Valid() && Disjoint(dest, c.buffer) && dest.Len() <= c.Remaining()
    modifies c, dest.arr
    ensures c.Valid() && c.View() == old(c.View()).Skip(dest.Len())
    ensures dest.arr[..] == Splice(old(dest.arr[..]), dest.lo, old(c.View()).Peek(dest.Len()))
    ensures c.buffer.Bytes() == old(c.buffer.Bytes())
    ensures r == Ok(())
  {
    var read := c.Read(dest);
    r := Ok(());
  }

  /** The two `u16` writes of the header fill a four-byte buffer with their bytes. */
  lemma HeaderWrites(z: seq<byte>, length: u16, crc: u16)
    requires |z| == 4
    ensures var t1 := PutAll(Tape(z, 0), Parts(U16(length))).0;
      PutAll(t1, Parts(U16(crc))).0.bytes == LeBytes(length, 2) + LeBytes(crc, 2)
  {
    assert Parts(U16(length)) == [LeBytes(length, 2)] && Parts(U16(crc)) == [LeBytes(crc, 2)];
    FillTwo(z, LeBytes(length, 2), LeBytes(crc, 2));
  }

  /**
   * The header step of `send`: a codec over a local four-byte array writes
   * the length and then the CRC.
   */
  method EncodeHeader(length: u16, crc: u16) returns (header: seq<byte>)
    ensures header == LeBytes(length, 2) + LeBytes(crc, 2)
  {
    var buffer := new byte[4];
    var cursor := new SliceCursor.New(Whole(buffer));
    var codec := new BasicCodec.New(cursor);
    ghost var z := buffer[..];
    assert cursor.View() == Tape(z, 0);
    var w := codec.WriteU16(length);
    w := codec.WriteU16(crc);
    HeaderWrites(z, length, crc);
    assert buffer[..] == cursor.View().bytes;
    header := buffer[..];
  }

  /**
   * The header step of `receive`: `read_exact` of four bytes into a local
   * array, then a codec over that array reads the length and the CRC.
   */
  method ReadHeader(c: SliceCursor) returns (length: nat, checksum: nat)
    requires c.Valid() && 4 <= c.Remaining()
    modifies c
    ensures c.Valid() && c.View() == old(c.View()).Skip(4)
    ensures length == HeaderLength(old(c.View())) && checksum == HeaderCrc(old(c.View()))
  {
    ghost var t := c.View();
    var header := new byte[4];
    var e := ReadExact(c, Whole(header));
    assert header[..] == t.Peek(4);
    var cursor := new SliceCursor.New(Whole(header));
    var codec := new BasicCodec.New(cursor);
    assert cursor.View().Peek(2) == t.Peek(4)[..2] && cursor.View().Skip(2).Peek(2) == t.Peek(4)[2..] by {
      assert cursor.View().Peek(4) == header[..];
      PeekSplit(cursor.View(), 2, 4);
    }
    var l := codec.ReadU16();
    var k := codec.ReadU16();
    length, checksum := l.value, k.value;
  }

  /** `BasicFramedTransport` over a cursor. */
  class BasicFramedTransport {
    const underlying: SliceCursor

    constructor New(underlying: SliceCursor)
      ensures this.underlying == underlying
    {
      this.underlying := underlying;
    }

    /** `release`: the underlying cursor, where the transport left it. */
    function Release(): (c: SliceCursor)
      reads this
      ensures c == underlying
    {
      underlying
    }

    /** `get_max_message_size`. */
    function GetMaxMessageSize(): (n: nat)
      ensures n == MAX_MESSAGE_SIZE && n + 1 == Pow256(2)
    {
      Pow256Widths();
      MAX_MESSAGE_SIZE
    }

    /** `send`: the frame of data, header then payload, onto the underlying cursor. */
    method Send(data: seq<byte>) returns (r: Result<(), FramedTransportError>)
      requires underlying.Valid()
      modifies underlying, underlying.buffer.arr
      ensures underlying.Valid()
      ensures underlying.View() == SendFrame(old(underlying.View()), data).0
      ensures r == SendFrame(old(underlying.View()), data).1
    {
      if |data| > GetMaxMessageSize() {
        return Err(DataTooLong);
      }
      ghost var t := underlying.View();
      var checksum := ChecksumCrc16(data);
      var header := EncodeHeader(|data|, Widen(checksum));
      assert header == Header(data);
      var e := WriteAll(underlying, header);
      if e.Err? {
        assert underlying.View() == t;
        return Err(UnderlyingError(e.error));
      }
      ghost var t1 := underlying.View();
      assert t1 == t.Put(Header(data)).0;
      e := WriteAll(underlying, data);
      if e.Err? {
        assert underlying.View() == t1;
        return Err(UnderlyingError(e.error));
      }
      r := Ok(());
    }

    /**
     * `receive`: the next frame from the underlying cursor, its payload
     * read into the front of buffer. The header read and the payload read
     * both need the bytes to be there.
     */
    method Receive(buffer: Slice) returns (r: Result<seq<byte>, FramedTransportError>)
      requires underlying.Valid() && buffer.Valid() && Disjoint(buffer, underlying.buffer)
      requires 4 <= underlying.Remaining() && PayloadAvailable(underlying.View(), buffer.Len())
      modifies underlying, buffer.arr
      ensures underlying.Valid() && underlying.buffer.Bytes() == old(underlying.buffer.Bytes())
      ensures underlying.View() == ReceiveFrame(old(underlying.View()), buffer.Len()).0
      ensures r == ReceiveFrame(old(underlying.View()), buffer.Len()).1
      ensures var length := HeaderLength(old(underlying.View()));
        if length <= buffer.Len() then
          buffer.arr[..] == Splice(old(buffer.arr[..]), buffer.lo, old(underlying.View()).Skip(4).Peek(length))
        else
          buffer.arr[..] == old(buffer.arr[..])
      ensures r.Ok? ==> r.value == buffer.arr[buffer.lo..buffer.lo + |r.value|]
    {
      ghost var t := underlying.View();
      var length, checksum := ReadHeader(underlying);
      ReceiveNeverInvalidHeader(t, buffer.Len());
      if length > GetMaxMessageSize() {
        assert false;
      }
      if buffer.Len() < length {
        ReceiveFrameRefuses(t, buffer.Len());
        return Err(BufferTooShort);
      }
      var part := buffer.Sub(0, length);
      var e := ReadExact(underlying, part);
      var payload := part.Bytes();
      assert payload == t.Skip(4).Peek(length);
      var calculated := ChecksumCrc16(payload);
      if Widen(calculated) != checksum {
        ReceiveFrameRejects(t, buffer.Len(), payload);
        return Err(ChecksumError);
      }
      ReceiveFrameAccepts(t, buffer.Len(), payload);
      r := Ok(payload);
    }
  }
}
