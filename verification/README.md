# rust-erpc byte stack, modelled in Dafny

This project models the four layers of the allocation-free eRPC stack of
rust-erpc and proves properties about each:

- **Cursor** (`cursor.dfy`). A position over a byte buffer.
  - `SliceCursor` advances its position on every read and write.
  - `BufferCursor` delegates each call to a temporary `SliceCursor` and
    keeps its own position, which therefore never moves
    (src/cursor.rs:41-48).
  - Writes are all-or-nothing. A read of more bytes than remain panics in
    `copy_from_slice` (src/cursor.rs:79-80), so the model makes it a
    precondition.
- **Codec** (`codec.dfy`, `bytes.dfy`, `utf8.dfy`).
  - `BasicCodec` over a `SliceCursor` writes and reads little-endian
    scalars, length-prefixed binaries and strings, list and union
    prefixes, null flags, callback indices and the 8-byte message header.
  - Every write is specified by the cursor writes it makes (`PutAll`).
    Every read is specified by a pure decoder (`Decode`, `DecodeHeader`).
  - The round trips between the two are proved value by value.
- **Framed transport** (`framed_transport.dfy`, `crc16.dfy`).
  - A frame is `[length u16 LE][crc u16 LE][payload]`.
  - The CRC-16 uses polynomial 0x1021 (ITU-T Recommendation V.41),
    initial value 0xEF4A and a 256-entry table.
  - `BasicFramedTransport` runs over a `SliceCursor`. Its send and
    receive are proved against the pure `SendFrame`/`ReceiveFrame`, which
    carry the error rules and the in-memory round trip.
- **Request/response** (`request.dfy`, `message_type.dfy`).
  - A message is the codec header followed by a body, composed in a frame
    buffer and sent as one frame.
  - The body is what the caller's constructor writes: a list of steps,
    each a value, a callback or an error of the constructor's own.
  - Received frames are classified into requests and responses.

Integers are unbounded `int`s restricted to each width's range. The
source's truncations (`as u32`, `as u8`, `& 0xff`) are written out as
`%`. CRC registers are `bv16`, so the source's `u16` shifts wrap as
written.

## Model

| member | source | states |
|---|---|---|
| Bytes.LeValueOfLeBytes | src/codec.rs:96-114 | decoding the k-byte little-endian image of any value below 256^k gives that value back |
| Bytes.LeBytesOfLeValue | src/codec.rs:105-114 | re-encoding the value of any byte sequence gives the same sequence |
| Bytes.ToTwos | src/codec.rs:150-156 | the unsigned k-byte pattern of a signed value: itself if non-negative, plus 256^k if negative; `FromTwos` inverts it |
| Bytes.FromTwos | src/codec.rs:210-216 | the signed value of a k-byte pattern lies in the signed range of k bytes |
| MessageTypes.FromU32 | src/codec.rs:257 | `from_u32` yields a type exactly for 0..3, and that type's discriminant is the argument |
| MessageTypes.FromCode | src/request.rs:7-14 | converting a type to its discriminant and back gives the type |
| MessageTypes.CodeInjective | src/request.rs:7-14 | distinct message types have distinct discriminants |
| Utf8.AsciiWellFormed | src/codec.rs:221-225 | `from_utf8` accepts every ASCII text |
| Utf8.ConcatWellFormed | src/codec.rs:221-225 | the concatenation of two accepted texts is accepted |
| Utf8.LoneTailIllFormed | src/codec.rs:223 | a lone continuation byte is rejected |
| Crc16.ComputeTable | src/framed_transport.rs:27-39 | the eight-round loop from 0, with the index in the high byte, computes `TableEntry(index, poly)` |
| Crc16.BuildTable | src/framed_transport.rs:9-17 | the initialisation loop fills all 256 entries with `compute_table(i, poly)` |
| Crc16.Checksum | src/framed_transport.rs:19-25 | the checksum of the empty payload is 0xEF4A |
| Crc16.ChecksumCrc16 | src/framed_transport.rs:19-25 | the table-driven loop computes the left fold of `(crc << 8) ^ T[((crc >> 8) ^ b) & 0xff]` from 0xEF4A |
| Crc16.FoldAppend | src/framed_transport.rs:19-25 | folding over a ++ b continues the fold of a over b |
| Crc16.ChecksumAppend | src/framed_transport.rs:19-25 | `checksum(a ++ b)` is the fold over b started from `checksum(a)` |
| Cursor.CopyInto | src/cursor.rs:80 | `copy_from_slice` replaces exactly the bytes at..at+\|d\| of the array with d |
| Cursor.SpliceSplice | src/cursor.rs:84-95 | two adjacent writes leave the same bytes as one write of their concatenation |
| Cursor.PutThenPeek | src/cursor.rs:77-95 | a write that fits succeeds, advances by its length, and is read back from where it started |
| Cursor.PutTwo | src/cursor.rs:84-95 | two writes that fit both succeed and are read back one after the other |
| Cursor.PutTooLong | src/cursor.rs:86-89 | a write longer than what remains fails and changes nothing |
| Cursor.SliceCursor.New | src/cursor.rs:59-61 | a cursor at position 0 over the given slice, invariant established |
| Cursor.SliceCursor.NewWithPosition | src/cursor.rs:62-67 | a cursor at the given position; the position must not pass the end, as every later call assumes |
| Cursor.SliceCursor.Reset | src/cursor.rs:68-70 | position back to 0, invariant kept |
| Cursor.SliceCursor.GetPosition | src/cursor.rs:71-73 | the position, which plus what remains is the slice length |
| Cursor.SliceCursor.Read | src/cursor.rs:77-83 | dest holds the next \|dest\| bytes, the rest of its array is unchanged, the position advances by \|dest\|, the cursor's bytes are unchanged, and all of dest is returned |
| Cursor.SliceCursor.Write | src/cursor.rs:84-95 | too long: `InsufficientBuffer`, with bytes and position unchanged; otherwise the data is spliced in at the position, nothing else changes, and the position advances by \|data\| |
| Cursor.BufferCursor.New | src/cursor.rs:22-27 | a cursor at position 0 over the buffer |
| Cursor.BufferCursor.Release | src/cursor.rs:28-30 | hands back the very buffer it was made with |
| Cursor.BufferCursor.Reset | src/cursor.rs:31-33 | position back to 0 |
| Cursor.BufferCursor.GetPosition | src/cursor.rs:34-36 | the position, which plus what remains is the buffer length |
| Cursor.BufferCursor.Read | src/cursor.rs:41-44 | reads like a `SliceCursor` at the position, but the position stays where it was |
| Cursor.BufferCursor.Write | src/cursor.rs:45-48 | writes like a `SliceCursor` at the position, all or nothing, but the position stays where it was |
| Cursor.WriteThenReadBack | src/cursor.rs:59-95 | writing data from position 0, resetting, and reading \|data\| bytes back succeeds and returns data |
| Codec.PutAllIsPut | src/codec.rs:165-169 | a run of cursor writes all succeed iff their concatenation fits, and then they equal one write of it |
| Codec.PutAllAppend | src/codec.rs:199-207 | the writes of a ++ b are the writes of a, then, if all succeeded, those of b; a failure stops the run |
| Codec.StrOf | src/codec.rs:221-225 | a payload is a string exactly when it is well-formed UTF-8, otherwise `Utf8Error` |
| Codec.DecodeEncodeBool | src/codec.rs:271-278 | `read_bool` after `write_bool(b)` gives b and consumes the one byte written |
| Codec.DecodeEncodeU8 | src/codec.rs:149 | `read_u8` after `write_u8(x)` gives x and consumes 1 byte |
| Codec.DecodeEncodeI8 | src/codec.rs:150 | `read_i8` after `write_i8(x)` gives x, including -128 |
| Codec.DecodeEncodeU16 | src/codec.rs:151 | `read_u16` after `write_u16(x)` gives x and consumes 2 bytes |
| Codec.DecodeEncodeI16 | src/codec.rs:152 | `read_i16` after `write_i16(x)` gives x |
| Codec.DecodeEncodeU32 | src/codec.rs:153 | `read_u32` after `write_u32(x)` gives x and consumes 4 bytes |
| Codec.DecodeEncodeI32 | src/codec.rs:154 | `read_i32` after `write_i32(x)` gives x |
| Codec.DecodeEncodeU64 | src/codec.rs:155 | `read_u64` after `write_u64(x)` gives x and consumes 8 bytes |
| Codec.DecodeEncodeI64 | src/codec.rs:156 | `read_i64` after `write_i64(x)` gives x |
| Codec.DecodeEncodeF32 | src/codec.rs:157 | the 4-byte bit pattern of an `f32` reads back unchanged |
| Codec.DecodeEncodeF64 | src/codec.rs:158 | the 8-byte bit pattern of an `f64` reads back unchanged |
| Codec.DecodeEncodePtr | src/codec.rs:159 | an 8-byte pointer value reads back unchanged |
| Codec.DecodeEncodeStr | src/codec.rs:161-164 | `read_str` after `write_str(t)` reads t's bytes into the destination and gives the text, consuming 4 + \|t\| bytes |
| Codec.DecodeEncodeBinary | src/codec.rs:165-169 | `read_binary` after `write_binary(d)` gives d, any bytes included, consuming 4 + \|d\| bytes |
| Codec.DecodeEncodeListStart | src/codec.rs:170-172 | a list length below 2^32 reads back unchanged |
| Codec.DecodeEncodeUnionStart | src/codec.rs:173-175 | a union discriminator reads back unchanged |
| Codec.DecodeEncodeNullFlag | src/codec.rs:176-178 | `read_null_flag` after `write_null_flag(b)` gives b |
| Codec.DecodeEncode | src/codec.rs:149-178 | every value whose lengths fit a u32 reads back as itself, followed by anything, consuming exactly its encoding |
| Codec.ListLengthTruncated | src/codec.rs:170-172 | a list length of 2^32 or more reads back as its low 32 bits |
| Codec.HeaderWord | src/codec.rs:199-203 | the header word has version byte 1 on top, the type in bits 7:0, and the low bytes of service and request in bits 23:16 and 15:8 |
| Codec.DecodeHeader | src/codec.rs:254-269 | `InvalidMessageType` exactly when the type byte is 4 or more; otherwise the type, service from bits 23:16, request from bits 15:8, and the sequence word |
| Codec.HeaderRoundTrip | src/codec.rs:199-207 | reading a written header gives the type and sequence, with service and request reduced to their low bytes |
| Codec.HeaderRoundTripExact | src/codec.rs:254-269 | the header reads back exactly iff service and request are below 256 |
| Codec.VersionIgnored | src/codec.rs:254-269 | two header words that differ only in bits 31:24 decode alike |
| Codec.FirstIndex | src/codec.rs:191 | the first index holding the id, and none exactly when the id is absent |
| Codec.ChooseCallbackAsWritten | src/codec.rs:184-196 | with a non-empty table, the as-written choice never indexes out of bounds |
| Codec.EmptyCallbackTablePanics | src/codec.rs:184-185 | with an empty table, the as-written choice indexes element 0 out of bounds |
| Codec.ChooseCallback | src/codec.rs:190-196 | fails exactly when the id is absent; otherwise writes an index that holds the id, as a u8 |
| Codec.ChooseCallbackAgrees | src/codec.rs:179-197 | for every non-empty table, the as-written and corrected choices agree |
| Codec.CallbackOf | src/codec.rs:246-253 | `InvalidCallback` exactly when the index is past the table, otherwise the id there |
| Codec.CallbackRoundTrip | src/codec.rs:179-197 | for a table of at most 256 ids, reading back a written callback gives the id |
| Codec.BasicCodec.New | src/codec.rs:116-120 | a codec over the given cursor |
| Codec.BasicCodec.Detach | src/codec.rs:145-147 | hands back the codec's cursor |
| Codec.BasicCodec.Emit | src/codec.rs:96-103 | one cursor write of the bytes: an all-or-nothing write or `Cursor(InsufficientBuffer)` |
| Codec.BasicCodec.WriteU8 | src/codec.rs:149 | writes the 1-byte image of value at the position, or fails with nothing written |
| Codec.BasicCodec.WriteI8 | src/codec.rs:150 | writes the two's-complement byte of value |
| Codec.BasicCodec.WriteU16 | src/codec.rs:151 | writes the 2 little-endian bytes of value |
| Codec.BasicCodec.WriteI16 | src/codec.rs:152 | writes the 2 little-endian bytes of value's two's complement |
| Codec.BasicCodec.WriteU32 | src/codec.rs:153 | writes the 4 little-endian bytes of value |
| Codec.BasicCodec.WriteI32 | src/codec.rs:154 | writes the 4 little-endian bytes of value's two's complement |
| Codec.BasicCodec.WriteU64 | src/codec.rs:155 | writes the 8 little-endian bytes of value |
| Codec.BasicCodec.WriteI64 | src/codec.rs:156 | writes the 8 little-endian bytes of value's two's complement |
| Codec.BasicCodec.WriteF32 | src/codec.rs:157 | writes the 4 little-endian bytes of the bit pattern |
| Codec.BasicCodec.WriteF64 | src/codec.rs:158 | writes the 8 little-endian bytes of the bit pattern |
| Codec.BasicCodec.WritePtr | src/codec.rs:159 | writes the 8 little-endian bytes of the pointer |
| Codec.BasicCodec.WriteStr | src/codec.rs:161-164 | writes the string's bytes exactly as `write_binary` would |
| Codec.BasicCodec.WriteBinary | src/codec.rs:165-169 | two writes: the length as a truncated u32, then the data; when only the first fits, its 4 bytes stay written |
| Codec.BasicCodec.StartWriteList | src/codec.rs:170-172 | writes the length as a truncated u32 |
| Codec.BasicCodec.StartWriteUnion | src/codec.rs:173-175 | writes the discriminator as an i32 |
| Codec.BasicCodec.WriteNullFlag | src/codec.rs:176-178 | writes one byte, 1 for null and 0 otherwise |
| Codec.BasicCodec.WriteBool | src/codec.rs:271-273 | writes one byte, 1 for true and 0 for false |
| Codec.BasicCodec.WriteCallback | src/codec.rs:179-197 | an id in the table: writes its first index as a u8; an absent id: `InvalidCallback`, with nothing written |
| Codec.BasicCodec.StartWriteMessage | src/codec.rs:199-207 | two writes: the packed header word, then the sequence, each a little-endian u32 |
| Codec.BasicCodec.WriteValue | src/codec.rs:149-178 | writes any value as its own write method does |
| Codec.BasicCodec.Take | src/codec.rs:105-114 | consumes and returns exactly the next n bytes |
| Codec.BasicCodec.ReadU8 | src/codec.rs:209 | consumes 1 byte and gives its value |
| Codec.BasicCodec.ReadI8 | src/codec.rs:210 | consumes 1 byte and gives its signed value |
| Codec.BasicCodec.ReadU16 | src/codec.rs:211 | consumes 2 bytes and gives their little-endian value |
| Codec.BasicCodec.ReadI16 | src/codec.rs:212 | consumes 2 bytes and gives their signed little-endian value |
| Codec.BasicCodec.ReadU32 | src/codec.rs:213 | consumes 4 bytes and gives their little-endian value |
| Codec.BasicCodec.ReadI32 | src/codec.rs:214 | consumes 4 bytes and gives their signed little-endian value |
| Codec.BasicCodec.ReadU64 | src/codec.rs:215 | consumes 8 bytes and gives their little-endian value |
| Codec.BasicCodec.ReadI64 | src/codec.rs:216 | consumes 8 bytes and gives their signed little-endian value |
| Codec.BasicCodec.ReadF32 | src/codec.rs:217 | consumes 4 bytes and gives their bit pattern |
| Codec.BasicCodec.ReadF64 | src/codec.rs:218 | consumes 8 bytes and gives their bit pattern |
| Codec.BasicCodec.ReadPtr | src/codec.rs:219 | consumes 8 bytes and gives their little-endian value |
| Codec.BasicCodec.ReadStr | src/codec.rs:221-225 | consumes the prefix and payload, copies the payload to the destination, and gives it if well-formed UTF-8, else `Utf8Error` |
| Codec.BasicCodec.ReadBinary | src/codec.rs:226-233 | consumes the length prefix and that many bytes, copies them to the start of the destination, and returns them |
| Codec.BasicCodec.StartReadList | src/codec.rs:235-238 | consumes 4 bytes and gives their value as the length |
| Codec.BasicCodec.StartReadUnion | src/codec.rs:239-241 | consumes 4 bytes and gives them as an i32 |
| Codec.BasicCodec.ReadNullFlag | src/codec.rs:242-245 | consumes 1 byte and gives byte != 0 |
| Codec.BasicCodec.ReadBool | src/codec.rs:275-278 | consumes 1 byte and gives byte != 0 |
| Codec.BasicCodec.ReadCallback | src/codec.rs:246-253 | consumes 1 byte; `InvalidCallback` if it is past the table, otherwise the id at that index |
| Codec.BasicCodec.StartReadMessage | src/codec.rs:254-269 | always consumes both words, then decodes them with `DecodeHeader` |
| Codec.BasicCodec.ReadValue | src/codec.rs:209-245 | reads a value of any kind, as `Decode` says, consuming what `Decode` counts |
| Codec.WriteAtStart | src/codec.rs:286-322 | a value written at the start of a buffer by a fresh codec succeeds, and the buffer then starts with its encoding |
| Codec.ReadAtStart | src/codec.rs:323-363 | a fresh codec over a buffer that starts with a value's encoding reads that value |
| Codec.WriteThenReadValue | src/codec.rs:284-365 | one codec writes a value and another over the same buffer reads it back |
| FramedTransport.HeaderFields | src/framed_transport.rs:96-103 | the frame header holds the payload length, then its CRC, each a little-endian u16 |
| FramedTransport.SendFrameOk | src/framed_transport.rs:90-107 | a send succeeds iff the payload is at most 65535 bytes and header plus payload fit; it then writes exactly header ++ payload |
| FramedTransport.SendFrameErrors | src/framed_transport.rs:90-107 | too long: `DataTooLong`, nothing written; header does not fit: `UnderlyingError(InsufficientBuffer)`, nothing written; payload does not fit: the same error, with the header committed |
| FramedTransport.ReceiveNeverInvalidHeader | src/framed_transport.rs:118-123 | a length decoded from a u16 is at most 65535, so `InvalidHeader` is never returned |
| FramedTransport.ReceiveFrameRefuses | src/framed_transport.rs:124-126 | a frame longer than the buffer gives `BufferTooShort` after consuming exactly the 4 header bytes |
| FramedTransport.ReceiveFrameAccepts | src/framed_transport.rs:127-133 | a payload whose CRC matches the header is returned, and the frame is consumed |
| FramedTransport.ReceiveFrameRejects | src/framed_transport.rs:127-133 | a payload whose CRC differs from the header's gives `ChecksumError`, with the frame consumed |
| FramedTransport.ReceiveFrameOf | src/framed_transport.rs:109-134 | a well-formed frame of d, with a buffer of at least \|d\| bytes, is received as d |
| FramedTransport.ReceiveFrameTooShort | src/framed_transport.rs:243-250 | the header of a payload longer than the buffer gives `BufferTooShort` |
| FramedTransport.SendThenReceive | src/framed_transport.rs:137-147 | over a cursor, a sent payload is received back from where the send started, ending where the send ended |
| FramedTransport.SendTwo | src/framed_transport.rs:214-216 | two successful sends lay their frames back to back |
| FramedTransport.ReceiveTwo | src/framed_transport.rs:234-239 | two frames back to back are received one after the other |
| FramedTransport.FramesInOrder | src/framed_transport.rs:214-239 | two sent payloads come back in send order, ending where the sends ended |
| FramedTransport.ReceiveCorrupted | src/framed_transport.rs:252-262 | a payload altered so that its CRC changes gives `ChecksumError` |
| FramedTransport.HeaderWrites | src/framed_transport.rs:97-103 | two u16 writes into the 4-byte header give the length bytes then the CRC bytes |
| FramedTransport.WriteAll | src/framed_transport.rs:143-146 | `write_all` over a cursor is one all-or-nothing cursor write |
| FramedTransport.ReadExact | src/framed_transport.rs:139-142 | `read_exact` over a cursor fills dest with the next bytes and consumes them |
| FramedTransport.EncodeHeader | src/framed_transport.rs:97-103 | the header the send builds is the length bytes then the CRC bytes |
| FramedTransport.ReadHeader | src/framed_transport.rs:113-119 | consumes 4 bytes and gives the length and CRC they hold |
| FramedTransport.BasicFramedTransport.New | src/framed_transport.rs:75-77 | a transport over the given cursor |
| FramedTransport.BasicFramedTransport.Release | src/framed_transport.rs:78-80 | hands back the underlying cursor |
| FramedTransport.BasicFramedTransport.GetMaxMessageSize | src/framed_transport.rs:86-88 | 65535, the largest u16 |
| FramedTransport.BasicFramedTransport.Send | src/framed_transport.rs:90-107 | the new cursor state and the result are those of `SendFrame` |
| FramedTransport.BasicFramedTransport.Receive | src/framed_transport.rs:109-134 | the new cursor state and result are those of `ReceiveFrame`; the payload is copied to the buffer only when it fits, and an Ok result is that part of the buffer |
| Request.FromTransport | src/request.rs:29-35 | a transport error becomes `FramedTransportError` of the same error; success stays success |
| Request.StepWrites | src/request.rs:56 | a constructor step fails before writing exactly when it is the constructor's own error (that error) or a callback absent from its table (`InvalidCallback`); a present callback writes an index that holds its id |
| Request.PutAllAt | src/cursor.rs:45-48 | writes through a `BufferCursor` keep the position, and all succeed iff each fits on its own |
| Request.PutAllAtLast | src/cursor.rs:45-48 | when all fit, the bytes at the position are the last write |
| Request.PutAllAtAppend | src/cursor.rs:45-48 | the `BufferCursor` writes of a ++ b are those of a, then, if all fitted, those of b |
| Request.WritesAppend | src/cursor.rs:41-48 | the same splitting holds for both cursor kinds |
| Request.RunBody | src/request.rs:56 | the constructor's result is `Cursor(InsufficientBuffer)` or the error of one of its steps; when it succeeds every step wrote; a `BufferCursor` keeps its position |
| Request.RunBodyAppend | src/request.rs:56 | running a ++ b runs a, then b only if a ended well |
| Request.RunValues | src/request.rs:56 | a constructor of plain values makes exactly their writes, and fails only with `Cursor(InsufficientBuffer)` |
| Request.Composed | src/request.rs:51-57 | header then body on the frame buffer; through a `BufferCursor` the position stays at 0 |
| Request.Compose | src/request.rs:51-59 | composing fails with `Cursor(InsufficientBuffer)` or with the error of one of the body's steps, and succeeds only if every step wrote |
| Request.ComposeStopsAt | src/request.rs:55-56 | after steps that ended well, a failing step's own error is the one returned, whatever follows, and the buffer keeps what came before it |
| Request.ComposedValues | src/request.rs:51-57 | a message of values is composed by the writes of the header's and the values' parts |
| Request.ComposedAtStart | src/request.rs:51-57 | through a `BufferCursor`, a message of values is written iff each write fits on its own, and the buffer then starts with the last write |
| Request.MessageLayout | src/request.rs:51-59 | a message is the header word, then the sequence, then the body's encoding |
| Request.ComposeEncodes | src/request.rs:51-60 | composing a message of values succeeds iff it fits the frame buffer, and gives exactly the message bytes |
| Request.RequestHeader | src/request.rs:112-121 | type Oneway iff `is_oneway`, else Invocation; service, request and sequence copied |
| Request.ResponseHeader | src/request.rs:187-196 | type Notification iff `is_notification`, else Reply; service, request and sequence copied |
| Request.AsRequest | src/request.rs:141-153 | Invocation gives `is_oneway` false, Oneway gives true, the others give `InvalidRequest`; fields copied |
| Request.AsResponse | src/request.rs:215-227 | Notification gives `is_notification` true, Reply gives false, the others give `InvalidResponse`; fields copied |
| Request.RequestOrResponse | src/request.rs:141-153 | every header is accepted as exactly one of a request and a response |
| Request.RequestHeaderClassifies | src/request.rs:112-153 | the header of a request is classified back as that request |
| Request.ResponseHeaderClassifies | src/request.rs:187-227 | the header of a response is classified back as that response |
| Request.HeadersDoNotCross | src/request.rs:141-153 | a request's header is not a response, and a response's header is not a request |
| Request.WriteBody | src/request.rs:56 | running the constructor on the codec leaves its cursor and gives its result as `RunBody` does |
| Request.SendMessage | src/request.rs:37-62 | the frame buffer holds what `Composed` writes; any codec error, the constructor's own included, is returned with nothing sent; otherwise exactly the composed prefix is sent |
| Request.SendRequest | src/request.rs:98-129 | `SendMessage` with the request's header: the same frame buffer contents, errors and frame |
| Request.SendResponse | src/request.rs:173-204 | `SendMessage` with the response's header: the same frame buffer contents, errors and frame |
| Request.WriteEach | src/request.rs:55-56 | writes through a `BufferCursor`: the buffer as `PutAllAt` leaves it, the position unchanged, and success iff each part fits on its own |
| Request.WriteBodyAt | src/request.rs:56 | the constructor run through a `BufferCursor`: buffer and result as `RunBody` gives them, the position unchanged |
| Request.SendMessageAsWritten | src/request.rs:51-60 | through a `BufferCursor`, the frame buffer holds every write made at offset 0; a codec error is returned with nothing sent; otherwise an empty frame is sent |
| Request.OpenMessage | src/request.rs:74-78 | a transport error is passed on; a received message gives its header, or the header's codec error |
| Request.OpenCodec | src/request.rs:75-77 | a codec over exactly the received bytes, positioned after the header, and the header it read |
| Request.ReceiveMessage | src/request.rs:64-79 | receives one frame and gives its header and a codec positioned on its body, or the first error; the buffer holds the payload at its start when it fits, and is unchanged otherwise, as `receive` leaves it |
| Request.ReceiveRequest | src/request.rs:131-154 | `ReceiveMessage`, then classification as a request, with the same buffer contents |
| Request.ReceiveResponse | src/request.rs:205-228 | `ReceiveMessage`, then classification as a response, with the same buffer contents |
| Request.MessageHeaderRoundTrip | src/request.rs:51-78 | a composed message's header reads back, with service and request reduced to their low bytes |
| Request.HeaderReadsBack | src/request.rs:51-78 | with service and request below 256, the header reads back exactly |
| Request.Delivered | src/request.rs:60-74 | a sent message is received whole from where its send started |
| Request.MessageRoundTrip | src/request.rs:37-79 | a sent message is received whole and opens with its own header |
| Request.RequestRoundTrip | src/request.rs:98-154 | a sent request is received as the same request, and its body follows the header |
| Request.ResponseRoundTrip | src/request.rs:173-228 | a sent response is received as the same response, and its body follows the header |
| Request.DeliveredInOrder | src/request.rs:260-317 | two messages sent in a row are received in order |
| Request.RequestThenResponse | src/request.rs:260-317 | a request then a response, sent in a row, are received in that order as themselves |
| Request.StartReadMessageAsWritten | src/request.rs:74-77 | through a `BufferCursor`, `start_read_message` reads the header word twice, so the sequence is the header word |
| Request.SequenceMisread | src/request.rs:290-297 | for the test's request (1, 2, 0, not oneway) the as-written sequence is 0x01010200, not 0 |
| Request.Counting | src/request.rs:251-258 | the test data: byte i is `i & 0xff` |
| Request.BinaryBody | src/codec.rs:165-169 | a one-binary body is its length prefix and its bytes, and reads back as the binary |
| Request.SendBoth | src/request.rs:260-279 | the request and then the response are sent, one frame each; the frame buffer then starts with the response |
| Request.SendExchange | src/request.rs:260-283 | the test's first block: both sends succeed, and the buffer holds both frames |
| Request.OpenReceiver | src/request.rs:286-288 | a transport reading the buffer from its start |
| Request.ReceiveBinaryRequest | src/request.rs:290-302 | receives the request and reads its binary body into a buffer of its length; the receive buffer as `receive` leaves it |
| Request.ReceiveBinaryResponse | src/request.rs:304-316 | receives the response and reads its binary body into a buffer of its length; the receive buffer as `receive` leaves it |
| Request.ReceiveExchange | src/request.rs:285-317 | the test's second block: the request and the response, with their bodies, come back in order, and the receiver ends after both frames |
| Request.ExchangeOf | src/request.rs:250-319 | for any request and response whose service and request fit a byte, and any body of at most 244 bytes, both messages come back intact and in order |
| Request.Exchange | src/request.rs:250-319 | the test's values: request (1, 2, 0, false), response (4, 5, 0, false) and the 16 bytes 0..15 each come back |

## Left out

- `IoTransport` over `std::io` (src/framed_transport.rs:149-175) is not modelled. It is foreign I/O. The transport is modelled over a `SliceCursor`, as in the tests.
- The generic `UnderlyingTransport` is not modelled. `BasicFramedTransport` is fixed to a `SliceCursor` underneath.
- Floats are modelled as their 4- and 8-byte bit patterns. The NaN and infinity checks of the codec test are floating-point semantics.
- `usize` (`write_ptr`, `read_ptr`) is fixed at 8 bytes.
- UTF-8 validation is modelled as the syntax of section 4 of RFC 3629, without `Utf8Error`'s position details.
- `lazy_static` initialisation of `CRC16_TABLE` is not modelled. The table is the pure `Table(CRC16_POLY)`, and its loop is `BuildTable`.
- The `CodecFactory`/`BasicCodecFactory` plumbing, the `From` wrappers and the derives are not modelled. The codec is built directly.
- The body constructor of `send_message` (src/request.rs:56) is modelled as a list of steps: value writes, callback writes, and an error of the constructor's own that ends the body. A constructor that chooses its next write from what it has already done is not modelled.
- Codec.BasicCodec.WriteCallback, Request.SendMessageAsWritten and Request.WriteBodyAt decide a callback with the corrected `ChooseCallback`, so an empty callback table there gives `InvalidCallback` rather than the panic of the third finding.
- Panics become preconditions: short cursor reads, `read_binary`/`read_str` into a buffer shorter than the length prefix, and a received frame longer than what remains in the underlying cursor, and a received message shorter than the 8-byte header.
- Cursor.SliceCursor.NewWithPosition: requires the position to lie within the slice. The source does not check it, and its later reads and writes panic past the end.
- Request.SendMessage, Request.ReceiveMessage and the request and response methods built on them model the `SliceCursor` behaviour of the codec's cursor. Over the source's `BufferCursor` they behave as the Findings below describe.
- FramedTransport.ReceiveCorrupted is stated for any payload whose CRC differs. That the test's single inverted byte changes the CRC is not proved.
- Crc16.ComputeTable is proved equal to the eight-round definition. Its equivalence with polynomial division is not proved.
- The basic_codec_read_write test is modelled value by value (`Codec.WriteThenReadValue`), not as its one long sequence.

## Findings

| source | as written | input that shows it | evidently intended | confidence | as-written member | corrected member |
|---|---|---|---|---|---|---|
| src/request.rs:51-60 with src/cursor.rs:41-48 | `send_message` composes through a `BufferCursor`, whose position never moves, so every write lands at offset 0 and `get_position()` is 0 | the test's request (1, 2, 0, false) with a 16-byte body: the sent frame is empty | send the header and body written one after another, `buffer[0..8 + body length]` | not executed | Request.SendMessageAsWritten | Request.SendMessage |
| src/request.rs:74-77 with src/cursor.rs:41-44 | `receive_message` decodes through a `BufferCursor`, so both header words are read at offset 0 and the codec stays before the header | the test's request header in a correctly framed message: the sequence reads as 0x01010200 instead of 0. In the test as written the first finding makes the received frame empty, so `receive_message` panics on its first read before this shows | read the header word, then the sequence, and leave the codec at the body | not executed | Request.StartReadMessageAsWritten, Request.SequenceMisread | Request.ReceiveMessage |
| src/codec.rs:184-185 | the `is_empty()` branch of `write_callback` indexes `callback_ids[0]`, which an empty table does not have | an empty callback table: index 0 out of bounds, a panic | look the id up in the table, and return `InvalidCallback` when it is absent | not executed | Codec.ChooseCallbackAsWritten, Codec.EmptyCallbackTablePanics | Codec.ChooseCallback |
