/**
 * The basic codec (src/codec.rs): little-endian scalars, length-prefixed
 * binaries and strings, list and union prefixes, null flags, callback
 * indices and the 8-byte message header, written to and read from a
 * `SliceCursor`.
 */
module Codec {
  import opened Results
  import opened Bytes
  import opened Cursor
  import opened MessageTypes
  import Utf8

  /** `CodecError`. The UTF-8 error carries no detail here. */
  datatype CodecError = InvalidCallback | InvalidMessageType | Cursor(cursorError: CursorError) | Utf8Error

  /** `MessageHeader`. */
  datatype MessageHeader = MessageHeader(messageType: MessageType, service: u32, request: u32, sequence: u32)

  // ---------------------------------------------------------------------
  // Sequential writes

  /**
   * A series of all-or-nothing writes that stops at the first one that
   * does not fit: the tape afterwards and whether every write succeeded.
   */
  function PutAll(t: Tape, parts: seq<seq<byte>>): (r: (Tape, bool))
    requires t.Valid()
    ensures r.0.Valid() && |r.0.bytes| == |t.bytes|
    decreases |parts|
  {
    if parts == [] then (t, true)
    else
      var (t1, ok) := t.Put(parts[0]);
      if ok then PutAll(t1, parts[1..]) else (t1, false)
  }

  function Flatten(parts: seq<seq<byte>>): seq<byte>
    decreases |parts|
  {
    if parts == [] then [] else parts[0] + Flatten(parts[1..])
  }

  lemma PutAllOne(t: Tape, d: seq<byte>)
    requires t.Valid()
    ensures PutAll(t, [d]) == t.Put(d)
  {
    assert [d][1..] == [];
  }

  lemma PutAllCons(t: Tape, p: seq<byte>, rest: seq<seq<byte>>)
    requires t.Valid()
    ensures PutAll(t, [p] + rest) == (if t.Put(p).1 then PutAll(t.Put(p).0, rest) else t.Put(p))
  {
    assert ([p] + rest)[0] == p;
    assert ([p] + rest)[1..] == rest;
  }

  /**
   * A series of writes succeeds exactly when all of its bytes fit, and
   * then it has the effect of one write of their concatenation.
   */
  lemma {:induction false} PutAllIsPut(t: Tape, parts: seq<seq<byte>>)
    requires t.Valid()
    ensures PutAll(t, parts).1 <==> |Flatten(parts)| <= t.Remaining()
    ensures PutAll(t, parts).1 ==> PutAll(t, parts).0 == t.Put(Flatten(parts)).0
    decreases |parts|
  {
    if parts != [] {
      var p := parts[0];
      if |p| <= t.Remaining() {
        var t1 := t.Put(p).0;
        PutAllIsPut(t1, parts[1..]);
        if |Flatten(parts[1..])| <= t1.Remaining() {
          SpliceSplice(t.bytes, t.pos, p, Flatten(parts[1..]));
        }
      }
    }
  }

  /** Two series of writes one after the other are one series. */
  lemma {:induction false} PutAllAppend(t: Tape, a: seq<seq<byte>>, b: seq<seq<byte>>)
    requires t.Valid()
    ensures PutAll(t, a + b) ==
      (if PutAll(t, a).1 then PutAll(PutAll(t, a).0, b) else PutAll(t, a))
    decreases |a|
  {
    if a == [] {
      assert a + b == b;
    } else {
      assert (a + b)[0] == a[0];
      assert (a + b)[1..] == a[1..] + b;
      var (t1, ok) := t.Put(a[0]);
      if ok {
        PutAllAppend(t1, a[1..], b);
      }
    }
  }

  // ---------------------------------------------------------------------
  // Values and their encodings

  /**
   * Everything the codec can write. Floats and pointers are their bit
   * patterns; a pointer (`usize`) is 8 bytes wide.
   */
  datatype Value =
    | Bool(boolValue: bool)
    | U8(u8Value: u8)
    | I8(i8Value: i8)
    | U16(u16Value: u16)
    | I16(i16Value: i16)
    | U32(u32Value: u32)
    | I32(i32Value: i32)
    | U64(u64Value: u64)
    | I64(i64Value: i64)
    | F32(f32Bits: u32)
    | F64(f64Bits: u64)
    | Ptr(ptrValue: u64)
    | Str(text: seq<byte>)
    | Binary(data: seq<byte>)
    | ListStart(length: u64)
    | UnionStart(discriminator: i32)
    | NullFlag(isNull: bool)

  /** Which read a value is read back with. */
  datatype Kind =
    | KBool | KU8 | KI8 | KU16 | KI16 | KU32 | KI32 | KU64 | KI64
    | KF32 | KF64 | KPtr | KStr | KBinary | KList | KUnion | KNullFlag

  function KindOf(v: Value): Kind {
    match v
    case Bool(_) => KBool
    case U8(_) => KU8
    case I8(_) => KI8
    case U16(_) => KU16
    case I16(_) => KI16
    case U32(_) => KU32
    case I32(_) => KI32
    case U64(_) => KU64
    case I64(_) => KI64
    case F32(_) => KF32
    case F64(_) => KF64
    case Ptr(_) => KPtr
    case Str(_) => KStr
    case Binary(_) => KBinary
    case ListStart(_) => KList
    case UnionStart(_) => KUnion
    case NullFlag(_) => KNullFlag
  }

  /** A length or count as the `u32` the wire carries (`as u32` truncates). */
  function AsU32(n: nat): (x: u32)
    ensures n < 0x1_0000_0000 ==> x == n
  {
    n % 0x1_0000_0000
  }

  /** The byte `write_bool` and `write_null_flag` write: 1 for true, 0 for false. */
  function Flag(b: bool): u8 {
    if b then 1 else 0
  }

  /** The cursor writes a value is made of, in order. */
  function Parts(v: Value): (ps: seq<seq<byte>>)
    ensures 1 <= |ps| <= 2
  {
    match v
    case Bool(b) => [LeBytes(Flag(b), 1)]
    case U8(x) => [LeBytes(x, 1)]
    case I8(x) => [LeBytes(ToTwos(x, 1), 1)]
    case U16(x) => [LeBytes(x, 2)]
    case I16(x) => [LeBytes(ToTwos(x, 2), 2)]
    case U32(x) => [LeBytes(x, 4)]
    case I32(x) => [LeBytes(ToTwos(x, 4), 4)]
    case U64(x) => [LeBytes(x, 8)]
    case I64(x) => [LeBytes(ToTwos(x, 8), 8)]
    case F32(x) => [LeBytes(x, 4)]
    case F64(x) => [LeBytes(x, 8)]
    case Ptr(x) => [LeBytes(x, 8)]
    case Str(s) => [LeBytes(AsU32(|s|), 4), s]
    case Binary(d) => [LeBytes(AsU32(|d|), 4), d]
    case ListStart(n) => [LeBytes(AsU32(n), 4)]
    case UnionStart(d) => [LeBytes(ToTwos(d, 4), 4)]
    case NullFlag(b) => [LeBytes(Flag(b), 1)]
  }

  function Encode(v: Value): seq<byte> {
    Flatten(Parts(v))
  }

  /** The cursor writes of several values, in order. */
  function PartsOf(vs: seq<Value>): seq<seq<byte>>
    decreases |vs|
  {
    if vs == [] then [] else Parts(vs[0]) + PartsOf(vs[1..])
  }

  /** A value the source can hand to the codec: strings are `&str`. */
  predicate Writable(v: Value) {
    v.Str? ==> Utf8.WellFormed(v.text)
  }

  /** A value that reads back as itself: its length fits the `u32` prefix. */
  predicate Faithful(v: Value) {
    Writable(v) &&
    (v.Str? ==> |v.text| < 0x1_0000_0000) &&
    (v.Binary? ==> |v.data| < 0x1_0000_0000) &&
    (v.ListStart? ==> v.length < 0x1_0000_0000)
  }

  // ---------------------------------------------------------------------
  // Decoding

  /** The number of bytes a read of kind k starts with. */
  function Width(k: Kind): nat {
    match k
    case KBool => 1
    case KU8 => 1
    case KI8 => 1
    case KNullFlag => 1
    case KU16 => 2
    case KI16 => 2
    case KU64 => 8
    case KI64 => 8
    case KF64 => 8
    case KPtr => 8
    case _ => 4
    }

  /** The length prefix of a string or binary at the start of s. */
  function LengthPrefix(s: seq<byte>): nat
    requires |s| >= 4
  {
    LeValue(s[..4])
  }

  /**
   * Reading a k from s does not panic: the fixed part is there, and a
   * string's or binary's payload fits both the stream and a destination of
   * destLen bytes.
   */
  predicate Readable(k: Kind, s: seq<byte>, destLen: nat) {
    Width(k) <= |s| &&
    ((k == KStr || k == KBinary) ==> LengthPrefix(s) <= destLen && 4 + LengthPrefix(s) <= |s|)
  }

  /** What `read_str` makes of the payload it read: the text, if it is well-formed UTF-8. */
  function StrOf(d: seq<byte>): (r: Result<Value, CodecError>)
    ensures r == Ok(Str(d)) || r == Err(Utf8Error)
    ensures r.Ok? <==> Utf8.WellFormed(d)
  {
    if Utf8.WellFormed(d) then Ok(Str(d)) else Err(Utf8Error)
  }

  /** What reading a k from s returns, and how many bytes it consumes. */
  function Decode(k: Kind, s: seq<byte>, destLen: nat): (r: (Result<Value, CodecError>, nat))
    requires Readable(k, s, destLen)
    ensures r.1 <= |s|
  {
    Pow256Widths();
    match k
    case KBool => (Ok(Bool(LeValue(s[..1]) != 0)), 1)
    case KU8 => (Ok(U8(LeValue(s[..1]))), 1)
    case KI8 => (Ok(I8(FromTwos(LeValue(s[..1]), 1))), 1)
    case KU16 => (Ok(U16(LeValue(s[..2]))), 2)
    case KI16 => (Ok(I16(FromTwos(LeValue(s[..2]), 2))), 2)
    case KU32 => (Ok(U32(LeValue(s[..4]))), 4)
    case KI32 => (Ok(I32(FromTwos(LeValue(s[..4]), 4))), 4)
    case KU64 => (Ok(U64(LeValue(s[..8]))), 8)
    case KI64 => (Ok(I64(FromTwos(LeValue(s[..8]), 8))), 8)
    case KF32 => (Ok(F32(LeValue(s[..4]))), 4)
    case KF64 => (Ok(F64(LeValue(s[..8]))), 8)
    case KPtr => (Ok(Ptr(LeValue(s[..8]))), 8)
    case KStr =>
      var d := s[4..4 + LengthPrefix(s)];
      (StrOf(d), 4 + |d|)
    case KBinary => (Ok(Binary(s[4..4 + LengthPrefix(s)])), 4 + LengthPrefix(s))
    case KList => (Ok(ListStart(LeValue(s[..4]))), 4)
    case KUnion => (Ok(UnionStart(FromTwos(LeValue(s[..4]), 4))), 4)
    case KNullFlag => (Ok(NullFlag(LeValue(s[..1]) != 0)), 1)
  }

  /** Only a string or a binary reads into the destination buffer, so only they depend on its length. */
  lemma DecodeIgnoresDest(k: Kind, s: seq<byte>, destLen: nat)
    requires k != KStr && k != KBinary && Readable(k, s, destLen)
    ensures Readable(k, s, 0)
    ensures Decode(k, s, destLen).0 == Decode(k, s, 0).0 && Decode(k, s, destLen).1 == Decode(k, s, 0).1
  {
  }

  lemma LeRead(v: nat, k: nat, rest: seq<byte>)
    requires v < Pow256(k)
    ensures (LeBytes(v, k) + rest)[..k] == LeBytes(v, k)
    ensures LeValue((LeBytes(v, k) + rest)[..k]) == v
  {
    assert (LeBytes(v, k) + rest)[..k] == LeBytes(v, k);
    LeValueOfLeBytes(v, k);
  }

  lemma FlattenOne(p: seq<byte>)
    ensures Flatten([p]) == p
  {
    assert [p][1..] == [];
  }

  lemma FlattenTwo(p: seq<byte>, q: seq<byte>)
    ensures Flatten([p, q]) == p + q
  {
    assert [p, q][1..] == [q];
    FlattenOne(q);
  }

  /** A string or binary: the length prefix, then the payload, then whatever follows. */
  lemma PayloadRead(d: seq<byte>, rest: seq<byte>)
    requires |d| < Pow256(4)
    ensures var s := LeBytes(|d|, 4) + d + rest;
      |s| >= 4 && LengthPrefix(s) == |d| && 4 + |d| <= |s| && s[4..4 + |d|] == d
  {
    LeRead(|d|, 4, d + rest);
    var s := LeBytes(|d|, 4) + d + rest;
    assert s == LeBytes(|d|, 4) + (d + rest);
    assert s[4..4 + |d|] == d;
  }

  /** A string reads back as whatever `from_utf8` makes of its bytes. */
  lemma DecodeEncodeStr(t: seq<byte>, rest: seq<byte>, destLen: nat)
    requires |t| < 0x1_0000_0000 && |t| <= destLen
    ensures Readable(KStr, Encode(Str(t)) + rest, destLen)
    ensures Decode(KStr, Encode(Str(t)) + rest, destLen) == (StrOf(t), |Encode(Str(t))|)
  {
    Pow256Widths();
    FlattenTwo(LeBytes(|t|, 4), t);
    PayloadRead(t, rest);
  }

  lemma DecodeEncodeBinary(d: seq<byte>, rest: seq<byte>, destLen: nat)
    requires |d| < 0x1_0000_0000 && |d| <= destLen
    ensures Readable(KBinary, Encode(Binary(d)) + rest, destLen)
    ensures Decode(KBinary, Encode(Binary(d)) + rest, destLen) == (Ok(Binary(d)), |Encode(Binary(d))|)
  {
    Pow256Widths();
    FlattenTwo(LeBytes(|d|, 4), d);
    PayloadRead(d, rest);
  }

  // One round trip per fixed-width value; DecodeEncode puts them together.

  lemma DecodeEncodeBool(b: bool, rest: seq<byte>, destLen: nat)
    ensures Readable(KBool, Encode(Bool(b)) + rest, destLen)
    ensures Decode(KBool, Encode(Bool(b)) + rest, destLen) == (Ok(Bool(b)), |Encode(Bool(b))|)
  {
    Pow256Widths();
    FlattenOne(LeBytes(Flag(b), 1));
    LeRead(Flag(b), 1, rest);
  }

  lemma DecodeEncodeU8(x: u8, rest: seq<byte>, destLen: nat)
    ensures Readable(KU8, Encode(U8(x)) + rest, destLen)
    ensures Decode(KU8, Encode(U8(x)) + rest, destLen) == (Ok(U8(x)), |Encode(U8(x))|)
  {
    Pow256Widths();
    FlattenOne(LeBytes(x, 1));
    LeRead(x, 1, rest);
  }

  lemma DecodeEncodeI8(x: i8, rest: seq<byte>, destLen: nat)
    ensures Readable(KI8, Encode(I8(x)) + rest, destLen)
    ensures Decode(KI8, Encode(I8(x)) + rest, destLen) == (Ok(I8(x)), |Encode(I8(x))|)
  {
    Pow256Widths();
    FlattenOne(LeBytes(ToTwos(x, 1), 1));
    LeRead(ToTwos(x, 1), 1, rest);
  }

  lemma DecodeEncodeU16(x: u16, rest: seq<byte>, destLen: nat)
    ensures Readable(KU16, Encode(U16(x)) + rest, destLen)
    ensures Decode(KU16, Encode(U16(x)) + rest, destLen) == (Ok(U16(x)), |Encode(U16(x))|)
  {
    Pow256Widths();
    FlattenOne(LeBytes(x, 2));
    LeRead(x, 2, rest);
  }

  lemma DecodeEncodeI16(x: i16, rest: seq<byte>, destLen: nat)
    ensures Readable(KI16, Encode(I16(x)) + rest, destLen)
    ensures Decode(KI16, Encode(I16(x)) + rest, destLen) == (Ok(I16(x)), |Encode(I16(x))|)
  {
    Pow256Widths();
    FlattenOne(LeBytes(ToTwos(x, 2), 2));
    LeRead(ToTwos(x, 2), 2, rest);
  }

  lemma DecodeEncodeU32(x: u32, rest: seq<byte>, destLen: nat)
    ensures Readable(KU32, Encode(U32(x)) + rest, destLen)
    ensures Decode(KU32, Encode(U32(x)) + rest, destLen) == (Ok(U32(x)), |Encode(U32(x))|)
  {
    Pow256Widths();
    FlattenOne(LeBytes(x, 4));
    LeRead(x, 4, rest);
  }

  lemma DecodeEncodeI32(x: i32, rest: seq<byte>, destLen: nat)
    ensures Readable(KI32, Encode(I32(x)) + rest, destLen)
    ensures Decode(KI32, Encode(I32(x)) + rest, destLen) == (Ok(I32(x)), |Encode(I32(x))|)
  {
    Pow256Widths();
    FlattenOne(LeBytes(ToTwos(x, 4), 4));
    LeRead(ToTwos(x, 4), 4, rest);
  }

  lemma DecodeEncodeU64(x: u64, rest: seq<byte>, destLen: nat)
    ensures Readable(KU64, Encode(U64(x)) + rest, destLen)
    ensures Decode(KU64, Encode(U64(x)) + rest, destLen) == (Ok(U64(x)), |Encode(U64(x))|)
  {
    Pow256Widths();
    FlattenOne(LeBytes(x, 8));
    LeRead(x, 8, rest);
  }

  lemma DecodeEncodeI64(x: i64, rest: seq<byte>, destLen: nat)
    ensures Readable(KI64, Encode(I64(x)) + rest, destLen)
    ensures Decode(KI64, Encode(I64(x)) + rest, destLen) == (Ok(I64(x)), |Encode(I64(x))|)
  {
    Pow256Widths();
    FlattenOne(LeBytes(ToTwos(x, 8), 8));
    LeRead(ToTwos(x, 8), 8, rest);
  }

  lemma DecodeEncodeF32(x: u32, rest: seq<byte>, destLen: nat)
    ensures Readable(KF32, Encode(F32(x)) + rest, destLen)
    ensures Decode(KF32, Encode(F32(x)) + rest, destLen) == (Ok(F32(x)), |Encode(F32(x))|)
  {
    Pow256Widths();
    FlattenOne(LeBytes(x, 4));
    LeRead(x, 4, rest);
  }

  lemma DecodeEncodeF64(x: u64, rest: seq<byte>, destLen: nat)
    ensures Readable(KF64, Encode(F64(x)) + rest, destLen)
    ensures Decode(KF64, Encode(F64(x)) + rest, destLen) == (Ok(F64(x)), |Encode(F64(x))|)
  {
    Pow256Widths();
    FlattenOne(LeBytes(x, 8));
    LeRead(x, 8, rest);
  }

  lemma DecodeEncodePtr(x: u64, rest: seq<byte>, destLen: nat)
    ensures Readable(KPtr, Encode(Ptr(x)) + rest, destLen)
    ensures Decode(KPtr, Encode(Ptr(x)) + rest, destLen) == (Ok(Ptr(x)), |Encode(Ptr(x))|)
  {
    Pow256Widths();
    FlattenOne(LeBytes(x, 8));
    LeRead(x, 8, rest);
  }

  lemma DecodeEncodeUnionStart(x: i32, rest: seq<byte>, destLen: nat)
    ensures Readable(KUnion, Encode(UnionStart(x)) + rest, destLen)
    ensures Decode(KUnion, Encode(UnionStart(x)) + rest, destLen) == (Ok(UnionStart(x)), |Encode(UnionStart(x))|)
  {
    Pow256Widths();
    FlattenOne(LeBytes(ToTwos(x, 4), 4));
    LeRead(ToTwos(x, 4), 4, rest);
  }

  lemma DecodeEncodeNullFlag(b: bool, rest: seq<byte>, destLen: nat)
    ensures Readable(KNullFlag, Encode(NullFlag(b)) + rest, destLen)
    ensures Decode(KNullFlag, Encode(NullFlag(b)) + rest, destLen) == (Ok(NullFlag(b)), |Encode(NullFlag(b))|)
  {
    Pow256Widths();
    FlattenOne(LeBytes(Flag(b), 1));
    LeRead(Flag(b), 1, rest);
  }

  lemma DecodeEncodeListStart(n: u64, rest: seq<byte>, destLen: nat)
    requires n < 0x1_0000_0000
    ensures Readable(KList, Encode(ListStart(n)) + rest, destLen)
    ensures Decode(KList, Encode(ListStart(n)) + rest, destLen) == (Ok(ListStart(n)), |Encode(ListStart(n))|)
  {
    Pow256Widths();
    FlattenOne(LeBytes(n, 4));
    LeRead(n, 4, rest);
  }

  /**
   * Every value the codec writes reads back as itself, consuming exactly
   * its own bytes, whatever follows it.
   */
  lemma DecodeEncode(v: Value, rest: seq<byte>, destLen: nat)
    requires Faithful(v)
    requires v.Str? ==> |v.text| <= destLen
    requires v.Binary? ==> |v.data| <= destLen
    ensures Readable(KindOf(v), Encode(v) + rest, destLen)
    ensures Decode(KindOf(v), Encode(v) + rest, destLen) == (Ok(v), |Encode(v)|)
  {
    if v.Str? {
      DecodeEncodeStr(v.text, rest, destLen);
      assert StrOf(v.text) == Ok(v);
    } else if v.Binary? {
      DecodeEncodeBinary(v.data, rest, destLen);
    } else if v.ListStart? {
      DecodeEncodeListStart(v.length, rest, destLen);
    } else if v.Bool? || v.U8? || v.I8? || v.U16? || v.I16? || v.NullFlag? {
      DecodeEncodeNarrow(v, rest, destLen);
    } else if v.U32? || v.I32? || v.F32? || v.UnionStart? {
      DecodeEncodeWord(v, rest, destLen);
    } else {
      DecodeEncodeWide(v, rest, destLen);
    }
  }

  /** DecodeEncode for the values of one or two bytes. */
  lemma DecodeEncodeNarrow(v: Value, rest: seq<byte>, destLen: nat)
    requires v.Bool? || v.U8? || v.I8? || v.U16? || v.I16? || v.NullFlag?
    ensures Readable(KindOf(v), Encode(v) + rest, destLen)
    ensures Decode(KindOf(v), Encode(v) + rest, destLen) == (Ok(v), |Encode(v)|)
  {
    match v
    case Bool(b) => DecodeEncodeBool(b, rest, destLen);
    case U8(x) => DecodeEncodeU8(x, rest, destLen);
    case I8(x) => DecodeEncodeI8(x, rest, destLen);
    case U16(x) => DecodeEncodeU16(x, rest, destLen);
    case I16(x) => DecodeEncodeI16(x, rest, destLen);
    case NullFlag(b) => DecodeEncodeNullFlag(b, rest, destLen);
    case _ =>
  }

  /** DecodeEncode for the values of four bytes. */
  lemma DecodeEncodeWord(v: Value, rest: seq<byte>, destLen: nat)
    requires v.U32? || v.I32? || v.F32? || v.UnionStart?
    ensures Readable(KindOf(v), Encode(v) + rest, destLen)
    ensures Decode(KindOf(v), Encode(v) + rest, destLen) == (Ok(v), |Encode(v)|)
  {
    match v
    case U32(x) => DecodeEncodeU32(x, rest, destLen);
    case I32(x) => DecodeEncodeI32(x, rest, destLen);
    case F32(x) => DecodeEncodeF32(x, rest, destLen);
    case UnionStart(x) => DecodeEncodeUnionStart(x, rest, destLen);
    case _ =>
  }

  /** DecodeEncode for the values of eight bytes. */
  lemma DecodeEncodeWide(v: Value, rest: seq<byte>, destLen: nat)
    requires v.U64? || v.I64? || v.F64? || v.Ptr?
    ensures Readable(KindOf(v), Encode(v) + rest, destLen)
    ensures Decode(KindOf(v), Encode(v) + rest, destLen) == (Ok(v), |Encode(v)|)
  {
    match v
    case U64(x) => DecodeEncodeU64(x, rest, destLen);
    case I64(x) => DecodeEncodeI64(x, rest, destLen);
    case F64(x) => DecodeEncodeF64(x, rest, destLen);
    case Ptr(x) => DecodeEncodePtr(x, rest, destLen);
    case _ =>
  }

  /** A list length of 2^32 or more reads back truncated to its low 32 bits. */
  lemma ListLengthTruncated(n: u64, rest: seq<byte>)
    ensures Decode(KList, Encode(ListStart(n)) + rest, 0).0 == Ok(ListStart(n % 0x1_0000_0000))
  {
    Pow256Widths();
    FlattenOne(LeBytes(AsU32(n), 4));
    LeRead(AsU32(n), 4, rest);
  }

  // ---------------------------------------------------------------------
  // The message header

  /**
   * The header word `(1 << 24) | ((service & 0xff) << 16) |
   * ((request & 0xff) << 8) | type`. The four fields occupy disjoint
   * bytes, so the bitwise or is their sum.
   */
  function HeaderWord(h: MessageHeader): (w: u32)
    ensures w / 0x100_0000 == 1
    ensures w % 0x100 == Code(h.messageType)
    ensures (w / 0x1_0000) % 0x100 == h.service % 0x100
    ensures (w / 0x100) % 0x100 == h.request % 0x100
  {
    HeaderWordLayout(Code(h.messageType), h.request % 0x100, h.service % 0x100);
    0x100_0000 + (h.service % 0x100) * 0x1_0000 + (h.request % 0x100) * 0x100 + Code(h.messageType)
  }

  /** Where the three low fields of the header word sit. */
  lemma HeaderWordLayout(t: nat, q: nat, s: nat)
    requires t < 0x100 && q < 0x100 && s < 0x100
    ensures var w := 0x100_0000 + s * 0x1_0000 + q * 0x100 + t;
      w / 0x100_0000 == 1 && w % 0x100 == t && (w / 0x1_0000) % 0x100 == s && (w / 0x100) % 0x100 == q
  {
    var w := 0x100_0000 + s * 0x1_0000 + q * 0x100 + t;
    assert w == 0x100 * (0x1_0000 + s * 0x100 + q) + t;
    DivMod256(t, 0x1_0000 + s * 0x100 + q);
    assert 0x1_0000 + s * 0x100 + q == 0x100 * (0x100 + s) + q;
    DivMod256(q, 0x100 + s);
    assert w == 0x1_0000 * (0x100 + s) + (q * 0x100 + t) && q * 0x100 + t < 0x1_0000;
    assert w / 0x1_0000 == 0x100 + s;
    DivMod256(s, 1);
    assert w == 0x100_0000 + (s * 0x1_0000 + q * 0x100 + t) && s * 0x1_0000 + q * 0x100 + t < 0x100_0000;
  }

  /** The two cursor writes of `start_write_message`: the header word and the sequence. */
  function HeaderParts(h: MessageHeader): seq<seq<byte>> {
    [LeBytes(HeaderWord(h), 4), LeBytes(h.sequence, 4)]
  }

  /** What `start_read_message` makes of a header word and a sequence. */
  function DecodeHeader(word: u32, sequence: u32): (r: Result<MessageHeader, CodecError>)
    ensures r.Err? <==> word % 0x100 >= 4
    ensures r.Err? ==> r.error == InvalidMessageType
    ensures r.Ok? ==> Code(r.value.messageType) == word % 0x100 && r.value.sequence == sequence
    ensures r.Ok? ==> r.value.service == (word / 0x1_0000) % 0x100 && r.value.request == (word / 0x100) % 0x100
  {
    match FromU32(word % 0x100)
    case None => Err(InvalidMessageType)
    case Some(t) => Ok(MessageHeader(t, (word / 0x1_0000) % 0x100, (word / 0x100) % 0x100, sequence))
  }

  /** The header round trip keeps the type and the sequence and the low bytes of service and request. */
  lemma HeaderRoundTrip(h: MessageHeader)
    ensures DecodeHeader(HeaderWord(h), h.sequence) ==
      Ok(MessageHeader(h.messageType, h.service % 0x100, h.request % 0x100, h.sequence))
  {
    var r := DecodeHeader(HeaderWord(h), h.sequence);
    CodeInjective(r.value.messageType, h.messageType);
  }

  /** The round trip gives back the very header exactly when service and request fit a byte. */
  lemma HeaderRoundTripExact(h: MessageHeader)
    ensures DecodeHeader(HeaderWord(h), h.sequence) == Ok(h) <==> h.service < 0x100 && h.request < 0x100
  {
    HeaderRoundTrip(h);
  }

  /** The version byte is not checked: words that agree in their low three bytes decode alike. */
  lemma VersionIgnored(w1: u32, w2: u32, sequence: u32)
    requires w1 % 0x100_0000 == w2 % 0x100_0000
    ensures DecodeHeader(w1, sequence) == DecodeHeader(w2, sequence)
  {
    HeaderFieldsLow(w1);
    HeaderFieldsLow(w2);
  }

  lemma DivMod256(a: nat, k: nat)
    requires a < 0x100
    ensures (0x100 * k + a) % 0x100 == a && (0x100 * k + a) / 0x100 == k
  {
  }

  /** The type, request and service fields lie in the low three bytes of the word. */
  lemma HeaderFieldsLow(w: nat)
    ensures var r := w % 0x100_0000;
      w % 0x100 == r % 0x100 && (w / 0x100) % 0x100 == (r / 0x100) % 0x100 &&
      (w / 0x1_0000) % 0x100 == (r / 0x1_0000) % 0x100
  {
    var q, r := w / 0x100_0000, w % 0x100_0000;
    var r1, r2 := r / 0x100, r / 0x1_0000;
    assert r == 0x100 * r1 + r % 0x100;
    assert r1 == 0x100 * r2 + r1 % 0x100;
    assert w == 0x100 * (0x1_0000 * q + r1) + r % 0x100;
    DivMod256(r % 0x100, 0x1_0000 * q + r1);
    assert w / 0x100 == 0x100 * (0x100 * q + r2) + r1 % 0x100;
    DivMod256(r1 % 0x100, 0x100 * q + r2);
    assert r1 / 0x100 == r2;
    assert w / 0x1_0000 == (w / 0x100) / 0x100;
    assert w / 0x1_0000 == 0x100 * q + r2;
    DivMod256(r2, q);
  }

  // ---------------------------------------------------------------------
  // Callbacks

  /** `iter().position`: the first index of id in ids, if any. */
  function FirstIndex(ids: seq<u64>, id: u64): (r: Option<nat>)
    ensures r.Some? ==> r.value < |ids| && ids[r.value] == id && forall j :: 0 <= j < r.value ==> ids[j] != id
    ensures r.None? <==> id !in ids
    decreases |ids|
  {
    if ids == [] then None
    else if ids[0] == id then Some(0)
    else match FirstIndex(ids[1..], id)
      case None => None
      case Some(i) => Some(i + 1)
  }

  /** The decision `write_callback` takes as written, including its out-of-bounds `callback_ids[0]`. */
  datatype CallbackAction = WriteIndex(index: u8) | NothingWritten | Fail | IndexOutOfBounds

  /** Bounds-checked indexing, `ids.get(i)`: an index past the end yields nothing. */
  function At(ids: seq<u64>, i: nat): (r: Option<u64>)
    ensures r.Some? <==> i < |ids|
    ensures r.Some? ==> r.value == ids[i]
  {
    if i < |ids| then Some(ids[i]) else None
  }

  function ChooseCallbackAsWritten(ids: seq<u64>, id: u64): (r: CallbackAction)
    ensures |ids| > 0 ==> r != IndexOutOfBounds
  {
    if |ids| == 0 then
      match At(ids, 0)
      case None => IndexOutOfBounds
      case Some(first) => if first == id then NothingWritten else Fail
    else
      match FirstIndex(ids, id)
      case Some(i) => WriteIndex(i % 0x100)
      case None => Fail
  }

  /** With an empty table, the source indexes element 0, which does not exist. */
  lemma EmptyCallbackTablePanics(id: u64)
    ensures ChooseCallbackAsWritten([], id) == IndexOutOfBounds
  {
  }

  /** The intended decision: an empty table holds no id, so the callback is invalid. */
  function ChooseCallback(ids: seq<u64>, id: u64): (r: CallbackAction)
    ensures r.WriteIndex? || r == Fail
    ensures r == Fail <==> id !in ids
    ensures r.WriteIndex? ==> exists i :: 0 <= i < |ids| && ids[i] == id && r.index == i % 0x100
  {
    match FirstIndex(ids, id)
    case Some(i) => WriteIndex(i % 0x100)
    case None => Fail
  }

  /** Both agree on every non-empty table. */
  lemma ChooseCallbackAgrees(ids: seq<u64>, id: u64)
    requires |ids| > 0
    ensures ChooseCallbackAsWritten(ids, id) == ChooseCallback(ids, id)
  {
  }

  /** What `read_callback` makes of the index byte it reads. */
  function CallbackOf(ids: seq<u64>, index: u8): (r: Result<u64, CodecError>)
    ensures r.Err? <==> index >= |ids|
    ensures r.Err? ==> r.error == InvalidCallback
    ensures r.Ok? ==> r.value == ids[index]
  {
    if index >= |ids| then Err(InvalidCallback) else Ok(ids[index])
  }

  /** An id of a table of at most 256 entries reads back as itself from the index written for it. */
  lemma CallbackRoundTrip(ids: seq<u64>, id: u64)
    requires id in ids && |ids| <= 0x100
    ensures ChooseCallback(ids, id).WriteIndex?
    ensures CallbackOf(ids, ChooseCallback(ids, id).index) == Ok(id)
  {
  }

  // ---------------------------------------------------------------------
  // The codec

  /** `BasicCodec` over a `SliceCursor`. */
  class BasicCodec {
    const cursor: SliceCursor

    ghost predicate Valid()
      reads this, cursor
    {
      cursor.Valid()
    }

    /** The bytes from the cursor's position to the end of its buffer. */
    ghost function Unread(): (s: seq<byte>)
      requires Valid()
      reads this, cursor, cursor.buffer.arr
      ensures |s| == cursor.Remaining()
    {
      cursor.View().Peek(cursor.Remaining())
    }

    /** The cursor shows what the writes of parts from before produce, and r reports it. */
    ghost predicate Wrote(before: Tape, parts: seq<seq<byte>>, r: Result<(), CodecError>)
      requires Valid() && before.Valid()
      reads this, cursor, cursor.buffer.arr
    {
      cursor.View() == PutAll(before, parts).0 &&
      r == (if PutAll(before, parts).1 then Ok(()) else Err(Cursor(InsufficientBuffer)))
    }

    constructor New(cursor: SliceCursor)
      requires cursor.Valid()
      ensures this.cursor == cursor && Valid()
    {
      this.cursor := cursor;
    }

    /** `detach`: the cursor, where the codec left it. */
    function Detach(): (c: SliceCursor)
      reads this
      ensures c == cursor
    {
      cursor
    }

    /** The `cursor.write(..)?` every write is made of. */
    method Emit(d: seq<byte>) returns (r: Result<(), CodecError>)
      requires Valid()
      modifies cursor, cursor.buffer.arr
      ensures Valid() && Wrote(old(cursor.View()), [d], r)
    {
      PutAllOne(cursor.View(), d);
      var w := cursor.Write(d);
      r := if w.Ok? then Ok(()) else Err(Cursor(w.error));
    }

    method WriteU8(value: u8) returns (r: Result<(), CodecError>)
      requires Valid()
      modifies cursor, cursor.buffer.arr
      ensures Valid() && Wrote(old(cursor.View()), Parts(U8(value)), r)
    {
      r := Emit(LeBytes(value, 1));
    }

    method WriteI8(value: i8) returns (r: Result<(), CodecError>)
      requires Valid()
      modifies cursor, cursor.buffer.arr
      ensures Valid() && Wrote(old(cursor.View()), Parts(I8(value)), r)
    {
      r := Emit(LeBytes(ToTwos(value, 1), 1));
    }

    method WriteU16(value: u16) returns (r: Result<(), CodecError>)
      requires Valid()
      modifies cursor, cursor.buffer.arr
      ensures Valid() && Wrote(old(cursor.View()), Parts(U16(value)), r)
    {
      r := Emit(LeBytes(value, 2));
    }

    method WriteI16(value: i16) returns (r: Result<(), CodecError>)
      requires Valid()
      modifies cursor, cursor.buffer.arr
      ensures Valid() && Wrote(old(cursor.View()), Parts(I16(value)), r)
    {
      r := Emit(LeBytes(ToTwos(value, 2), 2));
    }

    method WriteU32(value: u32) returns (r: Result<(), CodecError>)
      requires Valid()
      modifies cursor, cursor.buffer.arr
      ensures Valid() && Wrote(old(cursor.View()), Parts(U32(value)), r)
    {
      r := Emit(LeBytes(value, 4));
    }

    method WriteI32(value: i32) returns (r: Result<(), CodecError>)
      requires Valid()
      modifies cursor, cursor.buffer.arr
      ensures Valid() && Wrote(old(cursor.View()), Parts(I32(value)), r)
    {
      r := Emit(LeBytes(ToTwos(value, 4), 4));
    }

    method WriteU64(value: u64) returns (r: Result<(), CodecError>)
      requires Valid()
      modifies cursor, cursor.buffer.arr
      ensures Valid() && Wrote(old(cursor.View()), Parts(U64(value)), r)
    {
      r := Emit(LeBytes(value, 8));
    }

    method WriteI64(value: i64) returns (r: Result<(), CodecError>)
      requires Valid()
      modifies cursor, cursor.buffer.arr
      ensures Valid() && Wrote(old(cursor.View()), Parts(I64(value)), r)
    {
      r := Emit(LeBytes(ToTwos(value, 8), 8));
    }

    /** `write_f32`, on the float's bit pattern. */
    method WriteF32(bits: u32) returns (r: Result<(), CodecError>)
      requires Valid()
      modifies cursor, cursor.buffer.arr
      ensures Valid() && Wrote(old(cursor.View()), Parts(F32(bits)), r)
    {
      r := Emit(LeBytes(bits, 4));
    }

    /** `write_f64`, on the float's bit pattern. */
    method WriteF64(bits: u64) returns (r: Result<(), CodecError>)
      requires Valid()
      modifies cursor, cursor.buffer.arr
      ensures Valid() && Wrote(old(cursor.View()), Parts(F64(bits)), r)
    {
      r := Emit(LeBytes(bits, 8));
    }

    method WritePtr(value: u64) returns (r: Result<(), CodecError>)
      requires Valid()
      modifies cursor, cursor.buffer.arr
      ensures Valid() && Wrote(old(cursor.View()), Parts(Ptr(value)), r)
    {
      r := Emit(LeBytes(value, 8));
    }

    /**
     * `write_binary`: the length as a `u32`, then the bytes, in two writes;
     * when only the first fits, the length stays written.
     */
    method WriteBinary(data: seq<byte>) returns (r: Result<(), CodecError>)
      requires Valid()
      modifies cursor, cursor.buffer.arr
      ensures Valid() && Wrote(old(cursor.View()), Parts(Binary(data)), r)
    {
      var prefix := LeBytes(AsU32(|data|), 4);
      assert Parts(Binary(data)) == [prefix] + [data];
      PutAllCons(cursor.View(), prefix, [data]);
      PutAllOne(cursor.View(), prefix);
      r := WriteU32(AsU32(|data|));
      if r.Ok? {
        PutAllOne(cursor.View(), data);
        r := Emit(data);
      }
    }

    /** `write_str`: the UTF-8 bytes of a `&str`, written as a binary. */
    method WriteStr(text: seq<byte>) returns (r: Result<(), CodecError>)
      requires Valid() && Utf8.WellFormed(text)
      modifies cursor, cursor.buffer.arr
      ensures Valid() && Wrote(old(cursor.View()), Parts(Str(text)), r)
    {
      ghost var before := cursor.View();
      assert Parts(Str(text)) == Parts(Binary(text));
      r := WriteBinary(text);
      assert Wrote(before, Parts(Binary(text)), r);
    }

    /** `start_write_list`: the length, truncated to a `u32`. */
    method StartWriteList(length: u64) returns (r: Result<(), CodecError>)
      requires Valid()
      modifies cursor, cursor.buffer.arr
      ensures Valid() && Wrote(old(cursor.View()), Parts(ListStart(length)), r)
    {
      r := WriteU32(AsU32(length));
    }

    method StartWriteUnion(discriminator: i32) returns (r: Result<(), CodecError>)
      requires Valid()
      modifies cursor, cursor.buffer.arr
      ensures Valid() && Wrote(old(cursor.View()), Parts(UnionStart(discriminator)), r)
    {
      r := WriteI32(discriminator);
    }

    method WriteNullFlag(isNull: bool) returns (r: Result<(), CodecError>)
      requires Valid()
      modifies cursor, cursor.buffer.arr
      ensures Valid() && Wrote(old(cursor.View()), Parts(NullFlag(isNull)), r)
    {
      assert Parts(NullFlag(isNull)) == Parts(U8(Flag(isNull)));
      r := WriteU8(Flag(isNull));
    }

    method WriteBool(value: bool) returns (r: Result<(), CodecError>)
      requires Valid()
      modifies cursor, cursor.buffer.arr
      ensures Valid() && Wrote(old(cursor.View()), Parts(Bool(value)), r)
    {
      r := WriteU8(Flag(value));
    }

    /**
     * `write_callback`: the first index of the id, as a `u8`; an absent id
     * is `InvalidCallback` and writes nothing. An empty table is treated
     * as holding no id (see `ChooseCallbackAsWritten` for the source's
     * behaviour there).
     */
    method WriteCallback(ids: seq<u64>, id: u64) returns (r: Result<(), CodecError>)
      requires Valid()
      modifies cursor, cursor.buffer.arr
      ensures Valid()
      ensures ChooseCallback(ids, id).WriteIndex? ==>
        Wrote(old(cursor.View()), Parts(U8(ChooseCallback(ids, id).index)), r)
      ensures ChooseCallback(ids, id) == Fail ==>
        r == Err(InvalidCallback) && cursor.View() == old(cursor.View())
    {
      match FirstIndex(ids, id)
      case Some(i) =>
        r := WriteU8(i % 0x100);
      case None =>
        r := Err(InvalidCallback);
    }

    /** `start_write_message`: the header word, then the sequence. */
    method StartWriteMessage(header: MessageHeader) returns (r: Result<(), CodecError>)
      requires Valid()
      modifies cursor, cursor.buffer.arr
      ensures Valid() && Wrote(old(cursor.View()), HeaderParts(header), r)
    {
      var first, second := LeBytes(HeaderWord(header), 4), LeBytes(header.sequence, 4);
      assert HeaderParts(header) == [first] + [second];
      PutAllCons(cursor.View(), first, [second]);
      PutAllOne(cursor.View(), first);
      r := WriteU32(HeaderWord(header));
      if r.Ok? {
        PutAllOne(cursor.View(), second);
        r := WriteU32(header.sequence);
      }
    }

    /** Writes one value with the method for its kind. */
    method WriteValue(v: Value) returns (r: Result<(), CodecError>)
      requires Valid() && Writable(v)
      modifies cursor, cursor.buffer.arr
      ensures Valid() && Wrote(old(cursor.View()), Parts(v), r)
    {
      match v
      case Bool(b) => r := WriteBool(b);
      case U8(x) => r := WriteU8(x);
      case I8(x) => r := WriteI8(x);
      case U16(x) => r := WriteU16(x);
      case I16(x) => r := WriteI16(x);
      case U32(x) => r := WriteU32(x);
      case I32(x) => r := WriteI32(x);
      case U64(x) => r := WriteU64(x);
      case I64(x) => r := WriteI64(x);
      case F32(x) => r := WriteF32(x);
      case F64(x) => r := WriteF64(x);
      case Ptr(x) => r := WritePtr(x);
      case Str(t) => r := WriteStr(t);
      case Binary(d) => r := WriteBinary(d);
      case ListStart(n) => r := StartWriteList(n);
      case UnionStart(d) => r := StartWriteUnion(d);
      case NullFlag(b) => r := WriteNullFlag(b);
    }

    /** The `let mut buffer = [0u8; SIZE]; cursor.read(&mut buffer)?` every fixed-width read starts with. */
    method Take(n: nat) returns (bytes: seq<byte>)
      requires Valid() && n <= cursor.Remaining()
      modifies cursor
      ensures Valid() && bytes == old(cursor.View()).Peek(n)
      ensures cursor.View() == old(cursor.View()).Skip(n)
    {
      var buffer := new byte[n];
      var r := cursor.Read(Whole(buffer));
      bytes := r.value;
    }

    method ReadU8() returns (r: Result<u8, CodecError>)
      requires Valid() && 1 <= cursor.Remaining()
      modifies cursor
      ensures Valid() && cursor.View() == old(cursor.View()).Skip(1)
      ensures r == Ok(LeValue(old(cursor.View()).Peek(1)))
    {
      var bytes := Take(1);
      r := Ok(LeValue(bytes));
    }

    method ReadI8() returns (r: Result<i8, CodecError>)
      requires Valid() && 1 <= cursor.Remaining()
      modifies cursor
      ensures Valid() && cursor.View() == old(cursor.View()).Skip(1)
      ensures r == Ok(FromTwos(LeValue(old(cursor.View()).Peek(1)), 1))
    {
      var bytes := Take(1);
      r := Ok(FromTwos(LeValue(bytes), 1));
    }

    method ReadU16() returns (r: Result<u16, CodecError>)
      requires Valid() && 2 <= cursor.Remaining()
      modifies cursor
      ensures Valid() && cursor.View() == old(cursor.View()).Skip(2)
      ensures r == Ok(LeValue(old(cursor.View()).Peek(2)))
    {
      var bytes := Take(2);
      r := Ok(LeValue(bytes));
    }

    method ReadI16() returns (r: Result<i16, CodecError>)
      requires Valid() && 2 <= cursor.Remaining()
      modifies cursor
      ensures Valid() && cursor.View() == old(cursor.View()).Skip(2)
      ensures r == Ok(FromTwos(LeValue(old(cursor.View()).Peek(2)), 2))
    {
      var bytes := Take(2);
      r := Ok(FromTwos(LeValue(bytes), 2));
    }

    method ReadU32() returns (r: Result<u32, CodecError>)
      requires Valid() && 4 <= cursor.Remaining()
      modifies cursor
      ensures Valid() && cursor.View() == old(cursor.View()).Skip(4)
      ensures r == Ok(LeValue(old(cursor.View()).Peek(4)))
    {
      var bytes := Take(4);
      r := Ok(LeValue(bytes));
    }

    method ReadI32() returns (r: Result<i32, CodecError>)
      requires Valid() && 4 <= cursor.Remaining()
      modifies cursor
      ensures Valid() && cursor.View() == old(cursor.View()).Skip(4)
      ensures r == Ok(FromTwos(LeValue(old(cursor.View()).Peek(4)), 4))
    {
      var bytes := Take(4);
      r := Ok(FromTwos(LeValue(bytes), 4));
    }

    method ReadU64() returns (r: Result<u64, CodecError>)
      requires Valid() && 8 <= cursor.Remaining()
      modifies cursor
      ensures Valid() && cursor.View() == old(cursor.View()).Skip(8)
      ensures r == Ok(LeValue(old(cursor.View()).Peek(8)))
    {
      var bytes := Take(8);
      r := Ok(LeValue(bytes));
    }

    method ReadI64() returns (r: Result<i64, CodecError>)
      requires Valid() && 8 <= cursor.Remaining()
      modifies cursor
      ensures Valid() && cursor.View() == old(cursor.View()).Skip(8)
      ensures r == Ok(FromTwos(LeValue(old(cursor.View()).Peek(8)), 8))
    {
      var bytes := Take(8);
      r := Ok(FromTwos(LeValue(bytes), 8));
    }

    /** `read_f32`, as the float's bit pattern. */
    method ReadF32() returns (r: Result<u32, CodecError>)
      requires Valid() && 4 <= cursor.Remaining()
      modifies cursor
      ensures Valid() && cursor.View() == old(cursor.View()).Skip(4)
      ensures r == Ok(LeValue(old(cursor.View()).Peek(4)))
    {
      var bytes := Take(4);
      r := Ok(LeValue(bytes));
    }

    /** `read_f64`, as the float's bit pattern. */
    method ReadF64() returns (r: Result<u64, CodecError>)
      requires Valid() && 8 <= cursor.Remaining()
      modifies cursor
      ensures Valid() && cursor.View() == old(cursor.View()).Skip(8)
      ensures r == Ok(LeValue(old(cursor.View()).Peek(8)))
    {
      var bytes := Take(8);
      r := Ok(LeValue(bytes));
    }

    method ReadPtr() returns (r: Result<u64, CodecError>)
      requires Valid() && 8 <= cursor.Remaining()
      modifies cursor
      ensures Valid() && cursor.View() == old(cursor.View()).Skip(8)
      ensures r == Ok(LeValue(old(cursor.View()).Peek(8)))
    {
      var bytes := Take(8);
      r := Ok(LeValue(bytes));
    }

    /**
     * `read_binary`: reads the `u32` length, then that many bytes into the
     * front of dest, and returns them. A length beyond dest or beyond the
     * data makes the source panic, so both are required.
     */
    method ReadBinary(dest: Slice) returns (r: Result<seq<byte>, CodecError>)
      requires Valid() && dest.Valid() && Disjoint(dest, cursor.buffer)
      requires Readable(KBinary, Unread(), dest.Len())
      modifies cursor, dest.arr
      ensures Valid()
      ensures var n := LengthPrefix(old(Unread()));
        r == Ok(old(Unread())[4..4 + n]) &&
        cursor.View() == old(cursor.View()).Skip(4 + n) &&
        dest.arr[..] == Splice(old(dest.arr[..]), dest.lo, r.value)
    {
      ghost var s, t := Unread(), cursor.View();
      PeekSlice(t, 0, 4);
      var length := ReadU32();
      var n: nat := length.value;
      PeekSlice(t, 4, 4 + n);
      var part := dest.Sub(0, n);
      var bytes := cursor.Read(part);
      r := Ok(bytes.value);
    }

    /** `read_str`: a binary that must be well-formed UTF-8, else `Utf8Error`. */
    method ReadStr(dest: Slice) returns (r: Result<seq<byte>, CodecError>)
      requires Valid() && dest.Valid() && Disjoint(dest, cursor.buffer)
      requires Readable(KStr, Unread(), dest.Len())
      modifies cursor, dest.arr
      ensures Valid()
      ensures var n := LengthPrefix(old(Unread()));
        var d := old(Unread())[4..4 + n];
        r == (if Utf8.WellFormed(d) then Ok(d) else Err(Utf8Error)) &&
        cursor.View() == old(cursor.View()).Skip(4 + n) &&
        dest.arr[..] == Splice(old(dest.arr[..]), dest.lo, d)
    {
      var raw := ReadBinary(dest);
      r := if Utf8.WellFormed(raw.value) then raw else Err(Utf8Error);
    }

    /** `start_read_list`: the `u32` length. */
    method StartReadList() returns (r: Result<u64, CodecError>)
      requires Valid() && 4 <= cursor.Remaining()
      modifies cursor
      ensures Valid() && cursor.View() == old(cursor.View()).Skip(4)
      ensures r == Ok(LeValue(old(cursor.View()).Peek(4)))
    {
      var length := ReadU32();
      r := Ok(length.value);
    }

    method StartReadUnion() returns (r: Result<i32, CodecError>)
      requires Valid() && 4 <= cursor.Remaining()
      modifies cursor
      ensures Valid() && cursor.View() == old(cursor.View()).Skip(4)
      ensures r == Ok(FromTwos(LeValue(old(cursor.View()).Peek(4)), 4))
    {
      r := ReadI32();
    }

    /** `read_null_flag`: any non-zero byte means null. */
    method ReadNullFlag() returns (r: Result<bool, CodecError>)
      requires Valid() && 1 <= cursor.Remaining()
      modifies cursor
      ensures Valid() && cursor.View() == old(cursor.View()).Skip(1)
      ensures r == Ok(LeValue(old(cursor.View()).Peek(1)) != 0)
    {
      var flag := ReadU8();
      r := Ok(flag.value != 0);
    }

    /** `read_bool`: any non-zero byte means true. */
    method ReadBool() returns (r: Result<bool, CodecError>)
      requires Valid() && 1 <= cursor.Remaining()
      modifies cursor
      ensures Valid() && cursor.View() == old(cursor.View()).Skip(1)
      ensures r == Ok(LeValue(old(cursor.View()).Peek(1)) != 0)
    {
      var value := ReadU8();
      r := Ok(value.value != 0);
    }

    /** `read_callback`: the id at the index byte read, or `InvalidCallback` past the table's end. */
    method ReadCallback(ids: seq<u64>) returns (r: Result<u64, CodecError>)
      requires Valid() && 1 <= cursor.Remaining()
      modifies cursor
      ensures Valid() && cursor.View() == old(cursor.View()).Skip(1)
      ensures r == CallbackOf(ids, LeValue(old(cursor.View()).Peek(1)))
    {
      var index := ReadU8();
      if index.value >= |ids| {
        r := Err(InvalidCallback);
      } else {
        r := Ok(ids[index.value]);
      }
    }

    /**
     * `start_read_message`: reads the header word and the sequence, then
     * rejects a type byte outside 0..3; the version byte is not looked at.
     */
    method StartReadMessage() returns (r: Result<MessageHeader, CodecError>)
      requires Valid() && 8 <= cursor.Remaining()
      modifies cursor
      ensures Valid() && cursor.View() == old(cursor.View()).Skip(8)
      ensures r == DecodeHeader(LeValue(old(Unread())[..4]), LeValue(old(Unread())[4..8]))
    {
      ghost var t := cursor.View();
      PeekSlice(t, 0, 4);
      PeekSlice(t, 4, 8);
      var header := ReadU32();
      var sequence := ReadU32();
      match FromU32(header.value % 0x100)
      case None =>
        r := Err(InvalidMessageType);
      case Some(t) =>
        r := Ok(MessageHeader(t, (header.value / 0x1_0000) % 0x100, (header.value / 0x100) % 0x100, sequence.value));
    }

    /** ReadValue for the kinds of one or two bytes. */
    method ReadNarrow(k: Kind) returns (r: Result<Value, CodecError>)
      requires Valid() && (k == KBool || k == KU8 || k == KI8 || k == KU16 || k == KI16 || k == KNullFlag)
      requires Readable(k, Unread(), 0)
      modifies cursor
      ensures Valid()
      ensures r == Decode(k, old(Unread()), 0).0
      ensures cursor.View() == old(cursor.View()).Skip(Decode(k, old(Unread()), 0).1)
    {
      PeekSlice(cursor.View(), 0, Width(k));
      match k
      case KBool => var x := ReadBool(); r := Ok(Bool(x.value));
      case KU8 => var x := ReadU8(); r := Ok(U8(x.value));
      case KI8 => var x := ReadI8(); r := Ok(I8(x.value));
      case KU16 => var x := ReadU16(); r := Ok(U16(x.value));
      case KI16 => var x := ReadI16(); r := Ok(I16(x.value));
      case KNullFlag => var x := ReadNullFlag(); r := Ok(NullFlag(x.value));
      case _ =>
    }

    /** ReadValue for the kinds of four bytes. */
    method ReadWord(k: Kind) returns (r: Result<Value, CodecError>)
      requires Valid() && (k == KU32 || k == KI32 || k == KF32 || k == KList || k == KUnion)
      requires Readable(k, Unread(), 0)
      modifies cursor
      ensures Valid()
      ensures r == Decode(k, old(Unread()), 0).0
      ensures cursor.View() == old(cursor.View()).Skip(Decode(k, old(Unread()), 0).1)
    {
      PeekSlice(cursor.View(), 0, Width(k));
      match k
      case KU32 => var x := ReadU32(); r := Ok(U32(x.value));
      case KI32 => var x := ReadI32(); r := Ok(I32(x.value));
      case KF32 => var x := ReadF32(); r := Ok(F32(x.value));
      case KList => var x := StartReadList(); r := Ok(ListStart(x.value));
      case KUnion => var x := StartReadUnion(); r := Ok(UnionStart(x.value));
      case _ =>
    }

    /** ReadValue for the kinds of eight bytes. */
    method ReadWide(k: Kind) returns (r: Result<Value, CodecError>)
      requires Valid() && (k == KU64 || k == KI64 || k == KF64 || k == KPtr)
      requires Readable(k, Unread(), 0)
      modifies cursor
      ensures Valid()
      ensures r == Decode(k, old(Unread()), 0).0
      ensures cursor.View() == old(cursor.View()).Skip(Decode(k, old(Unread()), 0).1)
    {
      PeekSlice(cursor.View(), 0, Width(k));
      match k
      case KU64 => var x := ReadU64(); r := Ok(U64(x.value));
      case KI64 => var x := ReadI64(); r := Ok(I64(x.value));
      case KF64 => var x := ReadF64(); r := Ok(F64(x.value));
      case KPtr => var x := ReadPtr(); r := Ok(Ptr(x.value));
      case _ =>
    }

    /** A value of any fixed-size kind, which needs no destination buffer. */
    method ReadFixed(k: Kind) returns (r: Result<Value, CodecError>)
      requires Valid() && k != KStr && k != KBinary
      requires Readable(k, Unread(), 0)
      modifies cursor
      ensures Valid()
      ensures r == Decode(k, old(Unread()), 0).0
      ensures cursor.View() == old(cursor.View()).Skip(Decode(k, old(Unread()), 0).1)
    {
      if k == KBool || k == KU8 || k == KI8 || k == KU16 || k == KI16 || k == KNullFlag {
        r := ReadNarrow(k);
      } else if k == KU32 || k == KI32 || k == KF32 || k == KList || k == KUnion {
        r := ReadWord(k);
      } else {
        r := ReadWide(k);
      }
    }

    /** Reads one value of kind k with the method for that kind. */
    method ReadValue(k: Kind, dest: Slice) returns (r: Result<Value, CodecError>)
      requires Valid() && dest.Valid() && Disjoint(dest, cursor.buffer)
      requires Readable(k, Unread(), dest.Len())
      modifies cursor, dest.arr
      ensures Valid()
      ensures r == Decode(k, old(Unread()), dest.Len()).0
      ensures cursor.View() == old(cursor.View()).Skip(Decode(k, old(Unread()), dest.Len()).1)
    {
      if k == KStr {
        var x := ReadStr(dest);
        r := if x.Ok? then Ok(Str(x.value)) else Err(x.error);
      } else if k == KBinary {
        var x := ReadBinary(dest);
        r := Ok(Binary(x.value));
      } else {
        DecodeIgnoresDest(k, Unread(), dest.Len());
        r := ReadFixed(k);
      }
    }
  }

  /** A value written by a codec at the start of buffer: the buffer then starts with its encoding. */
  method WriteAtStart(buffer: array<byte>, v: Value) returns (w: Result<(), CodecError>)
    requires Writable(v) && |Encode(v)| <= buffer.Length
    modifies buffer
    ensures w == Ok(()) && buffer[..|Encode(v)|] == Encode(v)
  {
    var writeCursor := new SliceCursor.New(Whole(buffer));
    var writer := new BasicCodec.New(writeCursor);
    ghost var t := writeCursor.View();
    w := writer.WriteValue(v);
    PutAllIsPut(t, Parts(v));
    PutThenPeek(t, Encode(v));
  }

  /** A value read by a codec from the start of a buffer that starts with its encoding: the value. */
  method ReadAtStart(buffer: array<byte>, v: Value, dest: array<byte>) returns (r: Result<Value, CodecError>)
    requires Faithful(v) && |Encode(v)| <= buffer.Length && buffer[..|Encode(v)|] == Encode(v) && dest != buffer
    requires v.Str? ==> |v.text| <= dest.Length
    requires v.Binary? ==> |v.data| <= dest.Length
    modifies dest
    ensures r == Ok(v)
  {
    var readCursor := new SliceCursor.New(Whole(buffer));
    var reader := new BasicCodec.New(readCursor);
    ghost var e := Encode(v);
    assert reader.Unread() == e + buffer[|e|..];
    DecodeEncode(v, buffer[|e|..], dest.Length);
    r := reader.ReadValue(KindOf(v), Whole(dest));
  }

  /**
   * A value written by one codec at the start of a buffer is read back as
   * itself by another codec over the same buffer, as the write/read test of
   * src/codec.rs:284-365 checks value by value.
   */
  method WriteThenReadValue(buffer: array<byte>, v: Value, dest: array<byte>)
    returns (w: Result<(), CodecError>, r: Result<Value, CodecError>)
    requires Faithful(v) && |Encode(v)| <= buffer.Length && dest != buffer
    requires v.Str? ==> |v.text| <= dest.Length
    requires v.Binary? ==> |v.data| <= dest.Length
    modifies buffer, dest
    ensures w == Ok(()) && r == Ok(v)
  {
    w := WriteAtStart(buffer, v);
    r := ReadAtStart(buffer, v, dest);
  }
}
