/**
 * Read/write positions over byte buffers (src/cursor.rs).
 * A `SliceCursor` advances its position on every read and write;
 * a `BufferCursor` delegates each call to a temporary `SliceCursor`
 * and keeps its own position, which therefore never moves.
 */
module Cursor {
  import opened Results
  import opened Bytes

  /** `CursorError`. No operation of the core ever produces `NotEnoughData`. */
  datatype CursorError = InsufficientBuffer | NotEnoughData

  /** A mutable byte slice `&mut [u8]`: the elements lo..hi of arr. */
  datatype Slice = Slice(arr: array<byte>, lo: nat, hi: nat) {
    predicate Valid() { lo <= hi <= arr.Length }

    function Len(): nat
      requires Valid()
    {
      hi - lo
    }

    function Bytes(): (s: seq<byte>)
      requires Valid()
      reads arr
      ensures |s| == Len()
    {
      arr[lo..hi]
    }

    /** The sub-slice `&mut self[i..j]`. */
    function Sub(i: nat, j: nat): (s: Slice)
      requires Valid() && i <= j <= Len()
      ensures s.Valid() && s.arr == arr && s.Len() == j - i
      ensures s.lo == lo + i
    {
      Slice(arr, lo + i, lo + j)
    }
  }

  /** The slice covering all of a. */
  function Whole(a: array<byte>): (s: Slice)
    ensures s.Valid() && s.arr == a && s.lo == 0 && s.Len() == a.Length
  {
    Slice(a, 0, a.Length)
  }

  /** Two slices share no element (Rust's borrow rules guarantee this for a mutable and another borrow). */
  predicate Disjoint(a: Slice, b: Slice) {
    a.arr != b.arr || a.hi <= b.lo || b.hi <= a.lo
  }

  /** s with the |d| bytes starting at offset at replaced by d. */
  function Splice(s: seq<byte>, at: nat, d: seq<byte>): (r: seq<byte>)
    requires at + |d| <= |s|
    ensures |r| == |s| && r[at..at + |d|] == d
    ensures forall k :: 0 <= k < |s| && !(at <= k < at + |d|) ==> r[k] == s[k]
  {
    s[..at] + d + s[at + |d|..]
  }

  /** A sequence that holds d from at on and agrees with s elsewhere is the splice of d into s. */
  lemma SpliceByElements(s: seq<byte>, r: seq<byte>, at: nat, d: seq<byte>)
    requires |r| == |s| && at + |d| <= |s|
    requires forall k :: at <= k < at + |d| ==> r[k] == d[k - at]
    requires forall k :: 0 <= k < |s| && !(at <= k < at + |d|) ==> r[k] == s[k]
    ensures r == Splice(s, at, d)
  {
    var t := Splice(s, at, d);
    forall k | 0 <= k < |s|
      ensures r[k] == t[k]
    {
      if at <= k < at + |d| {
        assert t[k] == t[at..at + |d|][k - at];
      }
    }
  }

  /** Two adjacent splices are one splice of the concatenation. */
  lemma {:induction false} SpliceSplice(s: seq<byte>, at: nat, d: seq<byte>, e: seq<byte>)
    requires at + |d| + |e| <= |s|
    ensures Splice(Splice(s, at, d), at + |d|, e) == Splice(s, at, d + e)
  {
    var l, r := Splice(Splice(s, at, d), at + |d|, e), Splice(s, at, d + e);
    forall k | 0 <= k < |s|
      ensures l[k] == r[k]
    {
      if at <= k < at + |d| {
        assert r[k] == r[at..at + |d| + |e|][k - at];
        assert l[k] == Splice(s, at, d)[k] == Splice(s, at, d)[at..at + |d|][k - at];
      } else if at + |d| <= k < at + |d| + |e| {
        assert r[k] == r[at..at + |d| + |e|][k - at];
        assert l[k] == l[at + |d|..at + |d| + |e|][k - at - |d|];
      }
    }
  }

  /** Splicing into an array at lo + at splices into the slice lo..hi at at. */
  lemma {:induction false} SpliceWithin(s: seq<byte>, lo: nat, hi: nat, at: nat, d: seq<byte>)
    requires lo <= hi <= |s| && at + |d| <= hi - lo
    ensures Splice(s, lo + at, d)[lo..hi] == Splice(s[lo..hi], at, d)
  {
    var l, r := Splice(s, lo + at, d)[lo..hi], Splice(s[lo..hi], at, d);
    forall k | 0 <= k < hi - lo
      ensures l[k] == r[k]
    {
      if at <= k < at + |d| {
        assert r[k] == r[at..at + |d|][k - at];
        assert l[k] == Splice(s, lo + at, d)[lo + at..lo + at + |d|][k - at];
      }
    }
  }

  /** A splice outside lo..hi leaves the elements lo..hi as they were. */
  lemma SpliceOutside(s: seq<byte>, at: nat, d: seq<byte>, lo: nat, hi: nat)
    requires at + |d| <= |s| && lo <= hi <= |s| && (at + |d| <= lo || hi <= at)
    ensures Splice(s, at, d)[lo..hi] == s[lo..hi]
  {
    var l := Splice(s, at, d)[lo..hi];
    forall k | 0 <= k < hi - lo
      ensures l[k] == s[lo + k]
    {
    }
  }

  /** `copy_from_slice` into the elements at.. of a. */
  method CopyInto(a: array<byte>, at: nat, d: seq<byte>)
    requires at + |d| <= a.Length
    modifies a
    ensures a[..] == Splice(old(a[..]), at, d)
  {
    ghost var before := a[..];
    forall k | 0 <= k < |d| {
      a[at + k] := d[k];
    }
    SpliceByElements(before, a[..], at, d);
  }

  /** What a cursor shows of its state: the bytes of its slice and its position. */
  datatype Tape = Tape(bytes: seq<byte>, pos: nat) {
    predicate Valid() { pos <= |bytes| }

    function Remaining(): nat
      requires Valid()
    {
      |bytes| - pos
    }

    /** The next n bytes. */
    function Peek(n: nat): (s: seq<byte>)
      requires Valid() && n <= Remaining()
      ensures |s| == n
    {
      bytes[pos..pos + n]
    }

    /** The tape after reading n bytes: same bytes, later position. */
    function Skip(n: nat): (t: Tape)
      requires Valid() && n <= Remaining()
      ensures t.Valid() && t.bytes == bytes && t.pos == pos + n
    {
      Tape(bytes, pos + n)
    }

    /**
     * An all-or-nothing write: the tape afterwards and whether the write
     * succeeded, which it does exactly when d fits in what remains.
     */
    function Put(d: seq<byte>): (r: (Tape, bool))
      requires Valid()
      ensures r.0.Valid() && |r.0.bytes| == |bytes|
      ensures r.1 <==> |d| <= Remaining()
      ensures !r.1 ==> r.0 == this
    {
      if |d| <= Remaining() then (Tape(Splice(bytes, pos, d), pos + |d|), true) else (this, false)
    }
  }

  /** A successful write is read back from where it started, and moves the position past it. */
  lemma PutThenPeek(t: Tape, d: seq<byte>)
    requires t.Valid() && |d| <= t.Remaining()
    ensures t.Put(d).1 && t.Put(d).0.pos == t.pos + |d|
    ensures Tape(t.Put(d).0.bytes, t.pos).Peek(|d|) == d
  {
  }

  /** A stretch of what remains is what remains after skipping to its start. */
  lemma PeekSlice(t: Tape, i: nat, j: nat)
    requires t.Valid() && i <= j <= t.Remaining()
    ensures t.Peek(t.Remaining())[i..j] == t.Skip(i).Peek(j - i)
  {
  }

  /** The first n of the next m bytes are the next n, and the rest follow the skip of n. */
  lemma PeekSplit(t: Tape, n: nat, m: nat)
    requires t.Valid() && n <= m <= t.Remaining()
    ensures t.Peek(m)[..n] == t.Peek(n)
    ensures t.Peek(m)[n..] == t.Skip(n).Peek(m - n)
  {
  }

  /** Two successful writes in a row are read back one after the other from where the first started. */
  lemma PutTwo(t: Tape, a: seq<byte>, b: seq<byte>)
    requires t.Valid() && |a| + |b| <= t.Remaining()
    ensures t.Put(a).1 && t.Put(a).0.Put(b).1
    ensures var end := t.Put(a).0.Put(b).0;
      var u := Tape(end.bytes, t.pos);
      end.pos == t.pos + |a| + |b| && u.Peek(|a|) == a && u.Skip(|a|).Peek(|b|) == b
  {
    assert t.Put(a).0.Put(b).0 == t.Put(a + b).0 by {
      SpliceSplice(t.bytes, t.pos, a, b);
    }
    var u := Tape(t.Put(a + b).0.bytes, t.pos);
    assert u.Peek(|a| + |b|) == a + b by {
      PutThenPeek(t, a + b);
    }
    PeekSplit(u, |a|, |a| + |b|);
    assert (a + b)[..|a|] == a && (a + b)[|a|..] == b;
  }

  /** A failed write changes nothing. */
  lemma PutTooLong(t: Tape, d: seq<byte>)
    requires t.Valid() && t.Remaining() < |d|
    ensures t.Put(d) == (t, false)
  {
  }

  function Min(a: nat, b: nat): nat {
    if a < b then a else b
  }

  /** `SliceCursor`: a position over a borrowed slice, advanced by every read and write. */
  class SliceCursor {
    const buffer: Slice
    var position: nat

    /** The position never passes the end of the buffer. */
    ghost predicate Valid()
      reads this
    {
      buffer.Valid() && position <= buffer.Len()
    }

    function Remaining(): nat
      requires Valid()
      reads this
    {
      buffer.Len() - position
    }

    ghost function View(): (t: Tape)
      requires Valid()
      reads this, buffer.arr
      ensures t.Valid() && t.Remaining() == Remaining()
    {
      Tape(buffer.Bytes(), position)
    }

    /** `new`: a cursor at the start of buffer. */
    constructor New(buffer: Slice)
      requires buffer.Valid()
      ensures Valid() && this.buffer == buffer && position == 0
    {
      this.buffer := buffer;
      position := 0;
    }

    /**
     * `new_with_position`. The source does not check the position; every
     * later read and write subtracts it from the length, so it is required.
     */
    constructor NewWithPosition(buffer: Slice, position: nat)
      requires buffer.Valid() && position <= buffer.Len()
      ensures Valid() && this.buffer == buffer && this.position == position
    {
      this.buffer := buffer;
      this.position := position;
    }

    method Reset()
      requires Valid()
      modifies this
      ensures Valid() && position == 0
    {
      position := 0;
    }

    function GetPosition(): (p: nat)
      requires Valid()
      reads this
      ensures p <= buffer.Len() && p + Remaining() == buffer.Len()
    {
      position
    }

    /**
     * `read`: fills dest from the position and advances past it. A dest
     * longer than what remains makes `copy_from_slice` panic, so it is
     * required; no error is ever returned.
     */
    method Read(dest: Slice) returns (r: Result<seq<byte>, CursorError>)
      requires Valid() && dest.Valid() && Disjoint(dest, buffer)
      requires dest.Len() <= Remaining()
      modifies this, dest.arr
      ensures Valid() && position == old(position) + dest.Len()
      ensures dest.arr[..] == Splice(old(dest.arr[..]), dest.lo, old(View()).Peek(dest.Len()))
      ensures buffer.Bytes() == old(buffer.Bytes())
      ensures r == Ok(dest.Bytes()) && r.value == old(View()).Peek(dest.Len())
      ensures View() == old(View()).Skip(dest.Len())
    {
      var remaining := buffer.Len() - position;
      var n := Min(remaining, dest.Len());
      var source := buffer.arr[buffer.lo + position..buffer.lo + position + n];
      assert forall j :: 0 <= j < n ==> source[j] == buffer.Bytes()[position + j];
      assert source == View().Peek(n);
      if dest.arr == buffer.arr {
        SpliceOutside(dest.arr[..], dest.lo, source, buffer.lo, buffer.hi);
      }
      CopyInto(dest.arr, dest.lo, source);
      position := position + n;
      r := Ok(dest.arr[dest.lo..dest.lo + n]);
    }

    /**
     * `write`: all or nothing. Data longer than what remains gives
     * `InsufficientBuffer` and changes nothing; otherwise the bytes are
     * copied at the position and the position moves past them.
     */
    method Write(data: seq<byte>) returns (r: Result<(), CursorError>)
      requires Valid()
      modifies this, buffer.arr
      ensures Valid()
      ensures old(Remaining()) < |data| ==>
        r == Err(InsufficientBuffer) && position == old(position) && buffer.arr[..] == old(buffer.arr[..])
      ensures |data| <= old(Remaining()) ==>
        r == Ok(()) && position == old(position) + |data| &&
        buffer.arr[..] == Splice(old(buffer.arr[..]), buffer.lo + old(position), data)
      ensures View() == old(View()).Put(data).0 && r.Ok? == old(View()).Put(data).1
    {
      var remaining := buffer.Len() - position;
      if remaining < |data| {
        r := Err(InsufficientBuffer);
      } else {
        ghost var t, before := View(), buffer.arr[..];
        CopyInto(buffer.arr, buffer.lo + position, data);
        assert buffer.arr[..] == Splice(before, buffer.lo + position, data);
        assert buffer.Bytes() == Splice(t.bytes, position, data) by {
          SpliceWithin(before, buffer.lo, buffer.hi, position, data);
        }
        position := position + |data|;
        r := Ok(());
      }
    }
  }

  /**
   * `BufferCursor`: owns its buffer and a position, but reads and writes
   * through a temporary `SliceCursor` whose advanced position is dropped.
   */
  class BufferCursor {
    const buffer: Slice
    var position: nat

    ghost predicate Valid()
      reads this
    {
      buffer.Valid() && position <= buffer.Len()
    }

    function Remaining(): nat
      requires Valid()
      reads this
    {
      buffer.Len() - position
    }

    constructor New(buffer: Slice)
      requires buffer.Valid()
      ensures Valid() && this.buffer == buffer && position == 0
    {
      this.buffer := buffer;
      position := 0;
    }

    /** `release`: hands back the very buffer the cursor was made with. */
    function Release(): (b: Slice)
      reads this
      ensures b == buffer
    {
      buffer
    }

    method Reset()
      requires Valid()
      modifies this
      ensures Valid() && position == 0
    {
      position := 0;
    }

    function GetPosition(): (p: nat)
      requires Valid()
      reads this
      ensures p <= buffer.Len() && p + Remaining() == buffer.Len()
    {
      position
    }

    ghost function View(): (t: Tape)
      requires Valid()
      reads this, buffer.arr
      ensures t.Valid() && t.Remaining() == Remaining()
    {
      Tape(buffer.Bytes(), position)
    }

    /** `read`: reads like a `SliceCursor` at the position, which stays where it was. */
    method Read(dest: Slice) returns (r: Result<seq<byte>, CursorError>)
      requires Valid() && dest.Valid() && Disjoint(dest, buffer)
      requires dest.Len() <= Remaining()
      modifies dest.arr
      ensures Valid() && position == old(position)
      ensures dest.arr[..] == Splice(old(dest.arr[..]), dest.lo, old(View()).Peek(dest.Len()))
      ensures buffer.Bytes() == old(buffer.Bytes())
      ensures r == Ok(dest.Bytes()) && r.value == old(View()).Peek(dest.Len())
    {
      var cursor := new SliceCursor.NewWithPosition(buffer, position);
      assert cursor.View() == View();
      r := cursor.Read(dest);
    }

    /** `write`: writes like a `SliceCursor` at the position, which stays where it was. */
    method Write(data: seq<byte>) returns (r: Result<(), CursorError>)
      requires Valid()
      modifies buffer.arr
      ensures Valid() && position == old(position)
      ensures old(Remaining()) < |data| ==>
        r == Err(InsufficientBuffer) && buffer.arr[..] == old(buffer.arr[..])
      ensures |data| <= old(Remaining()) ==>
        r == Ok(()) && buffer.arr[..] == Splice(old(buffer.arr[..]), buffer.lo + position, data)
      ensures View() == Tape(old(View()).Put(data).0.bytes, position)
    {
      var cursor := new SliceCursor.NewWithPosition(buffer, position);
      assert cursor.View() == View();
      r := cursor.Write(data);
    }
  }

  /**
   * Writing data from the start of a buffer and reading it back from the
   * start gives data again.
   */
  method WriteThenReadBack(buffer: Slice, data: seq<byte>, dest: Slice)
    returns (w: Result<(), CursorError>, r: Result<seq<byte>, CursorError>)
    requires buffer.Valid() && dest.Valid() && Disjoint(dest, buffer)
    requires |data| <= buffer.Len() && dest.Len() == |data|
    modifies buffer.arr, dest.arr
    ensures w == Ok(()) && r == Ok(data)
  {
    var cursor := new SliceCursor.New(buffer);
    ghost var before := cursor.View();
    w := cursor.Write(data);
    PutThenPeek(before, data);
    cursor.Reset();
    r := cursor.Read(dest);
  }
}
