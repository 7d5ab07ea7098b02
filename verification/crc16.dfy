/**
 * The CRC-16 of the framed transport (src/framed_transport.rs:6-39): the
 * generator polynomial 0x1021 (x^16 + x^12 + x^5 + 1, the polynomial of
 * ITU-T Recommendation V.41), bits taken most significant first, the
 * non-standard initial value 0xEF4A, and a 256-entry lookup table.
 * Registers are `bv16`, so every shift drops the bits that leave the top,
 * as the source's `u16` shifts do.
 */
module Crc16 {
  import opened Bytes

  const CRC16_START: bv16 := 0xEF4A
  const CRC16_POLY: bv16 := 0x1021
  /** The rounds of `compute_table`: one per bit of the index byte. */
  const ROUNDS: nat := 8

  /**
   * One round of `compute_table`: shift crc left by one and xor in poly
   * when the top bit of crc ^ i was set.
   */
  function Round(crc: bv16, i: bv16, poly: bv16): bv16 {
    if (crc ^ i) & 0x8000 != 0 then (crc << 1) ^ poly else crc << 1
  }

  /** n rounds, with i shifted left by one after each. */
  function Rounds(crc: bv16, i: bv16, poly: bv16, n: nat): bv16
    decreases n
  {
    if n == 0 then crc else Rounds(Round(crc, i, poly), i << 1, poly, n - 1)
  }

  /** The value of `compute_table(index, poly)`. */
  function TableEntry(index: bv8, poly: bv16): bv16 {
    Rounds(0, (index as bv16) << 8, poly, 8)
  }

  lemma RoundsStep(crc: bv16, i: bv16, poly: bv16, m: nat)
    ensures Rounds(crc, i, poly, m + 1) == Rounds(Round(crc, i, poly), i << 1, poly, m)
  {
  }

  /** The branch of one round, as the loop of `compute_table` writes it, computes `Round`. */
  lemma RoundTaken(crc0: bv16, i: bv16, poly: bv16, t: bv16, crc: bv16)
    requires t == crc0 ^ i
    requires crc == if t & 0x8000 != 0 then (crc0 << 1) ^ poly else crc0 << 1
    ensures crc == Round(crc0, i, poly)
  {
  }

  /** `compute_table`: eight rounds from 0 with the index in the high byte. */
  method ComputeTable(index: bv8, poly: bv16) returns (crc: bv16)
    ensures crc == TableEntry(index, poly)
  {
    crc := 0;
    var i: bv16 := (index as bv16) << 8;
    var n := 0;
    while n < ROUNDS
      invariant 0 <= n <= ROUNDS
      invariant Rounds(crc, i, poly, ROUNDS - n) == TableEntry(index, poly)
    {
      ghost var before := crc;
      var t := crc ^ i;
      crc := crc << 1;
      if t & 0x8000 != 0 {
        crc := crc ^ poly;
      }
      RoundsStep(before, i, poly, ROUNDS - n - 1);
      RoundTaken(before, i, poly, t, crc);
      i := i << 1;
      n := n + 1;
    }
  }

  /** The table for poly: entry i is compute_table(i, poly). `CRC16_TABLE` is Table(CRC16_POLY). */
  function Table(poly: bv16): (t: seq<bv16>)
    ensures |t| == 256
  {
    seq(256, i requires 0 <= i < 256 => TableEntry(i as bv8, poly))
  }

  /** The one-time initialisation of `CRC16_TABLE`, for any polynomial. */
  method BuildTable(poly: bv16) returns (table: array<bv16>)
    ensures fresh(table) && table[..] == Table(poly)
  {
    table := new bv16[256];
    for i := 0 to 256
      invariant forall j :: 0 <= j < i ==> table[j] == TableEntry(j as bv8, poly)
    {
      table[i] := ComputeTable(i as bv8, poly);
    }
    assert forall j :: 0 <= j < 256 ==> table[..][j] == Table(poly)[j];
  }

  /** The table index of one checksum step: `((crc >> 8) ^ b) & 0xff`. */
  function TableIndex(crc: bv16, b: byte): (i: nat)
    ensures i < 256
  {
    (((crc >> 8) as bv8) ^ (b as bv8)) as nat
  }

  /** One step of `checksum_crc16`. */
  function TableStep(crc: bv16, b: byte): bv16 {
    (crc << 8) ^ Table(CRC16_POLY)[TableIndex(crc, b)]
  }

  /** The left fold of TableStep over data. */
  function Fold(crc: bv16, data: seq<byte>): (r: bv16)
    ensures data == [] ==> r == crc
    decreases |data|
  {
    if data == [] then crc else Fold(TableStep(crc, data[0]), data[1..])
  }

  /** What `checksum_crc16` computes: the fold from 0xEF4A. */
  function Checksum(data: seq<byte>): (r: bv16)
    ensures data == [] ==> r == CRC16_START
  {
    Fold(CRC16_START, data)
  }

  /** Folding over a concatenation continues the fold of the first part over the second. */
  lemma {:induction false} FoldAppend(crc: bv16, a: seq<byte>, b: seq<byte>)
    ensures Fold(crc, a + b) == Fold(Fold(crc, a), b)
    decreases |a|
  {
    if a == [] {
      assert a + b == b;
    } else {
      assert (a + b)[0] == a[0];
      assert (a + b)[1..] == a[1..] + b;
      FoldAppend(TableStep(crc, a[0]), a[1..], b);
    }
  }

  /** The checksum of a ++ b continues the checksum of a over b. */
  lemma ChecksumAppend(a: seq<byte>, b: seq<byte>)
    ensures Checksum(a + b) == Fold(Checksum(a), b)
  {
    FoldAppend(CRC16_START, a, b);
  }

  /** `checksum_crc16`: the source's loop, proved to compute Checksum. */
  method ChecksumCrc16(data: seq<byte>) returns (crc: bv16)
    ensures crc == Checksum(data)
  {
    crc := CRC16_START;
    for k := 0 to |data|
      invariant Fold(crc, data[k..]) == Checksum(data)
    {
      assert data[k..][0] == data[k] && data[k..][1..] == data[k + 1..];
      crc := (crc << 8) ^ Table(CRC16_POLY)[TableIndex(crc, data[k])];
    }
    assert data[|data|..] == [];
  }
}
