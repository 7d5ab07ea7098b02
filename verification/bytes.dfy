/**
 * Bytes and the fixed-width integers of the wire format.
 * A byte, like every integer of a fixed width, is an `int` restricted to
 * the width's range; the little-endian image of an integer is a sequence
 * of bytes.
 */
module Bytes {
  type byte = x: int | 0 <= x < 0x100

  type u8 = x: int | 0 <= x < 0x100
  type u16 = x: int | 0 <= x < 0x1_0000
  type u32 = x: int | 0 <= x < 0x1_0000_0000
  type u64 = x: int | 0 <= x < 0x1_0000_0000_0000_0000
  type i8 = x: int | -0x80 <= x < 0x80
  type i16 = x: int | -0x8000 <= x < 0x8000
  type i32 = x: int | -0x8000_0000 <= x < 0x8000_0000
  type i64 = x: int | -0x8000_0000_0000_0000 <= x < 0x8000_0000_0000_0000

  /** 256 to the power k: the number of values k bytes can hold. */
  function Pow256(k: nat): (p: nat)
    ensures p > 0
  {
    if k == 0 then 1 else 256 * Pow256(k - 1)
  }

  /** The numbers of values of 1, 2, 4 and 8 bytes. */
  lemma Pow256Widths()
    ensures Pow256(1) == 0x100 && Pow256(2) == 0x1_0000 && Pow256(4) == 0x1_0000_0000
    ensures Pow256(8) == 0x1_0000_0000_0000_0000
  {
    assert Pow256(1) == 0x100;
    assert Pow256(2) == 0x1_0000;
    assert Pow256(3) == 0x100_0000;
    assert Pow256(4) == 0x1_0000_0000;
    assert Pow256(5) == 0x100_0000_0000;
    assert Pow256(6) == 0x1_0000_0000_0000;
    assert Pow256(7) == 0x100_0000_0000_0000;
  }

  /** The k low bytes of v, least significant first (`to_le_bytes`). */
  function LeBytes(v: nat, k: nat): (s: seq<byte>)
    ensures |s| == k
  {
    if k == 0 then [] else [v % 256] + LeBytes(v / 256, k - 1)
  }

  /** The number whose little-endian image is s (`from_le_bytes`). */
  function LeValue(s: seq<byte>): (v: nat)
    ensures v < Pow256(|s|)
  {
    if s == [] then 0 else s[0] as int + 256 * LeValue(s[1..])
  }

  /** Decoding the k-byte image of a k-byte value gives the value back. */
  lemma {:induction false} LeValueOfLeBytes(v: nat, k: nat)
    requires v < Pow256(k)
    ensures LeValue(LeBytes(v, k)) == v
    decreases k
  {
    if k > 0 {
      LeValueOfLeBytes(v / 256, k - 1);
      assert LeBytes(v, k)[1..] == LeBytes(v / 256, k - 1);
    }
  }

  /** Encoding the value of any byte sequence gives the sequence back. */
  lemma {:induction false} LeBytesOfLeValue(s: seq<byte>)
    ensures LeBytes(LeValue(s), |s|) == s
  {
    if s != [] {
      LeBytesOfLeValue(s[1..]);
      assert LeValue(s) % 256 == s[0] as int;
    }
  }

  /** Two's complement: the unsigned k-byte pattern of a signed value. */
  function ToTwos(v: int, k: nat): (u: nat)
    requires -(Pow256(k) as int) <= 2 * v < Pow256(k)
    ensures u < Pow256(k)
    ensures v >= 0 ==> u == v
    ensures v < 0 ==> u == v + Pow256(k)
    ensures FromTwos(u, k) == v
  {
    if v < 0 then v + Pow256(k) else v
  }

  /** The signed value of an unsigned k-byte pattern. */
  function FromTwos(u: nat, k: nat): (v: int)
    requires u < Pow256(k)
    ensures -(Pow256(k) as int) <= 2 * v < Pow256(k)
  {
    if 2 * u >= Pow256(k) then u - Pow256(k) else u
  }

}
