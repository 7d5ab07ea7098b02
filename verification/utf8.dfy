/**
 * Well-formed UTF-8 byte sequences, as defined by the syntax of section 4
 * of RFC 3629. `core::str::from_utf8` accepts exactly these sequences.
 */
module Utf8 {
  import opened Bytes

  predicate Tail(b: byte) {
    0x80 <= b <= 0xBF
  }

  /** The length of the well-formed character at the start of s, or 0 if none starts there. */
  function CharLength(s: seq<byte>): (n: nat)
    requires |s| > 0
    ensures n <= 4 && n <= |s|
  {
    var b := s[0];
    if b <= 0x7F then 1
    else if 0xC2 <= b <= 0xDF then
      (if |s| >= 2 && Tail(s[1]) then 2 else 0)
    else if b == 0xE0 then
      (if |s| >= 3 && 0xA0 <= s[1] <= 0xBF && Tail(s[2]) then 3 else 0)
    else if (0xE1 <= b <= 0xEC) || (0xEE <= b <= 0xEF) then
      (if |s| >= 3 && Tail(s[1]) && Tail(s[2]) then 3 else 0)
    else if b == 0xED then
      (if |s| >= 3 && 0x80 <= s[1] <= 0x9F && Tail(s[2]) then 3 else 0)
    else if b == 0xF0 then
      (if |s| >= 4 && 0x90 <= s[1] <= 0xBF && Tail(s[2]) && Tail(s[3]) then 4 else 0)
    else if 0xF1 <= b <= 0xF3 then
      (if |s| >= 4 && Tail(s[1]) && Tail(s[2]) && Tail(s[3]) then 4 else 0)
    else if b == 0xF4 then
      (if |s| >= 4 && 0x80 <= s[1] <= 0x8F && Tail(s[2]) && Tail(s[3]) then 4 else 0)
    else 0
  }

  /** s is a sequence of well-formed characters. */
  predicate WellFormed(s: seq<byte>)
    decreases |s|
  {
    s == [] || (CharLength(s) > 0 && WellFormed(s[CharLength(s)..]))
  }

  /** Every ASCII text is well-formed. */
  lemma {:induction false} AsciiWellFormed(s: seq<byte>)
    requires forall i :: 0 <= i < |s| ==> s[i] <= 0x7F
    ensures WellFormed(s)
    decreases |s|
  {
    if s != [] {
      AsciiWellFormed(s[1..]);
    }
  }

  /** The concatenation of two well-formed texts is well-formed. */
  lemma {:induction false} ConcatWellFormed(s: seq<byte>, t: seq<byte>)
    requires WellFormed(s) && WellFormed(t)
    ensures WellFormed(s + t)
    decreases |s|
  {
    if s == [] {
      assert s + t == t;
    } else {
      var n := CharLength(s);
      assert CharLength(s + t) == n by {
        assert (s + t)[..|s|] == s;
        CharLengthPrefix(s, s + t);
      }
      assert WellFormed(s[n..] + t) by {
        ConcatWellFormed(s[n..], t);
      }
      assert (s + t)[n..] == s[n..] + t;
    }
  }

  /** The first character's length depends only on its own bytes. */
  lemma CharLengthPrefix(s: seq<byte>, u: seq<byte>)
    requires |s| > 0 && CharLength(s) > 0 && |s| <= |u| && u[..|s|] == s
    ensures CharLength(u) == CharLength(s)
  {
    var n := CharLength(s);
    assert u[..n] == s[..n];
    assert forall i :: 0 <= i < n ==> u[i] == s[i];
  }

  /** A lone continuation byte is not well-formed. */
  lemma LoneTailIllFormed(b: byte)
    requires Tail(b)
    ensures !WellFormed([b])
  {
  }
}
