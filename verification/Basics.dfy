/** What the modules share: optional values, bytes, machine integers and byte orders. */
module Basics {
  datatype Option<+T> = None | Some(value: T)

  type Byte = b: int | 0 <= b < 0x100
  type Bytes = seq<Byte>
  type U32 = w: int | 0 <= w < 0x1_0000_0000
  type U64 = w: int | 0 <= w < 0x1_0000_0000_0000_0000
  type U16 = w: int | 0 <= w < 0x1_0000
  type I32 = w: int | -0x8000_0000 <= w < 0x8000_0000
  type I64 = w: int | -0x8000_0000_0000_0000 <= w < 0x8000_0000_0000_0000

  // ---------------------------------------------------------------- sequences

  lemma Assoc(a: Bytes, b: Bytes, c: Bytes)
    ensures (a + b) + c == a + (b + c)
  {
  }

  lemma Split(a: Bytes, b: Bytes)
    ensures (a + b)[..|a|] == a && (a + b)[|a|..] == b
  {
  }

  lemma DropDrop(s: Bytes, i: nat, j: nat)
    requires i + j <= |s|
    ensures s[i..][j..] == s[i + j..]
  {
  }

  // ---------------------------------------------------------------- numbers

  function BE32(w: U32): (b: Bytes)
    ensures |b| == 4
  {
    [w / 0x100 / 0x100 / 0x100, w / 0x100 / 0x100 % 0x100, w / 0x100 % 0x100, w % 0x100]
  }

  function ReadBE32(b: Bytes): U32
    requires |b| == 4
  {
    ((b[0] as int * 0x100 + b[1] as int) * 0x100 + b[2] as int) * 0x100 + b[3] as int
  }

  lemma BE32RoundTrip(w: U32)
    ensures ReadBE32(BE32(w)) == w
  {
  }

  /** The most significant byte comes first. */
  lemma BE32Weights(w: U32)
    ensures
      var b := BE32(w);
      b[0] as int * 0x100_0000 + b[1] as int * 0x1_0000 + b[2] as int * 0x100 + b[3] as int == w
  {
  }

  function BE64(w: U64): (b: Bytes)
    ensures |b| == 8
  {
    BE32(w / 0x1_0000_0000) + BE32(w % 0x1_0000_0000)
  }

  function ReadBE64(b: Bytes): U64
    requires |b| == 8
  {
    (ReadBE32(b[..4]) as int) * 0x1_0000_0000 + ReadBE32(b[4..]) as int
  }

  lemma BE64RoundTrip(w: U64)
    ensures ReadBE64(BE64(w)) == w
  {
    assert BE64(w)[..4] == BE32(w / 0x1_0000_0000);
    assert BE64(w)[4..] == BE32(w % 0x1_0000_0000);
  }

  /** Two's complement. */
  function Unsigned32(i: int): U32 { i % 0x1_0000_0000 }
  function Signed32(w: U32): I32 { if w < 0x8000_0000 then w else w - 0x1_0000_0000 }
  function Unsigned64(i: int): U64 { i % 0x1_0000_0000_0000_0000 }
  function Signed64(w: U64): I64 {
    if w < 0x8000_0000_0000_0000 then w else w - 0x1_0000_0000_0000_0000
  }

  lemma SignedRoundTrip(i: I32, l: I64)
    ensures Signed32(Unsigned32(i)) == i && Signed64(Unsigned64(l)) == l
  {
  }
}
