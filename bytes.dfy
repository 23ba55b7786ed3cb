/** Fixed-width unsigned integers, network byte order, and the in-place
    byte writes that replace the struct overlays of the packet builder. */
module Bytes {

  type uint4 = x: int | 0 <= x < 0x10
  type uint8 = x: int | 0 <= x < 0x100
  type uint16 = x: int | 0 <= x < 0x1_0000
  type uint32 = x: int | 0 <= x < 0x1_0000_0000

  datatype Option<T> = None | Some(value: T)

  /** A 16-bit field in network (big-endian) byte order, as `htons` lays it out. */
  function U16(v: uint16): (b: seq<uint8>)
    ensures |b| == 2 && ReadU16(b, 0) == v
  {
    [v / 0x100, v % 0x100]
  }

  function ReadU16(b: seq<uint8>, off: nat): uint16
    requires off + 2 <= |b|
  {
    b[off] as int * 0x100 + b[off + 1]
  }

  /** A 32-bit field in network byte order (an IPv4 address as `inet_pton` stores it). */
  function U32(v: uint32): (b: seq<uint8>)
    ensures |b| == 4 && ReadU32(b, 0) == v
  {
    U16(v / 0x1_0000) + U16(v % 0x1_0000)
  }

  function ReadU32(b: seq<uint8>, off: nat): uint32
    requires off + 4 <= |b|
  {
    ReadU16(b, off) as int * 0x1_0000 + ReadU16(b, off + 2)
  }

  lemma U16OfRead(b: seq<uint8>)
    requires |b| == 2
    ensures U16(ReadU16(b, 0)) == b
  {
  }

  lemma U32OfRead(b: seq<uint8>)
    requires |b| == 4
    ensures U32(ReadU32(b, 0)) == b
  {
    U16OfRead(b[..2]);
    U16OfRead(b[2..]);
    assert b == b[..2] + b[2..];
  }

  /** Stores a 16-bit field at byte offset `off`; nothing else changes. */
  method PutU16(a: array<uint8>, off: nat, v: uint16)
    requires off + 2 <= a.Length
    modifies a
    ensures a[..] == old(a[..])[off := v / 0x100][off + 1 := v % 0x100]
  {
    a[off] := v / 0x100;
    a[off + 1] := v % 0x100;
  }

  /** Stores a 32-bit field at byte offset `off`; nothing else changes. */
  method PutU32(a: array<uint8>, off: nat, v: uint32)
    requires off + 4 <= a.Length
    modifies a
    ensures a[..] == old(a[..])[off := v / 0x1_0000 / 0x100][off + 1 := v / 0x1_0000 % 0x100]
                              [off + 2 := v % 0x1_0000 / 0x100][off + 3 := v % 0x1_0000 % 0x100]
  {
    PutU16(a, off, v / 0x1_0000);
    PutU16(a, off + 2, v % 0x1_0000);
  }

  /** `memcpy(dst + dstOff, src + srcOff, n)` between two distinct buffers. */
  method CopyBytes(dst: array<uint8>, dstOff: nat, src: array<uint8>, srcOff: nat, n: nat)
    requires dst != src
    requires dstOff + n <= dst.Length && srcOff + n <= src.Length
    modifies dst
    ensures dst[dstOff..dstOff + n] == src[srcOff..srcOff + n]
    ensures dst[..dstOff] == old(dst[..dstOff]) && dst[dstOff + n..] == old(dst[dstOff + n..])
  {
    for i := 0 to n
      invariant dst[dstOff..dstOff + i] == src[srcOff..srcOff + i]
      invariant dst[..dstOff] == old(dst[..dstOff])
      invariant dst[dstOff + i..] == old(dst[dstOff + i..])
    {
      dst[dstOff + i] := src[srcOff + i];
      assert dst[dstOff..dstOff + i + 1] == dst[dstOff..dstOff + i] + [dst[dstOff + i]];
    }
  }
}
