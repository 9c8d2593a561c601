/** Bytes of an ext2 block: little-endian words and copies into a buffer. */
module Ext2Layout {
  import opened Memory

  const BLOCK_SIZE := 1024

  type Block = b: seq<byte> | |b| == BLOCK_SIZE witness seq(BLOCK_SIZE, _ => 0)

  /** memcpy and memmove of `s` to offset `o` of a buffer. */
  function Copy(b: Block, o: int, s: seq<byte>): Block
    requires 0 <= o && o + |s| <= BLOCK_SIZE
  {
    b[..o] + s + b[o + |s|..]
  }

  lemma Copied(b: Block, o: int, s: seq<byte>)
    requires 0 <= o && o + |s| <= BLOCK_SIZE
    ensures forall i :: 0 <= i < BLOCK_SIZE ==> Copy(b, o, s)[i] == if o <= i < o + |s| then s[i - o] else b[i]
  {
  }

  function Word16(b: Block, o: int): int
    requires 0 <= o && o + 2 <= BLOCK_SIZE
  {
    b[o] as int + 0x100 * b[o + 1] as int
  }

  function Word32(b: Block, o: int): int
    requires 0 <= o && o + 4 <= BLOCK_SIZE
  {
    b[o] as int + 0x100 * b[o + 1] as int + 0x1_0000 * b[o + 2] as int + 0x100_0000 * b[o + 3] as int
  }

  function Bytes16(v: int): (s: seq<byte>)
    ensures |s| == 2
  {
    [(v % 0x100) as byte, (v / 0x100 % 0x100) as byte]
  }

  function Bytes32(v: int): (s: seq<byte>)
    ensures |s| == 4
  {
    [(v % 0x100) as byte, (v / 0x100 % 0x100) as byte, (v / 0x1_0000 % 0x100) as byte, (v / 0x100_0000 % 0x100) as byte]
  }

  /** A stored half word reads back. */
  lemma Stored16(b: Block, o: int, v: int)
    requires 0 <= o && o + 2 <= BLOCK_SIZE && 0 <= v < 0x1_0000
    ensures Word16(Copy(b, o, Bytes16(v)), o) == v
  {
  }

  /** A stored word reads back. */
  lemma Stored32(b: Block, o: int, v: int)
    requires 0 <= o && o + 4 <= BLOCK_SIZE && 0 <= v < 0x1_0000_0000
    ensures Word32(Copy(b, o, Bytes32(v)), o) == v
  {
    var c := Copy(b, o, Bytes32(v));
    assert c[o] == Bytes32(v)[0] && c[o + 1] == Bytes32(v)[1] && c[o + 2] == Bytes32(v)[2] && c[o + 3] == Bytes32(v)[3];
    Split32(v);
  }

  lemma Split32(v: int)
    requires 0 <= v < 0x1_0000_0000
    ensures v % 0x100 + 0x100 * (v / 0x100 % 0x100) + 0x1_0000 * (v / 0x1_0000 % 0x100) + 0x100_0000 * (v / 0x100_0000 % 0x100) == v
  {
    var a, b, c := v / 0x100, v / 0x1_0000, v / 0x100_0000;
    assert v == 0x100 * a + v % 0x100;
    assert a == 0x100 * b + a % 0x100;
    assert b == 0x100 * c + b % 0x100;
    assert 0 <= c < 0x100;
  }
}
