/** The on-disk field codecs of the Coherent file system: 16-bit little-endian
    words, 32-bit fields stored high word first, and 24-bit block addresses
    stored high byte first. */
module Bytes {
  import opened Basics

  const BLOCK := 512

  /** One 512-byte disk block. */
  type Block = b: seq<byte> | |b| == BLOCK witness seq(BLOCK, _ => 0)

  function ZeroBlock(): (r: Block)
    ensures forall i :: 0 <= i < BLOCK ==> r[i] == 0
  {
    seq(BLOCK, _ => 0)
  }

  function Get16(b: seq<byte>, off: nat): (v: nat)
    requires off + 2 <= |b|
    ensures v < 0x10000
  {
    b[off] as int + 256 * (b[off + 1] as int)
  }

  function Set16(b: seq<byte>, off: nat, v: nat): (r: seq<byte>)
    requires off + 2 <= |b| && v < 0x10000
    ensures |r| == |b| && Get16(r, off) == v
    ensures forall k :: 0 <= k < |b| && !(off <= k < off + 2) ==> r[k] == b[k]
  {
    b[off := v % 256][off + 1 := v / 256]
  }

  /** 32-bit field, middle-endian: high 16-bit word first. */
  function Get32(b: seq<byte>, off: nat): (v: nat)
    requires off + 4 <= |b|
    ensures v < 0x1_0000_0000
  {
    Get16(b, off) * 0x10000 + Get16(b, off + 2)
  }

  /** The value is masked to 32 bits, as the source masks it. */
  function Set32(b: seq<byte>, off: nat, v: nat): (r: seq<byte>)
    requires off + 4 <= |b|
    ensures |r| == |b| && Get32(r, off) == v % 0x1_0000_0000
    ensures forall k :: 0 <= k < |b| && !(off <= k < off + 4) ==> r[k] == b[k]
  {
    var m := v % 0x1_0000_0000;
    Set16(Set16(b, off, m / 0x10000), off + 2, m % 0x10000)
  }

  /** 24-bit block address: high byte first, then a little-endian word. */
  function Get24(b: seq<byte>, off: nat): (v: nat)
    requires off + 3 <= |b|
    ensures v < 0x100_0000
  {
    b[off] as int * 0x10000 + Get16(b, off + 1)
  }

  function Set24(b: seq<byte>, off: nat, v: nat): (r: seq<byte>)
    requires off + 3 <= |b|
    ensures |r| == |b| && Get24(r, off) == v % 0x100_0000
    ensures forall k :: 0 <= k < |b| && !(off <= k < off + 3) ==> r[k] == b[k]
  {
    var m := v % 0x100_0000;
    Set16(b[off := m / 0x10000], off + 1, m % 0x10000)
  }

  /** The kernel keeps some counters as signed shorts. */
  function S16(v: nat): int
    requires v < 0x10000
  {
    if v > 0x7FFF then v - 0x10000 else v
  }

  lemma Get16Same(a: seq<byte>, b: seq<byte>, off: nat)
    requires off + 2 <= |a| && off + 2 <= |b|
    requires forall k :: off <= k < off + 2 ==> a[k] == b[k]
    ensures Get16(a, off) == Get16(b, off)
  {
  }

  lemma Get32Same(a: seq<byte>, b: seq<byte>, off: nat)
    requires off + 4 <= |a| && off + 4 <= |b|
    requires forall k :: off <= k < off + 4 ==> a[k] == b[k]
    ensures Get32(a, off) == Get32(b, off)
  {
  }

  lemma Get24Same(a: seq<byte>, b: seq<byte>, off: nat)
    requires off + 3 <= |a| && off + 3 <= |b|
    requires forall k :: off <= k < off + 3 ==> a[k] == b[k]
    ensures Get24(a, off) == Get24(b, off)
  {
  }

  // ----- indirect blocks: 128 32-bit entries ------------------------------

  const FANOUT := 128

  function Entry(blk: Block, i: nat): nat
    requires i < FANOUT
  {
    Get32(blk, 4 * i)
  }

  function SetEntry(blk: Block, i: nat, v: nat): (r: Block)
    requires i < FANOUT
    ensures Entry(r, i) == v % 0x1_0000_0000
    ensures forall j: nat :: j < FANOUT && j != i ==> Entry(r, j) == Entry(blk, j)
  {
    var r := Set32(blk, 4 * i, v);
    assert forall j: nat :: j < FANOUT && j != i ==> Entry(r, j) == Entry(blk, j);
    r
  }

  lemma ZeroEntries()
    ensures forall i: nat :: i < FANOUT ==> Entry(ZeroBlock(), i) == 0
  {
  }
}
