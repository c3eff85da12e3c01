/** The inode table: 64-byte records, eight to a block, from block 2 on. */
module InodeTable {
  import opened Basics
  import opened Bytes
  import opened FreeList
  import opened FileMap

  const INODE_SIZE := 64
  const PER_BLOCK := 8

  const S_IFREG := 0x8000
  const S_IFDIR := 0x4000

  datatype Inode = Inode(mode: nat, nlinks: nat, uid: nat, gid: nat, size: nat, addrs: Addrs,
                         atime: nat, mtime: nat, ctime: nat)
  {
    /** The file type is the top hexadecimal digit of the mode. */
    predicate IsFile() { mode % 0x10000 / 0x1000 * 0x1000 == S_IFREG }
    predicate IsDir() { mode % 0x10000 / 0x1000 * 0x1000 == S_IFDIR }
  }

  function BlockOf(ino: nat): nat
    requires ino >= 1
  {
    2 + (ino - 1) / PER_BLOCK
  }

  function OffsetOf(ino: nat): (off: nat)
    requires ino >= 1
    ensures off + INODE_SIZE <= BLOCK
  {
    (ino - 1) % PER_BLOCK * INODE_SIZE
  }

  function GetAddrs(raw: seq<byte>, off: nat): (a: Addrs)
    requires off + INODE_SIZE <= |raw|
    ensures forall j :: 0 <= j < NADDR ==> a[j] == Get24(raw, off + 12 + 3 * j)
  {
    seq(NADDR, j requires 0 <= j < NADDR => Get24(raw, off + 12 + 3 * j))
  }

  function DecodeInode(raw: seq<byte>, off: nat): Inode
    requires off + INODE_SIZE <= |raw|
  {
    Inode(Get16(raw, off), Get16(raw, off + 2), Get16(raw, off + 4), Get16(raw, off + 6), Get32(raw, off + 8),
          GetAddrs(raw, off), Get32(raw, off + 51), Get32(raw, off + 55), Get32(raw, off + 59))
  }

  /** The inode on disk; a zero mode marks a free slot. */
  function Stat(d: Disk, ino: nat): Option<Inode> {
    if ino < 1 then None else
    var i := DecodeInode(Read(d, BlockOf(ino)), OffsetOf(ino));
    if i.mode == 0 then None else Some(i)
  }

  /** Store addresses j and up. */
  function SetAddrs(raw: seq<byte>, off: nat, a: Addrs, j: nat): (r: seq<byte>)
    requires off + INODE_SIZE <= |raw| && j <= NADDR
    ensures |r| == |raw|
    decreases NADDR - j
  {
    if j == NADDR then raw else SetAddrs(Set24(raw, off + 12 + 3 * j, a[j]), off, a, j + 1)
  }

  function EncodeInode(raw: seq<byte>, off: nat, i: Inode): (r: seq<byte>)
    requires off + INODE_SIZE <= |raw|
    ensures |r| == |raw|
  {
    var b1 := Set16(raw, off, i.mode % 0x10000);
    var b2 := Set16(b1, off + 2, i.nlinks % 0x10000);
    var b3 := Set16(b2, off + 4, i.uid % 0x10000);
    var b4 := Set16(b3, off + 6, i.gid % 0x10000);
    var b5 := Set32(b4, off + 8, i.size);
    var b6 := SetAddrs(b5, off, i.addrs, 0);
    var b7 := Set32(b6, off + 51, i.atime);
    var b8 := Set32(b7, off + 55, i.mtime);
    Set32(b8, off + 59, i.ctime)
  }

  datatype WriteResult = WriteResult(d: Disk, ok: bool)

  function WriteInode(d: Disk, ino: nat, i: Inode): WriteResult
    requires ino >= 1
  {
    var blk := BlockOf(ino);
    if blk >= |d| then WriteResult(d, false)
    else WriteResult(d[blk := EncodeInode(d[blk], OffsetOf(ino), i)], true)
  }

  // ----- round trip -----------------------------------------------------------------

  /** The inode as the record's field widths keep it. */
  function Truncated(i: Inode): Inode {
    Inode(i.mode % 0x10000, i.nlinks % 0x10000, i.uid % 0x10000, i.gid % 0x10000, i.size % 0x1_0000_0000,
          seq(NADDR, j requires 0 <= j < NADDR => i.addrs[j] % 0x100_0000),
          i.atime % 0x1_0000_0000, i.mtime % 0x1_0000_0000, i.ctime % 0x1_0000_0000)
  }

  /** Every field fits its width on disk. */
  ghost predicate Fits(i: Inode) {
    && i.mode < 0x10000 && i.nlinks < 0x10000 && i.uid < 0x10000 && i.gid < 0x10000
    && i.size < 0x1_0000_0000 && i.atime < 0x1_0000_0000 && i.mtime < 0x1_0000_0000 && i.ctime < 0x1_0000_0000
    && forall j :: 0 <= j < NADDR ==> i.addrs[j] < 0x100_0000
  }

  lemma StatFits(d: Disk, ino: nat)
    requires Stat(d, ino).Some?
    ensures Fits(Stat(d, ino).value)
  {
  }

  lemma TruncatedFits(i: Inode)
    ensures Truncated(i) == i <==> Fits(i)
  {
    var t := Truncated(i);
    if t == i {
      forall j | 0 <= j < NADDR ensures i.addrs[j] < 0x100_0000 { assert t.addrs[j] == i.addrs[j]; }
    }
    if Fits(i) { assert t.addrs == i.addrs; }
  }

  lemma {:induction false} SetAddrsBytes(raw: seq<byte>, off: nat, a: Addrs, j: nat)
    requires off + INODE_SIZE <= |raw| && j <= NADDR
    ensures var r := SetAddrs(raw, off, a, j);
      && (forall k :: 0 <= k < |raw| && !(off + 12 + 3 * j <= k < off + 51) ==> r[k] == raw[k])
      && (forall m :: j <= m < NADDR ==> Get24(r, off + 12 + 3 * m) == a[m] % 0x100_0000)
    decreases NADDR - j
  {
    hide Set24, Get24;
    if j < NADDR {
      var b := Set24(raw, off + 12 + 3 * j, a[j]);
      SetAddrsBytes(b, off, a, j + 1);
      Get24Same(SetAddrs(raw, off, a, j), b, off + 12 + 3 * j);
    }
  }

  /** Encoding then decoding gives the inode back, truncated to its field widths,
      and touches no byte outside its first 63. */
  lemma EncodeDecode(raw: seq<byte>, off: nat, i: Inode)
    requires off + INODE_SIZE <= |raw|
    ensures DecodeInode(EncodeInode(raw, off, i), off) == Truncated(i)
    ensures forall k :: 0 <= k < |raw| && !(off <= k < off + 63) ==> EncodeInode(raw, off, i)[k] == raw[k]
  {
    hide Set16, Get16, Set32, Get32, Get24, SetAddrs;
    var b1 := Set16(raw, off, i.mode % 0x10000);
    var b2 := Set16(b1, off + 2, i.nlinks % 0x10000);
    var b3 := Set16(b2, off + 4, i.uid % 0x10000);
    var b4 := Set16(b3, off + 6, i.gid % 0x10000);
    var b5 := Set32(b4, off + 8, i.size);
    var b6 := SetAddrs(b5, off, i.addrs, 0);
    var b7 := Set32(b6, off + 51, i.atime);
    var b8 := Set32(b7, off + 55, i.mtime);
    var r := Set32(b8, off + 59, i.ctime);
    SetAddrsBytes(b5, off, i.addrs, 0);
    Get16Same(r, b1, off);
    Get16Same(r, b2, off + 2);
    Get16Same(r, b3, off + 4);
    Get16Same(r, b4, off + 6);
    Get32Same(r, b5, off + 8);
    Get32Same(r, b7, off + 51);
    Get32Same(r, b8, off + 55);
    forall j | 0 <= j < NADDR
      ensures GetAddrs(r, off)[j] == Truncated(i).addrs[j]
    {
      Get24Same(r, b6, off + 12 + 3 * j);
    }
    assert GetAddrs(r, off) == Truncated(i).addrs;
  }

  lemma DecodeSame(a: seq<byte>, b: seq<byte>, off: nat)
    requires off + INODE_SIZE <= |a| && off + INODE_SIZE <= |b|
    requires forall k :: off <= k < off + INODE_SIZE ==> a[k] == b[k]
    ensures DecodeInode(a, off) == DecodeInode(b, off)
  {
    hide Get16, Get32, Get24;
    Get16Same(a, b, off);
    Get16Same(a, b, off + 2);
    Get16Same(a, b, off + 4);
    Get16Same(a, b, off + 6);
    Get32Same(a, b, off + 8);
    Get32Same(a, b, off + 51);
    Get32Same(a, b, off + 55);
    Get32Same(a, b, off + 59);
    forall j | 0 <= j < NADDR
      ensures GetAddrs(a, off)[j] == GetAddrs(b, off)[j]
    {
      Get24Same(a, b, off + 12 + 3 * j);
    }
    assert GetAddrs(a, off) == GetAddrs(b, off);
  }

  /** Writing an inode and reading it back: the record keeps exactly the low bits of
      each field, so the round trip is the identity precisely on inodes that fit;
      no other inode changes, and no block but the record's own. */
  lemma WriteInodeStat(d: Disk, ino: nat, i: Inode, other: nat)
    requires ino >= 1 && BlockOf(ino) < |d|
    ensures var r := WriteInode(d, ino, i);
      && r.ok && |r.d| == |d|
      && Stat(r.d, ino) == (if i.mode % 0x10000 == 0 then None else Some(Truncated(i)))
      && (other != ino ==> Stat(r.d, other) == Stat(d, other))
      && forall x: nat :: x != BlockOf(ino) ==> Read(r.d, x) == Read(d, x)
  {
    hide EncodeInode, DecodeInode, GetAddrs;
    var r := WriteInode(d, ino, i);
    var raw, raw' := d[BlockOf(ino)], r.d[BlockOf(ino)];
    EncodeDecode(raw, OffsetOf(ino), i);
    assert DecodeInode(raw', OffsetOf(ino)).mode == i.mode % 0x10000;
    if other != ino && other >= 1 && BlockOf(other) == BlockOf(ino) {
      SameBlockApart(ino, other);
      DecodeSame(raw, raw', OffsetOf(other));
    }
  }

  lemma SameBlockApart(i: nat, j: nat)
    requires i >= 1 && j >= 1 && i != j && BlockOf(i) == BlockOf(j)
    ensures OffsetOf(i) + INODE_SIZE <= OffsetOf(j) || OffsetOf(j) + INODE_SIZE <= OffsetOf(i)
  {
    assert (i - 1) % PER_BLOCK != (j - 1) % PER_BLOCK;
  }

  /** The inode depends only on its own table block. */
  lemma StatFrame(d: Disk, e: Disk, ino: nat)
    requires ino >= 1 && Read(e, BlockOf(ino)) == Read(d, BlockOf(ino))
    ensures Stat(e, ino) == Stat(d, ino)
  {
  }
}
