/** The layout of the superblock, the inode records and the indirect blocks, byte by byte, and
    which bytes of the superblock the block allocator changes. */
module Layout {
  import opened Basics
  import opened Bytes
  import opened FreeList
  import opened BlockTree
  import opened FileMap
  import opened InodeTable
  import W = Walk

  /** A 16-bit word, low byte first. */
  function Word(b: seq<byte>, k: nat): nat
    requires k + 2 <= |b|
  {
    b[k] as int + 0x100 * b[k + 1] as int
  }

  /** A 32-bit field: the high word first, each with its low byte first. */
  function Long(b: seq<byte>, k: nat): nat
    requires k + 4 <= |b|
  {
    0x1_0000 * b[k] as int + 0x100_0000 * b[k + 1] as int + b[k + 2] as int + 0x100 * b[k + 3] as int
  }

  /** A 24-bit block address: the high byte, then the low and the middle one. */
  function Address(b: seq<byte>, k: nat): nat
    requires k + 3 <= |b|
  {
    0x1_0000 * b[k] as int + b[k + 1] as int + 0x100 * b[k + 2] as int
  }

  lemma SameFields(b: seq<byte>, k: nat)
    requires k + 4 <= |b|
    ensures Get16(b, k) == Word(b, k) && Get32(b, k) == Long(b, k) && Get24(b, k) == Address(b, k)
  {
  }

  /** Where the allocator's fields are in the superblock. The count is a signed short. */
  lemma SuperLayout(sb: Block, i: nat)
    requires i < 64
    ensures Isize(sb) == Word(sb, 0) && Fsize(sb) == Long(sb, 2) && Tfree(sb) == Long(sb, 474)
    ensures Nfree(sb) == if Word(sb, 6) < 0x8000 then Word(sb, 6) else Word(sb, 6) - 0x1_0000
    ensures Words(sb, SB_FREE)[i] == Long(sb, 8 + 4 * i)
  {
    SameFields(sb, 0); SameFields(sb, 2); SameFields(sb, 6); SameFields(sb, 8 + 4 * i); SameFields(sb, 474);
  }

  /** The same cache in a chain block, and the entries of an indirect block. */
  lemma ChainLayout(blk: Block, i: nat)
    requires i < 64
    ensures ChainNfree(blk) == if Word(blk, 0) < 0x8000 then Word(blk, 0) else Word(blk, 0) - 0x1_0000
    ensures Words(blk, FBLK_FREE)[i] == Long(blk, 2 + 4 * i)
  {
    SameFields(blk, 0); SameFields(blk, 2 + 4 * i);
  }

  lemma EntryLayout(blk: Block, i: nat)
    requires i < 128
    ensures Entry(blk, i) == Long(blk, 4 * i)
  {
    SameFields(blk, 4 * i);
  }

  /** Inode `ino` is the 64-byte record `(ino - 1) % 8` of block `2 + (ino - 1) / 8`: free when its
      mode is 0, and else with its fields at these offsets. */
  lemma InodeLayout(d: Disk, ino: nat)
    requires ino >= 1
    ensures var raw, k := Read(d, 2 + (ino - 1) / 8), (ino - 1) % 8 * 64;
      && k + 64 <= |raw|
      && (Stat(d, ino).None? <==> Word(raw, k) == 0)
      && (Stat(d, ino).Some? ==>
            var i := Stat(d, ino).value;
            && i.mode == Word(raw, k) && i.nlinks == Word(raw, k + 2) && i.uid == Word(raw, k + 4)
            && i.gid == Word(raw, k + 6) && i.size == Long(raw, k + 8)
            && i.atime == Long(raw, k + 51) && i.mtime == Long(raw, k + 55) && i.ctime == Long(raw, k + 59)
            && (forall j :: 0 <= j < 13 ==> i.addrs[j] == Address(raw, k + 12 + 3 * j))
            && (i.IsFile() <==> i.mode / 0x1000 == 8) && (i.IsDir() <==> i.mode / 0x1000 == 4))
  {
    hide Get16, Get32, Get24, Word, Long, Address, Read;
    var raw, k := Read(d, 2 + (ino - 1) / 8), (ino - 1) % 8 * 64;
    assert BlockOf(ino) == 2 + (ino - 1) / 8 && OffsetOf(ino) == k;
    SameFields(raw, k); SameFields(raw, k + 2); SameFields(raw, k + 4); SameFields(raw, k + 6);
    SameFields(raw, k + 8); SameFields(raw, k + 51); SameFields(raw, k + 55); SameFields(raw, k + 59);
    forall j | 0 <= j < 13 ensures GetAddrs(raw, k)[j] == Address(raw, k + 12 + 3 * j) {
      SameFields(raw, k + 12 + 3 * j);
    }
  }

  /** Files and directories are told by bits 15:12 of the mode, whatever else it holds. */
  lemma TypeBits(i: Inode)
    ensures i.IsFile() <==> i.mode / 0x1000 % 16 == 8
    ensures i.IsDir() <==> i.mode / 0x1000 % 16 == 4
  {
  }

  /** An inode is written exactly when its block is inside the image; else nothing is. */
  lemma WriteInodeRefused(d: Disk, ino: nat, i: Inode)
    requires ino >= 1
    ensures var r := WriteInode(d, ino, i);
      (r.ok <==> 2 + (ino - 1) / 8 < |d|) && (!r.ok ==> r.d == d)
  {
  }

  // ----- where a file's bytes are ----------------------------------------------------------

  /** The `k`-th pointer of indirect block `b`; a missing block points nowhere. */
  function Follow(d: Disk, b: nat, k: nat): nat
    requires k < 128
  {
    if b == 0 then 0 else Long(Read(d, b), 4 * k)
  }

  /** The block of logical index `idx`: ten direct addresses, then 128 through the eleventh, 128 * 128
      through the twelfth, and 128 * 128 * 128 through the thirteenth. */
  function MappedAt(d: Disk, addrs: Addrs, idx: nat): nat {
    if idx < 10 then addrs[idx]
    else if idx < 138 then Follow(d, addrs[10], idx - 10)
    else if idx < 16522 then Follow(d, Follow(d, addrs[11], (idx - 138) / 128), (idx - 138) % 128)
    else if idx < 2113674 then
      var r := idx - 16522;
      Follow(d, Follow(d, Follow(d, addrs[12], r / 16384), r % 16384 / 128), r % 128)
    else 0
  }

  lemma Followed(d: Disk, b: nat, depth: nat, k: nat, p: seq<nat>)
    requires k < 128
    ensures At(TreeOf(d, b, depth + 1), [k] + p) == At(TreeOf(d, Follow(d, b, k), depth), p)
  {
    hide Long, Read;
    assert ([k] + p)[1..] == p;
    if b != 0 { EntryLayout(Read(d, b), k); }
  }

  lemma Root(d: Disk, b: nat)
    ensures At(TreeOf(d, b, 0), []) == b
  {
  }

  /** The block map the file operations are about is this one. */
  lemma MapLayout(d: Disk, addrs: Addrs, idx: nat)
    ensures FileAt(Forest(d, addrs), idx) == MappedAt(d, addrs, idx)
  {
    hide At, TreeOf, Follow;
    var f := Forest(d, addrs);
    var c := ClassifyIndex(idx);
    if idx < 10 {
      Root(d, addrs[idx]);
    } else if idx < 138 {
      var k := idx - 10;
      assert c.coords == [k] + [] && f[c.slot] == TreeOf(d, addrs[10], 0 + 1);
      Followed(d, addrs[10], 0, k, []);
      Root(d, Follow(d, addrs[10], k));
    } else if idx < 16522 {
      var i, j := (idx - 138) / 128, (idx - 138) % 128;
      assert c.coords == [i] + [j] && [j] == [j] + [] && f[c.slot] == TreeOf(d, addrs[11], 1 + 1);
      Followed(d, addrs[11], 1, i, [j]);
      var b := Follow(d, addrs[11], i);
      Followed(d, b, 0, j, []);
      Root(d, Follow(d, b, j));
    } else if idx < 2113674 {
      var r := idx - 16522;
      var i, j, k := r / 16384, r % 16384 / 128, r % 128;
      assert c.coords == [i] + ([j] + [k]) && [k] == [k] + [] && f[c.slot] == TreeOf(d, addrs[12], 2 + 1);
      Followed(d, addrs[12], 2, i, [j] + [k]);
      var b := Follow(d, addrs[12], i);
      Followed(d, b, 1, j, [k]);
      var b' := Follow(d, b, j);
      Followed(d, b', 0, k, []);
      Root(d, Follow(d, b', k));
    }
  }

  /** Reading gives, up to the size and the largest a file can be, byte `k % 512` of the block mapped
      at `k / 512`, or 0 where none is. */
  lemma ReadLayout(d: Disk, po: nat, addrs: Addrs, size: nat, k: nat)
    ensures var r := W.ReadFile(d, po, addrs, size);
      && |r| == Min(size, 512 * 2113674)
      && (k < |r| ==>
            var b := MappedAt(d, addrs, k / 512);
            r[k] == if b == 0 then 0 else Read(d, b)[k % 512])
  {
    hide W.ReadFile, FileAt, Forest, MappedAt;
    W.ReadFileBytes(d, po, addrs, size);
    MapLayout(d, addrs, k / 512);
  }

  // ----- what an allocation leaves of the superblock ----------------------------------------

  /** Bytes that are not the free count, the cache, the modified flag, the time or the free total. */
  predicate Kept(k: nat) {
    k < 6 || 264 <= k < 468 || k == 469 || 478 <= k
  }

  /** From `a` to `b` only those fields may have changed, and the modified flag and time are set. */
  ghost predicate Updated(a: Block, b: Block, now: nat) {
    && (forall k :: 0 <= k < BLOCK && Kept(k) ==> b[k] == a[k])
    && b[468] == 1 && Long(b, 470) == now % 0x1_0000_0000
  }

  lemma Touches(sb: Block, now: nat)
    ensures Updated(sb, Touch(sb, now), now)
  {
    hide Long;
    SameFields(Touch(sb, now), 470);
  }

  lemma UpdatedAfter(a: Block, b: Block, c: Block, now: nat)
    requires (forall k :: 0 <= k < BLOCK && Kept(k) ==> b[k] == a[k]) && Updated(b, c, now)
    ensures Updated(a, c, now)
  {
  }

  /** A successful allocation updates those fields only; a failed one may at most clear the count. */
  lemma AllocUpdates(d: Disk, now: nat)
    requires SUPER < |d|
    ensures var r := AllocBlock(d, now);
      && |r.d| == |d|
      && (r.ok ==> Updated(d[SUPER], r.d[SUPER], now))
      && (!r.ok && r.d != d ==>
            Word(r.d[SUPER], 6) == 0 && forall k :: 0 <= k < BLOCK && !(6 <= k < 8) ==> r.d[SUPER][k] == d[SUPER][k])
  {
    hide Get16, Get32, Touch, Updated, Word, Words;
    var sb, r := d[SUPER], AllocBlock(d, now);
    SetNfreeBytes(sb, 0);
    if r.ok {
      var nfree := Nfree(sb) - 1;
      var fblk := Read(d, r.b);
      var sb1 := if nfree == 0 then SetNfree(LoadFree(sb, fblk), ChainNfree(fblk)) else SetNfree(sb, nfree);
      var sb2 := if Tfree(sb1) > 0 then SetTfree(sb1, Tfree(sb1) - 1) else sb1;
      assert r.d[SUPER] == Touch(sb2, now);
      Touches(sb2, now);
      UpdatedAfter(sb, sb2, Touch(sb2, now), now);
    }
  }

  lemma SetNfreeBytes(sb: Block, n: nat)
    requires n < 0x8000
    ensures Word(SetNfree(sb, n), 6) == n
    ensures forall k :: 0 <= k < BLOCK && !(6 <= k < 8) ==> SetNfree(sb, n)[k] == sb[k]
  {
    SameFields(SetNfree(sb, n), 6);
  }

  /** So does a successful push; a push is refused, with nothing written, exactly when the block is
      not in the data area, the count is no count of a cache, or a full cache has nowhere to go. */
  lemma FreeUpdates(d: Disk, b: nat, now: nat)
    requires SUPER < |d| && Isize(d[SUPER]) >= 2
    ensures var r := FreeBlock(d, b, now);
            var n := Nfree(d[SUPER]);
      && |r.d| == |d| && (if r.ok then Updated(d[SUPER], r.d[SUPER], now) else r.d == d)
      && (r.ok <==> Isize(d[SUPER]) <= b < Fsize(d[SUPER]) && 0 <= n <= 64 && (n == 64 ==> b < |d|))
  {
    hide Get16, Get32, Touch, Updated, Spill, Words;
    var sb, r := d[SUPER], FreeBlock(d, b, now);
    if r.ok {
      var n := if Nfree(sb) == NICFREE then 0 else Nfree(sb);
      var sb1 := SetNfree(SetFree(sb, n, b), n + 1);
      var sb2 := SetTfree(sb1, Tfree(sb1) + 1);
      assert r.d[SUPER] == Touch(sb2, now);
      Touches(sb2, now);
      UpdatedAfter(sb, sb2, Touch(sb2, now), now);
    }
  }
}
