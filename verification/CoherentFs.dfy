/** The file system object over the shared image: the methods edit the image, the
    superblock copy and the in-memory inode in place, and each is proved to do
    exactly what its specification function says. */
module CoherentFs {
  import opened Basics
  import opened Bytes
  import opened FileMap
  import opened InodeTable
  import FL = FreeList
  import BT = BlockTree
  import PR = Prune
  import GR = Grow
  import SH = Shrink
  import IO = FileIo
  import W = Walk
  import FS = Fsck

  /** The blocks of the image from block `po` on. */
  function PartOf(img: seq<byte>, po: nat): (d: FL.Disk)
    ensures |d| == if |img| / BLOCK >= po then |img| / BLOCK - po else 0
    ensures forall i :: 0 <= i < |d| ==>
      (po + i + 1) * BLOCK <= |img| && d[i] == img[(po + i) * BLOCK..(po + i + 1) * BLOCK]
  {
    seq(if |img| / BLOCK >= po then |img| / BLOCK - po else 0,
        i requires 0 <= i && (po + i + 1) * BLOCK <= |img| => img[(po + i) * BLOCK..(po + i + 1) * BLOCK])
  }

  /** An inode in memory; its fields are updated in place. */
  class MemInode {
    const ino: nat
    var mode: nat
    var nlinks: nat
    var uid: nat
    var gid: nat
    var size: nat
    var addrs: Addrs
    var atime: nat
    var mtime: nat
    var ctime: nat

    constructor (ino: nat, i: Inode)
      ensures this.ino == ino && Value() == i
    {
      this.ino := ino;
      mode, nlinks, uid, gid, size := i.mode, i.nlinks, i.uid, i.gid, i.size;
      addrs := i.addrs;
      atime, mtime, ctime := i.atime, i.mtime, i.ctime;
    }

    function Value(): Inode
      reads this
    {
      Inode(mode, nlinks, uid, gid, size, addrs, atime, mtime, ctime)
    }
  }

  class CoherentFS {
    const image: array<byte>
    const partOff: nat

    constructor (image: array<byte>, partOff: nat)
      ensures this.image == image && this.partOff == partOff
    {
      this.image := image;
      this.partOff := partOff;
    }

    /** The partition as its blocks. */
    ghost function Part(): FL.Disk
      reads image
    {
      PartOf(image[..], partOff)
    }

    /** The part of the image that belongs to earlier partitions. */
    ghost function Before(): seq<byte>
      reads image
    {
      if partOff * BLOCK <= image.Length then image[..partOff * BLOCK] else image[..]
    }

    // ----- block I/O ------------------------------------------------------------

    method ReadBlock(bno: nat) returns (blk: Block)
      ensures bno >= partOff ==> blk == FL.Read(Part(), bno - partOff)
    {
      var off := bno * BLOCK;
      if off + BLOCK > image.Length {
        return ZeroBlock();
      }
      assert bno < image.Length / BLOCK;
      assert bno >= partOff ==> Part()[bno - partOff] == image[..][off..off + BLOCK];
      assert image[..][off..off + BLOCK] == image[off..off + BLOCK];
      return image[off..off + BLOCK];
    }

    method WriteBlock(bno: nat, data: Block) returns (ok: bool)
      requires bno >= partOff
      modifies image
      ensures ok <==> bno - partOff < |old(Part())|
      ensures Part() == FL.Write(old(Part()), bno - partOff, data)
      ensures Before() == old(Before())
    {
      var off := bno * BLOCK;
      if off + BLOCK > image.Length {
        return false;
      }
      forall k | 0 <= k < BLOCK {
        image[off + k] := data[k];
      }
      PartUpdated(old(image[..]), image[..], bno - partOff, data);
      return true;
    }

    lemma PartUpdated(a: seq<byte>, b: seq<byte>, rel: nat, data: Block)
      requires |a| == |b| && (partOff + rel + 1) * BLOCK <= |a|
      requires forall k :: 0 <= k < |a| ==>
        b[k] == if (partOff + rel) * BLOCK <= k < (partOff + rel + 1) * BLOCK then data[k - (partOff + rel) * BLOCK]
                else a[k]
      ensures rel < |PartOf(a, partOff)|
      ensures PartOf(b, partOff) == PartOf(a, partOff)[rel := data]
    {
      var p, q := PartOf(a, partOff), PartOf(b, partOff);
      assert partOff + rel < |a| / BLOCK;
      forall i | 0 <= i < |q|
        ensures q[i] == if i == rel then data else p[i]
      {
        var lo := (partOff + i) * BLOCK;
        forall k | 0 <= k < BLOCK
          ensures q[i][k] == if i == rel then data[k] else p[i][k]
        {
          assert q[i][k] == b[lo + k] && p[i][k] == a[lo + k];
        }
      }
    }

    // ----- free list ---------------------------------------------------------------

    method AllocBlock(now: nat) returns (ok: bool, b: nat)
      modifies image
      ensures FL.AllocResult(Part(), ok, b) == FL.AllocBlock(old(Part()), now)
      ensures Before() == old(Before())
    {
      hide Get16, Get32, FL.Words, FL.Touch, FL.SetNfree, FL.SetTfree, FL.LoadFree, FL.Read, FL.Write, FL.Nfree,
           FL.Isize,
           FL.Fsize, FL.Tfree, FL.ChainNfree, PartOf;
      var sb := ReadBlock(partOff + FL.SUPER);
      var nfree := FL.Nfree(sb);
      if nfree <= 0 || FL.SB_FREE + 4 * nfree > BLOCK {
        return false, 0;
      }
      nfree := nfree - 1;
      b := Get32(sb, FL.SB_FREE + 4 * nfree);
      if b == 0 {
        sb := FL.SetNfree(sb, 0);
        var _ := WriteBlock(partOff + FL.SUPER, sb);
        return false, 0;
      }
      var isize, fsize := FL.Isize(sb), FL.Fsize(sb);
      if nfree == 0 {
        if b < isize || b >= fsize {
          return false, 0;
        }
        var fblk := ReadBlock(partOff + b);
        var chainN := FL.ChainNfree(fblk);
        if chainN < 0 || chainN > FL.NICFREE {
          return false, 0;
        }
        sb := FL.SetNfree(FL.LoadFree(sb, fblk), chainN);
      } else {
        sb := FL.SetNfree(sb, nfree);
      }
      if b < isize || b >= fsize {
        return false, 0;
      }
      var tfree := FL.Tfree(sb);
      if tfree > 0 {
        sb := FL.SetTfree(sb, tfree - 1);
      }
      sb := FL.Touch(sb, now);
      var _ := WriteBlock(partOff + FL.SUPER, sb);
      return true, b;
    }

    method FreeBlock(b: nat, now: nat) returns (ok: bool)
      modifies image
      ensures FL.FreeResult(Part(), ok) == FL.FreeBlock(old(Part()), b, now)
      ensures Before() == old(Before())
    {
      hide Get16, Get32, FL.Words, FL.Touch, FL.SetNfree, FL.SetTfree, FL.SetFree, FL.Spill, PartOf;
      if b == 0 {
        return false;
      }
      var sb := ReadBlock(partOff + FL.SUPER);
      if b < FL.Isize(sb) || b >= FL.Fsize(sb) {
        return false;
      }
      var nfree := FL.Nfree(sb);
      if nfree < 0 || nfree > FL.NICFREE {
        return false;
      }
      if nfree == FL.NICFREE {
        var spilled := WriteBlock(partOff + b, FL.Spill(sb));
        if !spilled {
          return false;
        }
        nfree := 0;
      }
      sb := FL.SetFree(sb, nfree, b);
      sb := FL.SetNfree(sb, nfree + 1);
      sb := FL.SetTfree(sb, FL.Tfree(sb) + 1);
      sb := FL.Touch(sb, now);
      var _ := WriteBlock(partOff + FL.SUPER, sb);
      return true;
    }

    // ----- growing --------------------------------------------------------------------

    /** Allocate a block, zero it if it is to be an indirect block, and enter it. */
    method LinkFresh(node: nat, slot: nat, zero: bool, now: nat) returns (ok: bool, b: nat)
      requires slot < FANOUT
      modifies image
      ensures GR.Ensured(Part(), ok, b) == GR.LinkFresh(old(Part()), node, slot, zero, now)
      ensures Before() == old(Before())
    {
      hide Get16, Get32, FL.AllocBlock, FL.Read, SetEntry, Entry, ZeroBlock, PartOf;
      ghost var d := Part();
      var blk := ReadBlock(partOff + node);
      ok, b := AllocBlock(now);
      assert Part() == FL.AllocBlock(d, now).d;
      if !ok {
        return false, 0;
      }
      if zero {
        var zeroed := WriteBlock(partOff + b, ZeroBlock());
        if !zeroed {
          return false, 0;
        }
      }
      blk := SetEntry(blk, slot, b);
      ok := WriteBlock(partOff + node, blk);
      if !ok {
        return false, 0;
      }
    }

    method EnsureIndirectChild(node: nat, depth: nat, coords: seq<nat>, now: nat) returns (ok: bool, b: nat)
      requires depth >= 1 && BT.GoodPath(coords, depth)
      modifies image
      ensures GR.Ensured(Part(), ok, b) == GR.EnsureChild(old(Part()), node, depth, coords, now)
      ensures Before() == old(Before())
      decreases depth, 0
    {
      hide Get16, Get32, Entry, FL.Read, GR.LinkFresh, PartOf;
      var blk := ReadBlock(partOff + node);
      var slot := coords[0];
      var cur := Entry(blk, slot);
      if cur == 0 {
        ok, cur := LinkFresh(node, slot, depth > 1, now);
        if !ok {
          return false, cur;
        }
      }
      if depth == 1 {
        return true, cur;
      }
      ok, b := EnsureIndirectChild(cur, depth - 1, coords[1..], now);
    }

    method EnsureDataBlock(inode: MemInode, idx: nat, now: nat) returns (ok: bool, b: nat)
      modifies image, inode`addrs
      ensures GR.Mapped(Part(), inode.addrs, ok, b) == GR.EnsureData(old(Part()), old(inode.addrs), idx, now)
      ensures Before() == old(Before())
    {
      hide FL.AllocBlock, GR.EnsureChild, PartOf, ClassifyIndex;
      ClassifySound(idx);
      var c := ClassifyIndex(idx);
      if c.TooLarge? {
        return false, 0;
      }
      if c.depth == 0 {
        if inode.addrs[c.slot] == 0 {
          ok, b := AllocBlock(now);
          if !ok {
            return false, 0;
          }
          inode.addrs := inode.addrs[c.slot := b];
        }
        return true, inode.addrs[c.slot];
      }
      if inode.addrs[c.slot] == 0 {
        ok, b := AllocBlock(now);
        if !ok {
          return false, 0;
        }
        inode.addrs := inode.addrs[c.slot := b];
        var zeroed := WriteBlock(partOff + b, ZeroBlock());
        if !zeroed {
          return false, 0;
        }
      }
      ok, b := EnsureIndirectChild(inode.addrs[c.slot], c.depth, c.coords, now);
    }

    method GrowToNBlocks(inode: MemInode, n: nat, now: nat) returns (ok: bool, blocks: seq<nat>)
      modifies image, inode`addrs
      ensures var r := GR.GrowFrom(old(Part()), old(inode.addrs), 0, n, now);
        && Part() == r.d && inode.addrs == r.addrs && ok == r.ok
        && (ok ==> blocks == r.blocks)
      ensures Before() == old(Before())
    {
      hide GR.EnsureData, PartOf;
      blocks := [];
      ghost var whole := GR.GrowFrom(Part(), inode.addrs, 0, n, now);
      for i := 0 to n
        invariant Before() == old(Before())
        invariant var r := GR.GrowFrom(Part(), inode.addrs, i, n, now);
          && whole.d == r.d && whole.addrs == r.addrs && whole.ok == r.ok
          && (r.ok ==> whole.blocks == blocks + r.blocks)
      {
        var b;
        ok, b := EnsureDataBlock(inode, i, now);
        if !ok {
          return false, [];
        }
        blocks := blocks + [b];
      }
      return true, blocks;
    }

    // ----- shrinking -------------------------------------------------------------------

    method ShrinkIndirect(node: nat, depth: nat, keep: nat, now: nat) returns (ok: bool, empty: bool)
      requires depth >= 1
      modifies image
      ensures SH.Shrunk(Part(), ok, empty) == SH.ShrinkIndirect(old(Part()), node, depth, keep, now)
      ensures Before() == old(Before())
      decreases depth, 0
    {
      hide Entry, SetEntry, SH.ShrinkEntry, PartOf;
      var work := ReadBlock(partOff + node);
      var dirty, allZero := false, true;
      ghost var whole := SH.ShrinkIndirect(Part(), node, depth, keep, now);
      var slot := 0;
      while slot < FANOUT
        invariant slot <= FANOUT && Before() == old(Before())
        invariant whole == SH.ShrinkSlots(Part(), node, work, slot, depth, keep, dirty, allZero, now)
      {
        var entry := Entry(work, slot);
        if entry != 0 {
          ok, empty := ShrinkEntry(entry, slot, depth, keep, now);
          if !ok {
            return;
          }
          if empty {
            work := SetEntry(work, slot, 0);
            dirty := true;
          } else {
            allZero := false;
          }
        }
        slot := slot + 1;
      }
      if dirty && !allZero {
        ok := WriteBlock(partOff + node, work);
        return ok, false;
      }
      return true, allZero;
    }

    method ShrinkEntry(entry: nat, slot: nat, depth: nat, keep: nat, now: nat) returns (ok: bool, empty: bool)
      requires depth >= 1
      modifies image
      ensures SH.Shrunk(Part(), ok, empty) == SH.ShrinkEntry(old(Part()), entry, slot, depth, keep, now)
      ensures Before() == old(Before())
      decreases depth - 1, 1
    {
      hide FL.FreeBlock, SH.ShrinkIndirect, PartOf, PR.KeepBelow;
      if depth == 1 {
        if slot < keep {
          return true, false;
        }
      } else if (slot + 1) * BT.Span(depth - 1) <= keep {
        return true, false;
      } else {
        ok, empty := ShrinkIndirect(entry, depth - 1, PR.KeepBelow(depth, slot, keep), now);
        if !ok || !empty {
          return;
        }
      }
      ok := FreeBlock(entry, now);
      empty := ok;
    }

    method ShrinkToNBlocks(inode: MemInode, n: nat, now: nat) returns (ok: bool)
      modifies image, inode`addrs
      ensures SH.FileShrunk(Part(), inode.addrs, ok) == SH.ShrinkFrom(old(Part()), old(inode.addrs), 0, n, now)
      ensures Before() == old(Before())
    {
      hide FL.FreeBlock, SH.ShrinkIndirect, PartOf, PR.KeepOf;
      ghost var whole := SH.ShrinkFrom(Part(), inode.addrs, 0, n, now);
      SkipKept(Part(), inode.addrs, 0, n, now);
      var i := Min(n, NDIRECT);
      while i < NDIRECT
        invariant Min(n, NDIRECT) <= i <= NDIRECT
        invariant Before() == old(Before())
        invariant whole == SH.ShrinkFrom(Part(), inode.addrs, i, n, now)
      {
        if inode.addrs[i] != 0 {
          ok := FreeBlock(inode.addrs[i], now);
          if !ok {
            return;
          }
          inode.addrs := inode.addrs[i := 0];
        }
        i := i + 1;
      }
      while i < NADDR
        invariant NDIRECT <= i <= NADDR && Before() == old(Before())
        invariant whole == SH.ShrinkFrom(Part(), inode.addrs, i, n, now)
      {
        var root := inode.addrs[i];
        if root != 0 {
          var empty;
          ok, empty := ShrinkIndirect(root, DepthOf(i), PR.KeepOf(i, n), now);
          if !ok {
            return;
          }
          if empty {
            ok := FreeBlock(root, now);
            if !ok {
              return;
            }
            inode.addrs := inode.addrs[i := 0];
          }
        }
        i := i + 1;
      }
      return true;
    }

    /** Slots before the cut are passed over. */
    lemma {:induction false} SkipKept(d: FL.Disk, addrs: Addrs, s: nat, n: nat, now: nat)
      requires s <= Min(n, NDIRECT)
      ensures SH.ShrinkFrom(d, addrs, s, n, now) == SH.ShrinkFrom(d, addrs, Min(n, NDIRECT), n, now)
      decreases NDIRECT - s
    {
      hide FL.FreeBlock, SH.ShrinkIndirect, PR.KeepOf, DepthOf;
      if s < Min(n, NDIRECT) { SkipKept(d, addrs, s + 1, n, now); }
    }

    // ----- inodes and file content ---------------------------------------------------------

    method StatInode(ino: nat) returns (st: Option<Inode>)
      ensures st == Stat(Part(), ino)
    {
      if ino < 1 {
        return None;
      }
      var raw := ReadBlock(partOff + BlockOf(ino));
      var i := DecodeInode(raw, OffsetOf(ino));
      return if i.mode == 0 then None else Some(i);
    }

    method WriteInode(inode: MemInode) returns (ok: bool)
      requires inode.ino >= 1
      modifies image
      ensures WriteResult(Part(), ok) == InodeTable.WriteInode(old(Part()), inode.ino, inode.Value())
      ensures Before() == old(Before())
    {
      hide EncodeInode, PartOf;
      var blk := BlockOf(inode.ino);
      var raw := ReadBlock(partOff + blk);
      ok := WriteBlock(partOff + blk, EncodeInode(raw, OffsetOf(inode.ino), inode.Value()));
    }

    method AppendHoles(span: nat, need: nat, acc: seq<int>) returns (out: seq<int>)
      requires |acc| <= need
      ensures out == acc + W.Holes(Min(span, need - |acc|))
    {
      out := acc;
      var k := 0;
      while k < span && |out| < need
        invariant k <= Min(span, need - |acc|) && out == acc + W.Holes(k)
      {
        out := out + [W.HOLE];
        k := k + 1;
      }
    }

    /** Append the logical blocks below `bno` to the list. */
    method WalkIndirect(bno: nat, depth: nat, need: nat, acc: seq<int>) returns (out: seq<int>)
      requires depth >= 1
      ensures out == W.WalkIndirect(Part(), partOff, bno, depth, need, acc)
      decreases depth, 1
    {
      hide Entry, PartOf, BT.Span, W.WalkSlots, W.Holes;
      if |acc| >= need {
        return acc;
      }
      if bno == 0 {
        out := AppendHoles(BT.Span(depth), need, acc);
        return;
      }
      var blk := ReadBlock(partOff + bno);
      out := WalkSlots(blk, depth, need, acc);
    }

    method WalkSlots(blk: Block, depth: nat, need: nat, acc: seq<int>) returns (out: seq<int>)
      requires depth >= 1
      ensures out == W.WalkSlots(Part(), partOff, blk, 0, depth, need, acc)
      decreases depth, 0
    {
      hide Entry, PartOf, W.WalkIndirect;
      out := acc;
      ghost var whole := W.WalkSlots(Part(), partOff, blk, 0, depth, need, acc);
      var i := 0;
      while i < FANOUT && |out| < need
        invariant i <= FANOUT
        invariant whole == W.WalkSlots(Part(), partOff, blk, i, depth, need, out)
      {
        var entry := Entry(blk, i);
        if depth == 1 {
          out := out + [if entry != 0 then partOff + entry else W.HOLE];
        } else {
          out := WalkIndirect(entry, depth - 1, need, out);
        }
        i := i + 1;
      }
    }

    /** Logical to absolute block list of a file. */
    method FileBlocks(inode: Inode) returns (out: seq<int>)
      ensures out == W.FileBlocks(Part(), partOff, inode.addrs, inode.size)
    {
      hide PartOf, W.WalkIndirect;
      var need := W.BlocksFor(inode.size);
      out := [];
      ghost var b0 := W.DirectBlocks(partOff, inode.addrs, 0, need, []);
      var s := 0;
      while s < NDIRECT && |out| < need
        invariant s <= NDIRECT
        invariant b0 == W.DirectBlocks(partOff, inode.addrs, s, need, out)
      {
        out := out + [if inode.addrs[s] != 0 then partOff + inode.addrs[s] else W.HOLE];
        s := s + 1;
      }
      out := WalkIndirect(inode.addrs[10], 1, need, out);
      out := WalkIndirect(inode.addrs[11], 2, need, out);
      out := WalkIndirect(inode.addrs[12], 3, need, out);
    }

    method ReadFile(inode: Inode) returns (content: seq<byte>)
      ensures content == W.ReadFile(Part(), partOff, inode.addrs, inode.size)
    {
      hide PartOf, W.FileBlocks, BT.At, W.ReadBlocks;
      var blocks := FileBlocks(inode);
      W.FileBlocksAgree(Part(), partOff, inode.addrs, inode.size);
      content := ReadListed(blocks, inode.size);
    }

    method ReadListed(blocks: seq<int>, size: nat) returns (content: seq<byte>)
      requires forall i :: 0 <= i < |blocks| ==> blocks[i] == W.HOLE || blocks[i] >= partOff
      ensures content == W.ReadBlocks(Part(), partOff, blocks, size)
    {
      hide PartOf, W.ReadBlocks;
      content := [];
      var remaining := size;
      ghost var whole := W.ReadBlocks(Part(), partOff, blocks, size);
      var i := 0;
      assert blocks[0..] == blocks;
      while i < |blocks| && remaining > 0
        invariant i <= |blocks|
        invariant whole == content + W.ReadBlocks(Part(), partOff, blocks[i..], remaining)
      {
        var blk := ZeroBlock();
        if blocks[i] != W.HOLE {
          blk := ReadBlock(blocks[i]);
        }
        var take := Min(BLOCK, remaining);
        ReadStep(Part(), blocks, i, remaining, content, blk);
        content := content + blk[..take];
        remaining := remaining - take;
        i := i + 1;
      }
      ReadDone(Part(), blocks[i..], remaining);
    }

    lemma ReadStep(d: FL.Disk, blocks: seq<int>, i: nat, remaining: nat, content: seq<byte>, blk: Block)
      requires i < |blocks| && remaining > 0 && blk == W.BlockAt(d, partOff, blocks[i])
      ensures var take := Min(BLOCK, remaining);
        content + W.ReadBlocks(d, partOff, blocks[i..], remaining)
        == (content + blk[..take]) + W.ReadBlocks(d, partOff, blocks[i + 1..], remaining - take)
    {
      hide W.BlockAt;
      var take := Min(BLOCK, remaining);
      assert blocks[i..][1..] == blocks[i + 1..];
      var rest := W.ReadBlocks(d, partOff, blocks[i + 1..], remaining - take);
      assert W.ReadBlocks(d, partOff, blocks[i..], remaining) == blk[..take] + rest;
      assert content + (blk[..take] + rest) == (content + blk[..take]) + rest;
    }

    lemma ReadDone(d: FL.Disk, blocks: seq<int>, remaining: nat)
      requires blocks == [] || remaining == 0
      ensures W.ReadBlocks(d, partOff, blocks, remaining) == []
    {
    }

    method WriteFile(inode: MemInode, data: seq<byte>, now: nat) returns (ok: bool)
      requires inode.ino >= 1
      modifies image, inode
      ensures IO.FileWritten(Part(), inode.Value(), ok) ==
          IO.WriteFile(old(Part()), inode.ino, old(inode.Value()), data, now)
      ensures Before() == old(Before())
    {
      hide PartOf, SH.ShrinkFrom, GR.GrowFrom, InodeTable.WriteInode;
      if !inode.Value().IsFile() {
        return false;
      }
      var nNew, nOld := W.BlocksFor(|data|), W.BlocksFor(inode.size);
      ghost var r := IO.Resize(Part(), inode.Value(), nNew, now);
      if nNew < nOld {
        ok := ShrinkToNBlocks(inode, nNew, now);
        if !ok {
          return;
        }
      }
      var blocks;
      ok, blocks := GrowToNBlocks(inode, nNew, now);
      if !ok {
        return;
      }
      ghost var c := IO.WriteChunks(Part(), blocks, data, 0);
      for i := 0 to |blocks|
        invariant inode.Value() == old(inode.Value()).(addrs := r.addrs)
        invariant Before() == old(Before())
        invariant c == IO.WriteChunks(Part(), blocks, data, i)
      {
        ok := WriteBlock(partOff + blocks[i], IO.Chunk(data, i));
        if !ok {
          return;
        }
      }
      inode.size := |data|;
      inode.atime, inode.mtime, inode.ctime := now, now, now;
      ok := WriteInode(inode);
    }

    // ----- checking and rebuilding ------------------------------------------------------------

    method WalkIndirectBlocks(bno: nat, depth: nat, need: nat, start: nat) returns (visits: seq<W.Visit>, got: nat)
      requires depth >= 1
      ensures W.Walked(visits, got) == W.VisitIndirect(Part(), bno, depth, need, start)
      decreases depth, 1, 0
    {
      hide PartOf, BT.Span, W.VisitSlots;
      visits, got := [], start;
      if got >= need {
        return;
      }
      if bno == 0 {
        got := Min(need, got + BT.Span(depth));
        return;
      }
      visits := [W.Visit(bno, true)];
      if (partOff + bno + 1) * BLOCK > image.Length {
        got := Min(need, got + BT.Span(depth));
        return;
      }
      var blk := ReadBlock(partOff + bno);
      var vs;
      vs, got := WalkSlotBlocks(blk, depth, need, got);
      visits := visits + vs;
    }

    method WalkSlotBlocks(blk: Block, depth: nat, need: nat, start: nat) returns (visits: seq<W.Visit>, got: nat)
      requires depth >= 1
      ensures W.Walked(visits, got) == W.VisitSlots(Part(), blk, 0, depth, need, start)
      decreases depth, 0, 1
    {
      hide Entry, PartOf, W.VisitEntry;
      visits, got := [], start;
      ghost var whole := W.VisitSlots(Part(), blk, 0, depth, need, start);
      var i := 0;
      while i < FANOUT && got < need
        invariant i <= FANOUT
        invariant whole == Prepend(visits, W.VisitSlots(Part(), blk, i, depth, need, got))
      {
        var vs, next := WalkEntry(Entry(blk, i), depth, need, got);
        PrependTwice(visits, vs, W.VisitSlots(Part(), blk, i + 1, depth, need, next));
        visits, got := visits + vs, next;
        i := i + 1;
      }
    }

    method WalkEntry(entry: nat, depth: nat, need: nat, start: nat) returns (visits: seq<W.Visit>, got: nat)
      requires depth >= 1
      ensures W.Walked(visits, got) == W.VisitEntry(Part(), entry, depth, need, start)
      decreases depth, 0, 0
    {
      hide PartOf, W.VisitIndirect;
      if depth == 1 {
        return if entry != 0 then [W.Visit(entry, false)] else [], start + 1;
      }
      visits, got := WalkIndirectBlocks(entry, depth - 1, need, start);
    }

    /** Visits made earlier, before those of `w`. */
    static ghost function Prepend(visits: seq<W.Visit>, w: W.Walked): W.Walked {
      W.Walked(visits + w.visits, w.got)
    }

    static lemma PrependTwice(a: seq<W.Visit>, b: seq<W.Visit>, w: W.Walked)
      ensures Prepend(a, Prepend(b, w)) == Prepend(a + b, w)
    {
      assert a + (b + w.visits) == (a + b) + w.visits;
    }

    method WalkDirectBlocks(addrs: Addrs, need: nat) returns (visits: seq<W.Visit>, got: nat)
      ensures W.Walked(visits, got) == W.VisitDirect(addrs, 0, need)
    {
      visits, got := [], 0;
      ghost var whole := W.VisitDirect(addrs, 0, need);
      while got < NDIRECT && got < need
        invariant got <= NDIRECT
        invariant whole == Prepend(visits, W.VisitDirect(addrs, got, need))
      {
        var vs := if addrs[got] == 0 then [] else [W.Visit(addrs[got], false)];
        PrependTwice(visits, vs, W.VisitDirect(addrs, got + 1, need));
        visits := visits + vs;
        got := got + 1;
      }
    }

    method WalkInodeBlocks(inode: Inode) returns (visits: seq<W.Visit>)
      ensures visits == W.WalkInode(Part(), inode.addrs, inode.size).visits
    {
      hide PartOf, W.VisitIndirect, W.VisitDirect;
      var need := W.BlocksFor(inode.size);
      if need == 0 {
        return [];
      }
      var got, vs;
      visits, got := WalkDirectBlocks(inode.addrs, need);
      vs, got := WalkIndirectBlocks(inode.addrs[10], 1, need, got);
      visits := visits + vs;
      vs, got := WalkIndirectBlocks(inode.addrs[11], 2, need, got);
      visits := visits + vs;
      vs, got := WalkIndirectBlocks(inode.addrs[12], 3, need, got);
      visits := visits + vs;
    }

    /** Account for one inode's visits. */
    method VisitAll(scan: FS.Scan, ino: nat, visits: seq<W.Visit>, ghost start: FS.Scan, ghost before: seq<FS.Claim>)
      returns (s: FS.Scan)
      requires scan == FS.VisitClaims(start, before)
      ensures s == FS.VisitClaims(start, before + FS.ClaimList(ino, visits))
    {
      hide FS.VisitBlock;
      s := scan;
      ghost var mine := FS.ClaimList(ino, visits);
      assert before + mine[..0] == before;
      for i := 0 to |visits|
        invariant s == FS.VisitClaims(start, before + mine[..i])
      {
        s := FS.VisitBlock(s, FS.Claim(ino, visits[i].rel));
        ghost var upTo := before + mine[..i + 1];
        assert upTo[..|upTo| - 1] == before + mine[..i] && upTo[|upTo| - 1] == mine[i];
      }
      assert mine[..|visits|] == mine;
    }

    /** Scan the inode table; the image is only read. */
    method CheckBlocks() returns (rep: Option<FS.Report>)
      ensures rep == FS.CheckBlocks(Part())
    {
      hide PartOf, W.WalkInode, FS.VisitClaims, FS.ClaimList, Stat, Get16, Get32;
      var sb := ReadBlock(partOff + FL.SUPER);
      if !FS.Plausible(sb) {
        return None;
      }
      var nino := FS.InodeCount(sb);
      var s, freeInodes := FS.StartScan(sb), 0;
      assert s == FS.VisitClaims(FS.StartScan(sb), []) by { FS.NoClaims(s); }
      for ino := 1 to nino + 1
        invariant s == FS.VisitClaims(FS.StartScan(sb), FS.Claims(Part(), ino - 1))
        invariant freeInodes == FS.FreeInodes(Part(), ino - 1)
      {
        var st := StatInode(ino);
        if st.None? {
          freeInodes := freeInodes + 1;
        }
        if st.Some? && (st.value.IsFile() || st.value.IsDir()) {
          var visits := WalkInodeBlocks(st.value);
          s := VisitAll(s, ino, visits, FS.StartScan(sb), FS.Claims(Part(), ino - 1));
        } else {
          assert FS.Claims(Part(), ino - 1) + [] == FS.Claims(Part(), ino - 1);
        }
      }
      rep := Some(FS.Report(s, freeInodes, FL.Fsize(sb) - FL.Isize(sb) - s.usedBlocks));
    }

    /** Free every block of [lo, hi) not in use, from the highest down. */
    method FreeUnused(hi: nat, lo: nat, used: set<nat>, now: nat) returns (ok: bool)
      requires lo <= hi
      modifies image
      ensures FS.Freed(Part(), ok) == FS.FreeDown(old(Part()), hi, lo, used, now)
      ensures Before() == old(Before())
    {
      hide PartOf, FL.FreeBlock;
      ghost var whole := FS.FreeDown(Part(), hi, lo, used, now);
      var b := hi;
      while b > lo
        invariant lo <= b && Before() == old(Before())
        invariant whole == FS.FreeDown(Part(), b, lo, used, now)
      {
        b := b - 1;
        if b !in used {
          ok := FreeBlock(b, now);
          if !ok {
            return;
          }
        }
      }
      return true;
    }

    /** Add the in-range blocks among one inode's visits. */
    method AddUsed(seen: set<nat>, ino: nat, visits: seq<W.Visit>, lo: nat, hi: nat) returns (used: set<nat>)
      ensures used == seen + FS.InRange(FS.ClaimList(ino, visits), lo, hi)
    {
      used := seen;
      ghost var mine := FS.ClaimList(ino, visits);
      for i := 0 to |visits|
        invariant used == seen + FS.InRange(mine[..i], lo, hi)
      {
        FS.InRangeConcat(mine[..i], [mine[i]], lo, hi);
        assert mine[..i + 1] == mine[..i] + [mine[i]];
        FS.InRangeOne(mine[i], lo, hi);
        if lo <= visits[i].rel < hi {
          used := used + {visits[i].rel};
        }
      }
      assert mine[..|visits|] == mine;
    }

    /** The second scan, which gathers the blocks in use. */
    method CollectUsed() returns (used: set<nat>)
      ensures used == FS.UsedBlocks(Part())
    {
      hide PartOf, W.WalkInode, FS.InRange, FS.ClaimList, Stat, Get16, Get32;
      var sb := ReadBlock(partOff + FL.SUPER);
      var lo, hi := FL.Isize(sb), FL.Fsize(sb);
      used := {};
      FS.InRangeNone(lo, hi);
      for ino := 1 to FS.InodeCount(sb) + 1
        invariant used == FS.InRange(FS.Claims(Part(), ino - 1), lo, hi)
      {
        var st := StatInode(ino);
        FS.InRangeConcat(FS.Claims(Part(), ino - 1), FS.ClaimsOf(Part(), ino), lo, hi);
        if st.Some? && (st.value.IsFile() || st.value.IsDir()) {
          var visits := WalkInodeBlocks(st.value);
          used := AddUsed(used, ino, visits, lo, hi);
        } else {
          FS.InRangeNone(lo, hi);
        }
      }
    }

    method RebuildFreeList(now: nat) returns (ok: bool, rep: Option<FS.Report>)
      modifies image
      ensures FS.Rebuilt(Part(), ok, rep) == FS.Rebuild(old(Part()), now)
      ensures Before() == old(Before())
    {
      hide PartOf, FS.CheckBlocks, FS.ResetSuper, FS.FreeDown, FS.UsedBlocks, FS.Accounts, FL.Isize, FL.Fsize;
      rep := CheckBlocks();
      if rep.None? {
        return false, None;
      }
      FS.CheckExact(Part());
      var sb := ReadBlock(partOff + FL.SUPER);
      var used := CollectUsed();
      var _ := WriteBlock(partOff + FL.SUPER, FS.ResetSuper(sb, rep.value.freeInodes, now));
      ok := FreeUnused(FL.Fsize(sb), FL.Isize(sb), used, now);
    }
  }
}
