/** Replacing a file's content: cut, grow, write the data blocks, write the inode. */
module FileIo {
  import opened Basics
  import opened Bytes
  import opened FreeList
  import opened BlockTree
  import opened FileMap
  import opened Prune
  import opened Grow
  import opened Shrink
  import opened Demand
  import opened OpenGrow
  import opened InodeTable
  import W = Walk

  /** 512 bytes of the data, padded with zeroes. */
  function Chunk(data: seq<byte>, i: nat): (r: Block)
    ensures forall k :: 0 <= k < BLOCK ==> r[k] == if i * BLOCK + k < |data| then data[i * BLOCK + k] else 0
  {
    seq(BLOCK, k requires 0 <= k < BLOCK => if i * BLOCK + k < |data| then data[i * BLOCK + k] else 0)
  }

  datatype ChunksResult = ChunksResult(d: Disk, ok: bool)

  /** Write chunks i and up to their blocks. */
  function WriteChunks(d: Disk, blocks: seq<nat>, data: seq<byte>, i: nat): ChunksResult
    requires i <= |blocks|
    decreases |blocks| - i
  {
    if i == |blocks| then ChunksResult(d, true)
    else if blocks[i] >= |d| then ChunksResult(d, false)
    else WriteChunks(d[blocks[i] := Chunk(data, i)], blocks, data, i + 1)
  }

  datatype FileWritten = FileWritten(d: Disk, inode: Inode, ok: bool)

  /** The part of writing that fixes which blocks the file has. */
  function Resize(d: Disk, inode: Inode, nNew: nat, now: nat): GrowResult {
    var s := if nNew < W.BlocksFor(inode.size) then ShrinkFrom(d, inode.addrs, 0, nNew, now)
             else FileShrunk(d, inode.addrs, true);
    if !s.ok then GrowResult(s.d, s.addrs, false, []) else GrowFrom(s.d, s.addrs, 0, nNew, now)
  }

  function WriteFile(d: Disk, ino: nat, inode: Inode, data: seq<byte>, now: nat): FileWritten
    requires ino >= 1
  {
    if !inode.IsFile() then FileWritten(d, inode, false) else
    var g := Resize(d, inode, W.BlocksFor(|data|), now);
    var i1 := inode.(addrs := g.addrs);
    if !g.ok then FileWritten(g.d, i1, false) else
    var c := WriteChunks(g.d, g.blocks, data, 0);
    if !c.ok then FileWritten(c.d, i1, false) else
    var i2 := i1.(size := |data|, atime := now, mtime := now, ctime := now);
    var w := WriteInode(c.d, ino, i2);
    FileWritten(w.d, i2, w.ok)
  }

  // ----- what an operation on one file may do --------------------------------------

  /** A file's inode record lies in the inode table. */
  ghost predicate InTable(d: Disk, ino: nat) {
    Geometry(d) && ino >= 1 && BlockOf(ino) < Isize(d[SUPER])
  }

  /** From `d` to `e` the blocks of one file and the free list are redistributed
      among themselves, and nothing outside them, the superblock and the file's own
      inode record is written. */
  ghost predicate FileStep(d: Disk, addrs: Addrs, e: Disk, addrs': Addrs, ino: nat)
    requires ino >= 1
  {
    var m, m' := MsAll(Forest(d, addrs)), MsAll(Forest(e, addrs'));
    && FreeOk(d) && SameShape(d, e) && FileReady(e, addrs')
    && m' + multiset(FreeOf(e)) == m + multiset(FreeOf(d))
    && (forall x: nat :: x != SUPER && x != BlockOf(ino) && x !in m && x !in FreeOf(d) ==> Read(e, x) == Read(d, x))
    && OtherInodes(d, e, ino)
  }

  /** Every other inode in the table is as it was. */
  ghost predicate OtherInodes(d: Disk, e: Disk, ino: nat) {
    forall other: nat :: InTable(d, other) && other != ino ==> Stat(e, other) == Stat(d, other)
  }

  lemma TableFrame(d: Disk, e: Disk, ino: nat)
    requires Geometry(d) && forall x: nat :: x != SUPER && x < Isize(d[SUPER]) ==> Read(e, x) == Read(d, x)
    ensures OtherInodes(d, e, ino)
  {
    hide Stat;
    forall other: nat | InTable(d, other) && other != ino
      ensures Stat(e, other) == Stat(d, other)
    {
      StatFrame(d, e, other);
    }
  }

  lemma FileStepTrans(d: Disk, a: Addrs, e: Disk, b: Addrs, f: Disk, c: Addrs, ino: nat)
    requires ino >= 1 && FileStep(d, a, e, b, ino) && FileStep(e, b, f, c, ino)
    ensures FileStep(d, a, f, c, ino)
  {
    hide FreeOk, FreeOf, MsAll, Forest, FileReady, Stat;
    assert forall other: nat :: InTable(d, other) ==> InTable(e, other);
    var m, m' := MsAll(Forest(d, a)), MsAll(Forest(e, b));
    forall x: nat | x != SUPER && x != BlockOf(ino) && x !in m && x !in FreeOf(d)
      ensures Read(f, x) == Read(d, x)
    {
      assert x !in m + multiset(FreeOf(d));
      assert x !in m' + multiset(FreeOf(e));
    }
  }

  lemma GrowIsStep(d: Disk, addrs: Addrs, n: nat, now: nat, ino: nat)
    requires ino >= 1 && FileReady(d, addrs)
    ensures var r := GrowFrom(d, addrs, 0, n, now); FileStep(d, addrs, r.d, r.addrs, ino)
  {
    hide FreeRep, FreeOf, NoDup, MsAll, NodesAll, GrowFrom, FileAt;
    GrowSound(d, addrs, 0, n, now);
    var r := GrowFrom(d, addrs, 0, n, now);
    var f, f' := Forest(d, addrs), Forest(r.d, r.addrs);
    GrownReady(d, NodesAll(f), MsAll(f), r.d, NodesAll(f'), MsAll(f'));
    NodesAllInMs(f);
    FreeWithin(d);
    TableFrame(d, r.d, ino);
  }

  lemma NodesAllInMs(ts: seq<Tree>)
    ensures forall x :: x in NodesAll(ts) ==> x in MsAll(ts)
  {
    forall x | x in NodesAll(ts)
      ensures x in MsAll(ts)
    {
      var i := NodesFrom(ts, x);
      NodesInMs(ts[i], x);
      MsSplit(ts, i);
      assert MsAll(ts)[x] >= Ms(ts[i])[x];
    }
  }

  lemma ShrinkIsStep(d: Disk, addrs: Addrs, n: nat, now: nat, ino: nat)
    requires ino >= 1 && FileReady(d, addrs) && CanFree(d, FreedForest(Forest(d, addrs), 0, n))
    ensures var r := ShrinkFrom(d, addrs, 0, n, now); FileStep(d, addrs, r.d, r.addrs, ino)
  {
    hide FreeRep, FreeOf, NoDup, MsAll, NodesAll, ShrinkFrom, FileAt, FreedForest, CanFree, Reverse;
    ShrinkSound(d, addrs, n, now);
    var r := ShrinkFrom(d, addrs, 0, n, now);
    var f, f' := Forest(d, addrs), Forest(r.d, r.addrs);
    var fs := FreedForest(f, 0, n);
    NodesAllInMs(f);
    ReverseMultiset(fs);
    forall x | x in fs
      ensures x in MsAll(f)
    {
      assert x in multiset(fs);
      assert (MsAll(f') + multiset(fs))[x] == MsAll(f)[x];
    }
    forall x
      ensures (MsAll(f') + multiset(FreeOf(r.d)))[x] == (MsAll(f) + multiset(FreeOf(d)))[x]
    {
      assert (MsAll(f') + multiset(fs))[x] == MsAll(f)[x];
    }
    FreeWithin(d);
    TableFrame(d, r.d, ino);
  }

  // ----- the data blocks ---------------------------------------------------------------

  lemma {:induction false} ChunksWritten(d: Disk, blocks: seq<nat>, data: seq<byte>, i: nat)
    requires i <= |blocks| && Distinct(blocks) && Within(blocks, 0, |d|)
    ensures var r := WriteChunks(d, blocks, data, i);
      && r.ok && |r.d| == |d|
      && (forall j: nat :: i <= j < |blocks| ==> Read(r.d, blocks[j]) == Chunk(data, j))
      && (forall x: nat :: x !in blocks[i..] ==> Read(r.d, x) == Read(d, x))
    decreases |blocks| - i
  {
    if i < |blocks| {
      var e := d[blocks[i] := Chunk(data, i)];
      ChunksWritten(e, blocks, data, i + 1);
      assert blocks[i..] == [blocks[i]] + blocks[i + 1..];
    }
  }

  /** The blocks of a growth that went through are distinct data blocks of the file. */
  lemma GrownBlocks(d: Disk, addrs: Addrs, blocks: seq<nat>)
    requires FileHeld(d, addrs)
    requires forall j: nat :: j < |blocks| ==> FileAt(Forest(d, addrs), j) == blocks[j] != 0
    ensures Distinct(blocks) && Within(blocks, Isize(d[SUPER]), |d|)
    ensures forall x :: x in blocks ==> x in MsAll(Forest(d, addrs)) && x !in NodesAll(Forest(d, addrs))
  {
    hide NoDup, MsAll, NodesAll, FileAt;
    var f := Forest(d, addrs);
    forall j: nat | j < |blocks|
      ensures Isize(d[SUPER]) <= blocks[j] < |d| && blocks[j] in MsAll(f) && blocks[j] !in NodesAll(f)
    {
      FileBlockIn(f, j);
    }
    forall i, j | 0 <= i < j < |blocks|
      ensures blocks[i] != blocks[j]
    {
      FileBlocksDiffer(d, addrs, i, j);
    }
  }

  /** Writing the data blocks and the inode record leaves the file's block map as it is. */
  lemma PayloadFrame(d: Disk, addrs: Addrs, blocks: seq<nat>, ino: nat, e: Disk)
    requires FileHeld(d, addrs) && InTable(d, ino)
    requires forall x :: x in blocks ==> x in MsAll(Forest(d, addrs)) && x !in NodesAll(Forest(d, addrs))
    requires |e| == |d| && forall x: nat :: x !in blocks && x != BlockOf(ino) ==> Read(e, x) == Read(d, x)
    ensures Forest(e, addrs) == Forest(d, addrs) && e[SUPER] == d[SUPER]
  {
    hide NoDup, MsAll, NodesAll;
    NodesAllInMs(Forest(d, addrs));
    assert Read(e, SUPER) == Read(d, SUPER);
    ForestFrame(d, e, addrs);
  }

  // ----- writing a file -------------------------------------------------------------------

  /** The block map once the cut that precedes a smaller write is made. */
  ghost function CutMap(d: Disk, inode: Inode, n: nat): (f: seq<Tree>)
    ensures |f| == NADDR
  {
    var f := Forest(d, inode.addrs);
    if n < W.BlocksFor(inode.size) then PruneForest(f, 0, n) else f
  }

  /** The blocks that cut gives back, in the order they are freed. */
  ghost function CutFreed(d: Disk, inode: Inode, n: nat): seq<nat> {
    if n < W.BlocksFor(inode.size) then FreedForest(Forest(d, inode.addrs), 0, n) else []
  }

  /** The blocks the new length still needs then, and the blocks there are for it: those the
      cut gave back and those that were free. */
  ghost function Wanted(d: Disk, inode: Inode, n: nat): nat { FileMissing(CutMap(d, inode, n), n) }

  ghost function Supply(d: Disk, inode: Inode, n: nat): nat
    requires FreeOk(d)
  {
    |CutFreed(d, inode, n)| + |FreeOf(d)|
  }

  /** The cut leaves a well-formed free list (see `Shrink.CanFree`). */
  ghost predicate CanResize(d: Disk, inode: Inode, n: nat) {
    CanFree(d, CutFreed(d, inode, n))
  }

  /** The cut leaves a well-formed free list, or no block past its end is asked for. */
  ghost predicate Enough(d: Disk, inode: Inode, n: nat)
    requires FreeOk(d)
  {
    CanResize(d, inode, n) || Wanted(d, inode, n) <= Supply(d, inode, n)
  }

  /** The new length fits: it is within the triple-indirect limit, there are blocks for it, and
      should every one of them be needed, the last can be taken. */
  ghost predicate Fitting(d: Disk, inode: Inode, n: nat)
    requires FreeOk(d)
  {
    && n <= MAXBLOCKS && Wanted(d, inode, n) <= Supply(d, inode, n)
    && (CanResize(d, inode, n) || Wanted(d, inode, n) < Supply(d, inode, n) || Loads(d, CutFreed(d, inode, n)[0]))
  }

  /** The file's first blocks are exactly `blocks`, with no hole. */
  ghost predicate MappedTo(d: Disk, addrs: Addrs, blocks: seq<nat>) {
    forall j: nat :: j < |blocks| ==> FileAt(Forest(d, addrs), j) == blocks[j] != 0
  }

  /** As `FileStep`, with `left` what is left of the free list, well formed or not. */
  ghost predicate Redistributed(d: Disk, addrs: Addrs, e: Disk, addrs': Addrs, ino: nat, left: seq<nat>)
    requires ino >= 1
  {
    var m, m' := MsAll(Forest(d, addrs)), MsAll(Forest(e, addrs'));
    && FreeOk(d) && SameShape(d, e) && FileHeld(e, addrs')
    && m' + multiset(left) == m + multiset(FreeOf(d))
    && (forall x: nat :: x != SUPER && x != BlockOf(ino) && x !in m && x !in FreeOf(d) ==> Read(e, x) == Read(d, x))
    && OtherInodes(d, e, ino)
  }

  /** Fixing which blocks a file has succeeds exactly when the new length fits, and then the
      first blocks are mapped and every block is accounted for. If the cut left the free list
      well formed it still is; otherwise it is not. */
  lemma ResizeSound(d: Disk, inode: Inode, n: nat, now: nat, ino: nat)
    requires ino >= 1 && FileReady(d, inode.addrs) && Enough(d, inode, n)
    ensures var r := Resize(d, inode, n, now);
      && (r.ok <==> Fitting(d, inode, n))
      && (r.ok ==> |r.blocks| == n && MappedTo(r.d, r.addrs, r.blocks)
                   && exists left :: |left| == Supply(d, inode, n) - Wanted(d, inode, n)
                                  && Redistributed(d, inode.addrs, r.d, r.addrs, ino, left)
                                  && (CanResize(d, inode, n) || Irregular(r.d, left)))
      && (CanResize(d, inode, n) ==>
            && FileStep(d, inode.addrs, r.d, r.addrs, ino)
            && (!r.ok ==> n > MAXBLOCKS || FreeOf(r.d) == []))
      && (!CanResize(d, inode, n) ==> !FreeOk(r.d))
  {
    if CanResize(d, inode, n) { RegularResize(d, inode, n, now, ino); } else { OpenResize(d, inode, n, now, ino); }
  }

  lemma RegularResize(d: Disk, inode: Inode, n: nat, now: nat, ino: nat)
    requires ino >= 1 && FileReady(d, inode.addrs) && CanResize(d, inode, n)
    ensures var r := Resize(d, inode, n, now);
      && FileStep(d, inode.addrs, r.d, r.addrs, ino)
      && (r.ok <==> Fitting(d, inode, n)) && (!r.ok ==> n > MAXBLOCKS || FreeOf(r.d) == [])
      && (r.ok ==> |r.blocks| == n && MappedTo(r.d, r.addrs, r.blocks)
                   && |FreeOf(r.d)| == Supply(d, inode, n) - Wanted(d, inode, n)
                   && Redistributed(d, inode.addrs, r.d, r.addrs, ino, FreeOf(r.d)))
  {
    hide FreeRep, FreeOf, NoDup, MsAll, NodesAll, ShrinkFrom, GrowFrom, FileAt, FreedForest, PruneForest,
         CanFree, Reverse, Forest, FileStep, FileReady, FileMissing, Released, Redistributed, Loads, Grown;
    var s := FileShrunk(d, inode.addrs, true);
    if n < W.BlocksFor(inode.size) {
      ShrinkSound(d, inode.addrs, n, now);
      ShrinkIsStep(d, inode.addrs, n, now, ino);
      s := ShrinkFrom(d, inode.addrs, 0, n, now);
    }
    assert FileReady(s.d, s.addrs);
    GrowSound(s.d, s.addrs, 0, n, now);
    GrowsExactly(s.d, s.addrs, n, now);
    GrowIsStep(s.d, s.addrs, n, now, ino);
    var r := GrowFrom(s.d, s.addrs, 0, n, now);
    if n < W.BlocksFor(inode.size) {
      FileStepTrans(d, inode.addrs, s.d, s.addrs, r.d, r.addrs, ino);
    }
    StepKeeps(s.d, s.addrs, r.d, r.addrs, ino);
    StepRedistributes(d, inode.addrs, r.d, r.addrs, ino);
  }

  lemma ReadyHeld(d: Disk, addrs: Addrs)
    requires FileReady(d, addrs)
    ensures FileHeld(d, addrs)
  {
    hide MsAll, NoDup, FreeRep;
    FreeWithin(d);
    FileNoDup(d, addrs);
  }

  lemma StepRedistributes(d: Disk, addrs: Addrs, e: Disk, addrs': Addrs, ino: nat)
    requires ino >= 1 && FileStep(d, addrs, e, addrs', ino)
    ensures FreeOk(e) && Redistributed(d, addrs, e, addrs', ino, FreeOf(e))
  {
    hide FreeOf, MsAll, Forest, FileReady, OtherInodes, FreeRep;
    StepKeeps(d, addrs, e, addrs', ino);
    ReadyHeld(e, addrs');
  }

  /** The cut spoils the list: there was no entry, and what is freed first becomes its bottom. */
  lemma OpenResize(d: Disk, inode: Inode, n: nat, now: nat, ino: nat)
    requires ino >= 1 && FileReady(d, inode.addrs)
    requires !CanResize(d, inode, n) && Wanted(d, inode, n) <= Supply(d, inode, n)
    ensures var r := Resize(d, inode, n, now);
      && (r.ok <==> Fitting(d, inode, n)) && !FreeOk(r.d)
      && (r.ok ==> |r.blocks| == n && MappedTo(r.d, r.addrs, r.blocks)
                   && exists left :: |left| == Supply(d, inode, n) - Wanted(d, inode, n)
                                  && Redistributed(d, inode.addrs, r.d, r.addrs, ino, left) && Irregular(r.d, left))
  {
    hide FreeRep, FreeOf, NoDup, MsAll, NodesAll, ShrinkFrom, GrowFrom, FileAt, FreedForest, PruneForest, Ended,
         LeftBy, ChainRest, Forest, FileReady, FileMissing, OpenList, FreeOk, Loads, GrownOpen, Redistributed,
         ReadyOn, Released, CanFree;
    var freed := CutFreed(d, inode, n);
    var s, M := ShrinkFrom(d, inode.addrs, 0, n, now), Reverse(freed);
    NothingToFree(d);
    SpoiledList(d, inode.addrs, n, now);
    GrowOpen(s.d, M, s.addrs, n, now);
    var r := GrowFrom(s.d, s.addrs, 0, n, now);
    if r.ok {
      var left :| |left| == |M| - Wanted(d, inode, n) && GrownOpen(s.d, s.addrs, M, r, left);
      OpenRedistributes(d, inode.addrs, n, now, ino, r, left);
    }
  }

  lemma NothingToFree(d: Disk)
    ensures CanFree(d, [])
  {
  }

  lemma {:induction false} ReverseLast(s: seq<nat>)
    ensures s != [] ==> Reverse(s)[|s| - 1] == s[0]
  {
  }

  /** After such a cut the list holds just the freed blocks, and comes down to what the first
      of them held all along. */
  lemma SpoiledList(d: Disk, addrs: Addrs, n: nat, now: nat)
    requires FileReady(d, addrs)
    requires var freed := FreedForest(Forest(d, addrs), 0, n); !CanFree(d, freed)
    ensures var s := ShrinkFrom(d, addrs, 0, n, now);
            var freed := FreedForest(Forest(d, addrs), 0, n);
            var M := Reverse(freed);
      && FreeOk(d) && FreeOf(d) == [] && freed != [] && s.ok
      && Forest(s.d, s.addrs) == PruneForest(Forest(d, addrs), 0, n)
      && ReadyOn(s.d, M, MsAll(Forest(s.d, s.addrs))) && !Ended(LeftBy(s.d, M))
      && M[|M| - 1] == freed[0] && (Loads(s.d, freed[0]) <==> Loads(d, freed[0]))
      && Released(d, [], NodesAll(Forest(d, addrs)), freed, s.d)
      && MsAll(Forest(s.d, s.addrs)) + multiset(freed) == MsAll(Forest(d, addrs))
      && NodesAll(Forest(s.d, s.addrs)) <= NodesAll(Forest(d, addrs))
  {
    hide NoDup, MsAll, NodesAll, ShrinkFrom, FileAt, FreedForest, PruneForest, Forest, Chain, Left, Get16,
         Get32, Words, Ended;
    var s, freed, L := ShrinkFrom(d, addrs, 0, n, now), FreedForest(Forest(d, addrs), 0, n), FreeOf(d);
    ReadyIsOn(d, MsAll(Forest(d, addrs)));
    ShrinkOpen(d, L, addrs, n, now);
    NoEntries(d, L);
    assert Reverse(freed) + [] == Reverse(freed);
    ReverseLast(freed);
    Mending(s.d, Reverse(freed), s.addrs);
  }

  /** A list with no entry in its cache is empty. */
  lemma NoEntries(d: Disk, L: seq<nat>)
    requires OpenList(d, L)
    ensures Nfree(d[SUPER]) == 0 ==> L == []
  {
  }

  lemma OpenRedistributes(d: Disk, addrs: Addrs, n: nat, now: nat, ino: nat, r: GrowResult, left: seq<nat>)
    requires ino >= 1 && FileReady(d, addrs) && !CanFree(d, FreedForest(Forest(d, addrs), 0, n))
    requires var s := ShrinkFrom(d, addrs, 0, n, now);
      GrownOpen(s.d, s.addrs, Reverse(FreedForest(Forest(d, addrs), 0, n)), r, left)
    ensures Redistributed(d, addrs, r.d, r.addrs, ino, left) && Irregular(r.d, left)
  {
    hide NoDup, MsAll, NodesAll, ShrinkFrom, FreedForest, PruneForest, Forest, CanFree, OpenList, LeftBy, Ended,
         Reverse, OtherInodes, FileHeld, ReadyOn, Irregular;
    SpoiledList(d, addrs, n, now);
    var s, f, freed := ShrinkFrom(d, addrs, 0, n, now), Forest(d, addrs), FreedForest(Forest(d, addrs), 0, n);
    NodesAllInMs(f);
    ReverseMultiset(freed);
    forall x | x in freed
      ensures x in MsAll(f)
    {
      assert x in multiset(freed) && MsAll(f)[x] >= multiset(freed)[x];
    }
    forall x | x in MsAll(f) ensures x >= Isize(d[SUPER]) { ReadyApart(d, MsAll(f), x); }
    TableFrame(d, r.d, ino);
  }

  /** What a successful write leaves behind. */
  ghost predicate Written(ino: nat, inode: Inode, data: seq<byte>, now: nat, r: FileWritten)
    requires ino >= 1
  {
    && r.inode == inode.(addrs := r.inode.addrs, size := |data|, atime := now, mtime := now, ctime := now)
    && Stat(r.d, ino) == Some(Truncated(r.inode))
    && |data| <= BLOCK * MAXBLOCKS
    && (forall k: nat :: k < BLOCK * W.BlocksFor(|data|) ==>
          W.FileByte(r.d, Forest(r.d, r.inode.addrs), k) == if k < |data| then data[k] else 0)
  }

  /** Writing succeeds exactly for a regular file whose new length fits, and on success the
      file's bytes are the data. If the cut left the free list well formed, writing is a step
      on the one file whether it succeeds or not; otherwise the list is not well formed afterwards. */
  lemma WriteFileSound(d: Disk, ino: nat, inode: Inode, data: seq<byte>, now: nat)
    requires InTable(d, ino) && FileReady(d, inode.addrs) && Enough(d, inode, W.BlocksFor(|data|))
    ensures var r, n := WriteFile(d, ino, inode, data, now), W.BlocksFor(|data|);
      && (r.ok <==> inode.IsFile() && Fitting(d, inode, n))
      && (r.ok ==> Written(ino, inode, data, now, r)
                   && exists left :: |left| == Supply(d, inode, n) - Wanted(d, inode, n)
                                  && Redistributed(d, inode.addrs, r.d, r.inode.addrs, ino, left)
                                  && (CanResize(d, inode, n) || Irregular(r.d, left)))
      && (CanResize(d, inode, n) ==>
            && FileStep(d, inode.addrs, r.d, r.inode.addrs, ino)
            && (!r.ok ==> !inode.IsFile() || n > MAXBLOCKS || FreeOf(r.d) == []))
      && (inode.IsFile() && !CanResize(d, inode, n) ==> !FreeOk(r.d))
  {
    hide FreeRep, FreeOf, FreeOk, MsAll, Resize, Forest, FileStep, FileReady, CanResize, MappedTo, WriteChunks,
         WriteInode, Written, Redistributed, Irregular, Fitting, Enough, Supply, Wanted;
    var n := W.BlocksFor(|data|);
    var g, r := Resize(d, inode, n, now), WriteFile(d, ino, inode, data, now);
    ReadyOk(d, inode.addrs);
    ResizeSound(d, inode, n, now, ino);
    if !inode.IsFile() {
      NoStep(d, inode.addrs, ino);
    } else if g.ok {
      var left :| |left| == Supply(d, inode, n) - Wanted(d, inode, n)
        && Redistributed(d, inode.addrs, g.d, g.addrs, ino, left) && (CanResize(d, inode, n) || Irregular(g.d, left));
      LeftHeld(d, inode.addrs, g.d, g.addrs, ino, left);
      PayloadWritten(g.d, ino, inode, g.addrs, g.blocks, data, now);
      if CanResize(d, inode, n) {
        StepKeepsTable(d, inode.addrs, g.d, g.addrs, ino);
        PayloadIsStep(g.d, g.addrs, g.blocks, ino, r.d);
        FileStepTrans(d, inode.addrs, g.d, g.addrs, r.d, g.addrs, ino);
      } else {
        PayloadIrregular(d, inode.addrs, g.d, g.addrs, g.blocks, ino, r.d, left);
      }
      PayloadRedistributes(d, inode.addrs, g.d, g.addrs, g.blocks, ino, r.d, left);
    }
  }

  lemma ReadyOk(d: Disk, addrs: Addrs)
    requires FileReady(d, addrs)
    ensures FreeOk(d)
  {
  }

  lemma LeftHeld(d: Disk, addrs: Addrs, e: Disk, addrs': Addrs, ino: nat, left: seq<nat>)
    requires InTable(d, ino) && Redistributed(d, addrs, e, addrs', ino, left)
    ensures InTable(e, ino) && FileHeld(e, addrs')
  {
  }

  /** With a well-formed free list the payload is a step on the file. */
  lemma PayloadIsStep(d: Disk, addrs: Addrs, blocks: seq<nat>, ino: nat, e: Disk)
    requires FileReady(d, addrs) && Payload(d, addrs, blocks, ino, e)
    ensures FileStep(d, addrs, e, addrs, ino)
  {
    hide FreeRep, FreeOf, NoDup, MsAll, NodesAll, OtherInodes, Forest;
    FreeWithin(d);
    forall x | x in FreeOf(d)
      ensures Read(e, x) == Read(d, x)
    {
      if x in blocks { ReadyApart(d, MsAll(Forest(d, addrs)), x); }
    }
    FreeFrame(d, e);
  }

  /** A list that does not end regularly is not disturbed by the payload, and stays such. */
  lemma PayloadIrregular(d: Disk, addrs: Addrs, e: Disk, addrs': Addrs, blocks: seq<nat>, ino: nat, f: Disk,
                         left: seq<nat>)
    requires FileReady(d, addrs) && ino >= 1 && Redistributed(d, addrs, e, addrs', ino, left) && Irregular(e, left)
    requires Payload(e, addrs', blocks, ino, f)
    ensures Irregular(f, left) && !FreeOk(f)
  {
    hide FreeRep, FreeOf, MsAll, NodesAll, OtherInodes, Forest, LeftBy, Ended, Chain;
    forall x | x in left
      ensures Read(f, x) == Read(e, x)
    {
      LeftApart(d, addrs, e, addrs', ino, left, x);
    }
    IrregularFrame(e, f, left);
    IrregularNotOk(f, left);
  }

  lemma LeftApart(d: Disk, addrs: Addrs, e: Disk, addrs': Addrs, ino: nat, left: seq<nat>, x: nat)
    requires FileReady(d, addrs) && ino >= 1 && Redistributed(d, addrs, e, addrs', ino, left) && x in left
    ensures x !in MsAll(Forest(e, addrs')) && x >= Isize(d[SUPER])
  {
    hide FreeRep, FreeOf, MsAll, Forest, OtherInodes, FileHeld;
    var m, m' := MsAll(Forest(d, addrs)), MsAll(Forest(e, addrs'));
    var L: seq<nat> := FreeOf(d);
    assert x in multiset(left) && (m' + multiset(left))[x] == (m + multiset(L))[x] <= 1;
    FreeWithin(d);
    assert x in m || x in L;
    if x in m { ReadyApart(d, m, x); }
  }

  lemma PayloadRedistributes(d: Disk, addrs: Addrs, e: Disk, addrs': Addrs, blocks: seq<nat>, ino: nat, f: Disk,
                             left: seq<nat>)
    requires FileReady(d, addrs) && ino >= 1 && Redistributed(d, addrs, e, addrs', ino, left) &&
        Payload(e, addrs', blocks, ino, f)
    ensures Redistributed(d, addrs, f, addrs', ino, left)
  {
    hide FreeRep, FreeOf, MsAll, NodesAll, Forest, Stat, NoDup;
    var m, m' := MsAll(Forest(d, addrs)), MsAll(Forest(e, addrs'));
    var L: seq<nat> := FreeOf(d);
    assert forall other: nat :: InTable(d, other) ==> InTable(e, other);
    forall x | x in blocks
      ensures x in m || x in L
    {
      assert x in m' && (m' + multiset(left))[x] == (m + multiset(L))[x];
    }
  }

  lemma StepKeeps(d: Disk, a: Addrs, e: Disk, b: Addrs, ino: nat)
    requires ino >= 1 && FileStep(d, a, e, b, ino)
    ensures FileReady(e, b) && FreeOk(e) && SameShape(d, e)
  {
  }

  lemma NoStep(d: Disk, addrs: Addrs, ino: nat)
    requires ino >= 1 && FileReady(d, addrs)
    ensures FileStep(d, addrs, d, addrs, ino)
  {
    FreeWithin(d);
  }

  lemma StepKeepsTable(d: Disk, a: Addrs, e: Disk, b: Addrs, ino: nat)
    requires InTable(d, ino) && FileStep(d, a, e, b, ino)
    ensures InTable(e, ino) && FileReady(e, b)
  {
  }

  /** What the last part of a write does: only data blocks of the file and its inode's table
      block are written. */
  ghost predicate Payload(d: Disk, addrs: Addrs, blocks: seq<nat>, ino: nat, e: Disk) {
    && InTable(d, ino) && |e| == |d| && e[SUPER] == d[SUPER] && Forest(e, addrs) == Forest(d, addrs)
    && (forall x :: x in blocks ==> x in MsAll(Forest(d, addrs)))
    && (forall x: nat :: x !in blocks && x != BlockOf(ino) ==> Read(e, x) == Read(d, x))
    && OtherInodes(d, e, ino)
  }

  /** The last part of a write: the data blocks and the inode record. */
  lemma PayloadWritten(d: Disk, ino: nat, inode: Inode, addrs: Addrs, blocks: seq<nat>, data: seq<byte>, now: nat)
    requires InTable(d, ino) && FileHeld(d, addrs) && inode.IsFile()
    requires |blocks| == W.BlocksFor(|data|) && MappedTo(d, addrs, blocks)
    ensures var i2 := inode.(addrs := addrs, size := |data|, atime := now, mtime := now, ctime := now);
            var c := WriteChunks(d, blocks, data, 0);
            var w := WriteInode(c.d, ino, i2);
      && c.ok && w.ok && Payload(d, addrs, blocks, ino, w.d)
      && Written(ino, inode, data, now, FileWritten(w.d, i2, true))
  {
    hide MsAll, NodesAll, FileAt, WriteChunks, WriteInode, Stat, Truncated, Chunk, Forest, MappedTo, NoDup;
    var i2 := inode.(addrs := addrs, size := |data|, atime := now, mtime := now, ctime := now);
    assert MappedTo(d, addrs, blocks);
    MappedBlocks(d, addrs, blocks);
    ChunksWritten(d, blocks, data, 0);
    var c := WriteChunks(d, blocks, data, 0);
    WriteInodeStat(c.d, ino, i2, ino);
    var w := WriteInode(c.d, ino, i2);
    assert blocks[0..] == blocks;
    forall other: nat | InTable(d, other) && other != ino
      ensures Stat(w.d, other) == Stat(d, other)
    {
      WriteInodeStat(c.d, ino, i2, other);
      assert BlockOf(other) !in blocks;
      StatFrame(d, c.d, other);
    }
    PayloadFrame(d, addrs, blocks, ino, w.d);
    SizeBound(d, addrs, blocks, data);
    BytesWritten(d, addrs, blocks, data, ino, w.d);
  }

  lemma MappedBlocks(d: Disk, addrs: Addrs, blocks: seq<nat>)
    requires FileHeld(d, addrs) && MappedTo(d, addrs, blocks)
    ensures Distinct(blocks) && Within(blocks, Isize(d[SUPER]), |d|)
    ensures forall x :: x in blocks ==> x in MsAll(Forest(d, addrs)) && x !in NodesAll(Forest(d, addrs))
  {
    hide FileHeld, MsAll, NodesAll, FileAt;
    GrownBlocks(d, addrs, blocks);
  }

  lemma BytesWritten(d: Disk, addrs: Addrs, blocks: seq<nat>, data: seq<byte>, ino: nat, e: Disk)
    requires |blocks| == W.BlocksFor(|data|) && MappedTo(d, addrs, blocks) && Forest(e, addrs) == Forest(d, addrs)
    requires forall j: nat :: j < |blocks| ==> Read(e, blocks[j]) == Chunk(data, j)
    ensures forall k: nat :: k < BLOCK * |blocks| ==>
      W.FileByte(e, Forest(e, addrs), k) == if k < |data| then data[k] else 0
  {
    hide FileAt, Chunk, Forest;
    forall k: nat | k < BLOCK * |blocks|
      ensures W.FileByte(e, Forest(e, addrs), k) == if k < |data| then data[k] else 0
    {
      var j := k / BLOCK;
      assert j < |blocks| && k == j * BLOCK + k % BLOCK;
      assert FileAt(Forest(e, addrs), j) == blocks[j] != 0;
    }
  }

  lemma PastLimit(f: seq<Tree>, i: nat)
    requires |f| == NADDR && i >= MAXBLOCKS
    ensures FileAt(f, i) == 0
  {
    ClassifySound(i);
  }

  lemma SizeBound(d: Disk, addrs: Addrs, blocks: seq<nat>, data: seq<byte>)
    requires |blocks| == W.BlocksFor(|data|) && MappedTo(d, addrs, blocks)
    ensures |data| <= BLOCK * MAXBLOCKS
  {
    if |blocks| > MAXBLOCKS { PastLimit(Forest(d, addrs), MAXBLOCKS); }
  }

  // ----- the round trip --------------------------------------------------------------------

  lemma AddrsBelow(d: Disk, addrs: Addrs)
    requires FileHeld(d, addrs)
    ensures forall s :: 0 <= s < NADDR ==> addrs[s] < Fsize(d[SUPER])
  {
    hide NoDup, MsAll;
    var f := Forest(d, addrs);
    forall s | 0 <= s < NADDR && addrs[s] != 0
      ensures addrs[s] < Fsize(d[SUPER])
    {
      TreeShape(d, addrs[s], DepthOf(s));
      MsSplit(f, s);
      assert MsAll(f)[addrs[s]] >= Ms(f[s])[addrs[s]];
    }
  }

  /** The addresses fit the 24 bits an inode record has for each. */
  predicate AddrsFit(addrs: Addrs) {
    forall s :: 0 <= s < NADDR ==> addrs[s] < 0x100_0000
  }

  lemma CutAddrs(i: Inode)
    requires i.size < 0x1_0000_0000
    ensures Truncated(i).size == i.size && (Truncated(i).addrs == i.addrs <==> AddrsFit(i.addrs))
  {
    var t := Truncated(i);
    if t.addrs == i.addrs {
      forall s | 0 <= s < NADDR ensures i.addrs[s] < 0x100_0000 { assert t.addrs[s] == i.addrs[s]; }
    }
  }

  /** After a successful write the inode fetched afresh has the size written, and has the
      addresses of the inode in memory exactly when they fit their 24 bits, as they do on any
      partition of at most 2^24 blocks. Reading the file then gives back exactly the data. The
      old and the new size may be any; but should the cut to a smaller size have spoiled the
      free list, no more blocks may be asked of it than it has. */
  lemma WriteThenRead(d: Disk, po: nat, ino: nat, inode: Inode, data: seq<byte>, now: nat)
    requires InTable(d, ino) && FileReady(d, inode.addrs) && Enough(d, inode, W.BlocksFor(|data|))
    requires WriteFile(d, ino, inode, data, now).ok
    ensures var r := WriteFile(d, ino, inode, data, now);
      var st := Stat(r.d, ino);
      && st.Some? && st.value.size == |data|
      && (st.value.addrs == r.inode.addrs <==> AddrsFit(r.inode.addrs))
      && (Fsize(d[SUPER]) <= 0x100_0000 ==> AddrsFit(r.inode.addrs))
      && (AddrsFit(r.inode.addrs) ==> W.ReadFile(r.d, po, st.value.addrs, st.value.size) == data)
  {
    hide WriteFile, FreeOf, FreeOk, MsAll, Forest, W.ReadFile, W.FileByte, Stat, CanResize, FileReady,
         Truncated, AddrsFit, FileStep, Enough, Fitting, Supply, Wanted, FileHeld, Irregular;
    WriteFileSound(d, ino, inode, data, now);
    var r, n := WriteFile(d, ino, inode, data, now), W.BlocksFor(|data|);
    ReadyOk(d, inode.addrs);
    var left :| |left| == Supply(d, inode, n) - Wanted(d, inode, n) &&
        Redistributed(d, inode.addrs, r.d, r.inode.addrs, ino, left);
    CutAddrs(r.inode);
    if Fsize(d[SUPER]) <= 0x100_0000 { SmallFits(r.d, r.inode.addrs); }
    if AddrsFit(r.inode.addrs) {
      W.ReadFileBytes(r.d, po, r.inode.addrs, |data|);
    }
  }

  lemma SmallFits(d: Disk, addrs: Addrs)
    requires FileHeld(d, addrs) && Fsize(d[SUPER]) <= 0x100_0000
    ensures AddrsFit(addrs)
  {
    hide FileHeld;
    AddrsBelow(d, addrs);
  }

  // ----- where a shorter overwrite goes wrong -------------------------------------------------

  lemma {:induction false} NothingToCut(d: Disk, addrs: Addrs, s: nat, n: nat, now: nat)
    requires s <= NADDR && forall j :: s <= j < NADDR ==> addrs[j] == 0
    ensures ShrinkFrom(d, addrs, s, n, now) == FileShrunk(d, addrs, true)
    decreases NADDR - s
  {
    if s < NADDR { NothingToCut(d, addrs, s + 1, n, now); }
  }

  /** Cutting a file whose one block is its third to two blocks frees that block. */
  lemma OneCut(d: Disk, addrs: Addrs, x: nat, now: nat)
    requires Geometry(d) && Isize(d[SUPER]) <= x < Fsize(d[SUPER]) && 0 <= Nfree(d[SUPER]) <= NICFREE
    requires addrs[2] == x && forall j :: 0 <= j < NADDR && j != 2 ==> addrs[j] == 0
    ensures ShrinkFrom(d, addrs, 0, 2, now) == FileShrunk(FreeBlock(d, x, now).d, addrs[2 := 0], true)
  {
    hide Get16, Get32, FreeBlock;
    FreeView(d, x, now);
    NothingToCut(FreeBlock(d, x, now).d, addrs[2 := 0], 3, 2, now);
    assert ShrinkFrom(d, addrs, 2, 2, now) == FileShrunk(FreeBlock(d, x, now).d, addrs[2 := 0], true);
    assert ShrinkFrom(d, addrs, 1, 2, now) == ShrinkFrom(d, addrs, 2, 2, now);
  }

  /** Two holes are filled with the block the self-linking list hands out twice. */
  lemma TwiceTaken(d: Disk, addrs: Addrs, x: nat, now: nat)
    requires x != 0 && addrs[0] == 0 && addrs[1] == 0
    requires var a := AllocBlock(d, now); var b := AllocBlock(a.d, now); a.ok && a.b == x && b.ok && b.b == x
    ensures var r := GrowFrom(d, addrs, 0, 2, now);
      && r.ok && r.blocks == [x, x] && r.addrs == addrs[0 := x][1 := x]
      && r.d == AllocBlock(AllocBlock(d, now).d, now).d
  {
    hide AllocBlock;
    var m0 := EnsureData(d, addrs, 0, now);
    assert m0 == Mapped(AllocBlock(d, now).d, addrs[0 := x], true, x);
    var m1 := EnsureData(m0.d, m0.addrs, 1, now);
    assert m1 == Mapped(AllocBlock(m0.d, now).d, addrs[0 := x][1 := x], true, x);
    assert GrowFrom(m1.d, m1.addrs, 2, 2, now) == GrowResult(m1.d, m1.addrs, true, []);
    assert GrowFrom(m0.d, m0.addrs, 1, 2, now).blocks == [x] + [];
    assert [x] + [x] == [x, x];
  }

  /** With a full partition, a three-block file whose first two blocks are holes, and a third that
      reads as a chain block naming itself, is overwritten with two blocks of data. The write
      succeeds, but puts both in the same block. */
  lemma BadOverwrite(d: Disk, po: nat, ino: nat, inode: Inode, x: nat, data: seq<byte>, now: nat)
    requires InTable(d, ino) && FileReady(d, inode.addrs) && Nfree(d[SUPER]) == 0 && inode.IsFile()
    requires inode.size == 3 * BLOCK && |data| == 2 * BLOCK && Isize(d[SUPER]) <= x < Fsize(d[SUPER])
    requires inode.addrs[2] == x && (forall j :: 0 <= j < NADDR && j != 2 ==> inode.addrs[j] == 0) &&
        d[x] == SelfLink(x)
    ensures var r := WriteFile(d, ino, inode, data, now);
      && r.ok && r.inode.addrs[0] == r.inode.addrs[1] == x
      && W.ReadFile(r.d, po, r.inode.addrs, r.inode.size) == data[BLOCK..] + data[BLOCK..]
    ensures !Enough(d, inode, 2)
  {
    hide FreeRep, FreeOf, MsAll, AllocBlock, FreeBlock, Get16, Get32, NoDup, ShrinkFrom, GrowFrom, SelfLink,
         Chunk, Forest, Words, Enough, W.ReadFile;
    var s := FreeBlock(d, x, now).d;
    var addrs := inode.addrs[2 := 0];
    FreeWithin(d);
    OneCut(d, inode.addrs, x, now);
    BadBottomAllocatedTwice(d, x, now);
    TwiceTaken(s, addrs, x, now);
    var g := Resize(d, inode, 2, now);
    assert W.BlocksFor(inode.size) == 3 && W.BlocksFor(|data|) == 2;
    var e := g.d;
    BothInOne(d, x, now);
    SecondWins(e, g.blocks, x, data);
    var c, i1 := WriteChunks(e, g.blocks, data, 0), inode.(addrs := g.addrs);
    var i2 := i1.(size := |data|, atime := now, mtime := now, ctime := now);
    WriteInodeStat(c.d, ino, i2, ino);
    var r := WriteFile(d, ino, inode, data, now);
    assert r == FileWritten(WriteInode(c.d, ino, i2).d, i2, true);
    assert Read(r.d, x) == Chunk(data, 1);
    ReadTwice(r.d, po, r.inode.addrs, x, data);
    if Enough(d, inode, 2) {
      WriteFileSound(d, ino, inode, data, now);
      SharedBlock(r.d, r.inode.addrs, x);
    }
  }

  lemma BothInOne(d: Disk, x: nat, now: nat)
    requires Geometry(d) && Nfree(d[SUPER]) == 0 && Isize(d[SUPER]) <= x < Fsize(d[SUPER])
    ensures |AllocBlock(AllocBlock(FreeBlock(d, x, now).d, now).d, now).d| == |d|
  {
    hide Get16, Get32, Touch, SetNfree, SetTfree, SetFree, LoadFree, Spill;
  }

  lemma SecondWins(d: Disk, blocks: seq<nat>, x: nat, data: seq<byte>)
    requires blocks == [x, x] && x < |d|
    ensures var c := WriteChunks(d, blocks, data, 0); c.ok && |c.d| == |d| && Read(c.d, x) == Chunk(data, 1)
  {
    hide Chunk;
    var e := d[x := Chunk(data, 0)];
    assert WriteChunks(d, blocks, data, 0) == WriteChunks(e, blocks, data, 1);
    assert WriteChunks(e, blocks, data, 1) == WriteChunks(e[x := Chunk(data, 1)], blocks, data, 2);
  }

  lemma ReadTwice(d: Disk, po: nat, addrs: Addrs, x: nat, data: seq<byte>)
    requires x != 0 && addrs[0] == addrs[1] == x && |data| == 2 * BLOCK && Read(d, x) == Chunk(data, 1)
    ensures W.ReadFile(d, po, addrs, |data|) == data[BLOCK..] + data[BLOCK..]
  {
    hide W.ReadFile, FileAt, Forest;
    W.ReadFileBytes(d, po, addrs, |data|);
    W.DirectAt(d, addrs, 0);
    W.DirectAt(d, addrs, 1);
    var r, t := W.ReadFile(d, po, addrs, |data|), data[BLOCK..] + data[BLOCK..];
    forall k | 0 <= k < |r| ensures r[k] == t[k] {
      assert r[k] == W.FileByte(d, Forest(d, addrs), k);
      assert k / BLOCK == (if k < BLOCK then 0 else 1) && k % BLOCK == if k < BLOCK then k else k - BLOCK;
    }
  }

  /** No file holds one block at two indices. */
  lemma SharedBlock(d: Disk, addrs: Addrs, x: nat)
    requires x != 0 && addrs[0] == addrs[1] == x
    ensures !FileHeld(d, addrs)
  {
    hide MsAll, NoDup, FileAt;
    W.DirectAt(d, addrs, 0);
    W.DirectAt(d, addrs, 1);
    if FileHeld(d, addrs) { FileBlocksDiffer(d, addrs, 0, 1); }
  }
}
