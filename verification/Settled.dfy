/** The checker and the invariant of the running program agree: while the inode table and
    memory hold the same inodes and no file has a pointer past its end, the checker finds
    no fault, counts as used exactly the blocks the files own, and as free exactly those on
    the free list. Successful writes keep it so. */
module Settled {
  import opened Basics
  import opened Bytes
  import opened FreeList
  import opened BlockTree
  import opened FileMap
  import opened Prune
  import opened Grow
  import opened Shrink
  import opened InodeTable
  import opened FileIo
  import opened Ownership
  import opened CutExact
  import opened FileShape
  import F = Fsck
  import W = Walk
  import X = WalkExact

  predicate HasBlocks(i: Inode) { i.IsFile() || i.IsDir() }

  /** The inode table and memory hold the same files and directories. */
  ghost predicate OnDisk(w: World) {
    && (forall j :: 0 <= j < |w.files| ==>
          HasBlocks(w.files[j].inode) && Stat(w.d, w.files[j].ino) == Some(w.files[j].inode))
    && (forall ino: nat :: InTable(w.d, ino) && Stat(w.d, ino).Some? && HasBlocks(Stat(w.d, ino).value) ==>
        IsOpen(w, ino))
  }

  ghost predicate IsOpen(w: World, ino: nat) {
    exists j :: 0 <= j < |w.files| && w.files[j].ino == ino
  }

  /** No file has a pointer, of any depth, past its size. */
  ghost predicate NothingPastEnd(w: World) {
    forall j :: 0 <= j < |w.files| ==> FileTrimmed(w.d, w.files[j].inode)
  }

  ghost predicate FileTrimmed(d: Disk, i: Inode) {
    Trimmed(Forest(d, i.addrs), W.BlocksFor(i.size))
  }

  ghost predicate IsSettled(w: World) {
    Sound(w) && OnDisk(w) && NothingPastEnd(w)
  }

  // ----- what the checker's claims are -------------------------------------------------------

  /** The claim names a block of the file it comes from. */
  ghost predicate Rightful(w: World, c: F.Claim) {
    exists j :: 0 <= j < |w.files| && w.files[j].ino == c.ino && c.rel in MsAll(Forest(w.d, w.files[j].inode.addrs))
  }

  ghost predicate AllDiffer(cs: seq<F.Claim>) {
    forall i, j :: 0 <= i < j < |cs| ==> cs[i].rel != cs[j].rel
  }

  /** The claims of one inode: different blocks, all its own. */
  lemma ClaimsOfOne(w: World, ino: nat)
    requires IsSettled(w) && InTable(w.d, ino)
    ensures var cs := F.ClaimsOf(w.d, ino);
      && AllDiffer(cs) && (forall c :: c in cs ==> Rightful(w, c) && c.ino == ino)
  {
    hide Sound, Stat, W.WalkInode, MsAll, NoDup, FileReady, FileTrimmed;
    var st := Stat(w.d, ino);
    if st.Some? && HasBlocks(st.value) {
      assert IsOpen(w, ino);
      var j :| 0 <= j < |w.files| && w.files[j].ino == ino;
      var i := w.files[j].inode;
      ForestMine(w, j);
      FileNoDup(w.d, i.addrs);
      X.WalkOnce(w.d, i.addrs, i.size);
      var vs := W.WalkInode(w.d, i.addrs, i.size).visits;
      forall c | c in F.ClaimsOf(w.d, ino)
        ensures Rightful(w, c) && c.ino == ino
      {
        var k :| 0 <= k < |vs| && F.ClaimsOf(w.d, ino)[k] == c;
        assert vs[k] in vs;
      }
    }
  }

  /** Two rightful claims of different inodes name different blocks. */
  lemma RightsDiffer(w: World, a: F.Claim, b: F.Claim)
    requires Sound(w) && Rightful(w, a) && Rightful(w, b) && a.ino != b.ino
    ensures a.rel != b.rel
  {
    hide Sound, MsAll, Forest;
    var i :| 0 <= i < |w.files| && w.files[i].ino == a.ino && a.rel in MsAll(Forest(w.d, w.files[i].inode.addrs));
    var j :| 0 <= j < |w.files| && w.files[j].ino == b.ino && b.rel in MsAll(Forest(w.d, w.files[j].inode.addrs));
    if a.rel == b.rel { TwoFilesApart(w, i, j, a.rel); }
  }

  lemma {:induction false} ClaimsRightful(w: World, n: nat)
    requires IsSettled(w) && n <= F.InodeCount(w.d[SUPER])
    ensures var cs := F.Claims(w.d, n);
      && AllDiffer(cs) && (forall c :: c in cs ==> Rightful(w, c) && 1 <= c.ino <= n)
  {
    hide IsSettled, Rightful, Stat, F.ClaimsOf;
    SettledGeometry(w);
    if n > 0 {
      ClaimsRightful(w, n - 1);
      InodeInTable(w.d, n);
      ClaimsOfOne(w, n);
      var ks, ls := F.Claims(w.d, n - 1), F.ClaimsOf(w.d, n);
      var cs := F.Claims(w.d, n);
      assert cs == ks + ls;
      forall i, j | 0 <= i < j < |cs|
        ensures cs[i].rel != cs[j].rel
      {
        if i < |ks| <= j {
          assert ks[i] in ks && ls[j - |ks|] in ls;
          RightsDiffer(w, ks[i], ls[j - |ks|]);
        }
      }
    }
  }

  lemma SettledGeometry(w: World)
    requires IsSettled(w)
    ensures Sound(w) && Geometry(w.d) && FreeOk(w.d) && Tfree(w.d[SUPER]) == |FreeOf(w.d)|
  {
    hide OnDisk, NothingPastEnd;
    SoundGeometry(w);
  }

  lemma SoundGeometry(w: World)
    requires Sound(w)
    ensures Geometry(w.d) && FreeOk(w.d) && Tfree(w.d[SUPER]) == |FreeOf(w.d)|
  {
    hide Owned, Chain, LeftBy;
    assert FreeRep(w.d, FreeOf(w.d));
  }

  lemma InodeInTable(d: Disk, n: nat)
    requires Geometry(d)
    ensures InTable(d, n) <==> 1 <= n <= F.InodeCount(d[SUPER])
  {
  }

  // ----- what the report then says ---------------------------------------------------------------

  /** Claims that differ and lie in range give an empty fault list. */
  lemma {:induction false} NoFaults(cs: seq<F.Claim>, b: nat, lo: nat, hi: nat)
    requires AllDiffer(cs) && forall c :: c in cs ==> lo <= c.rel < hi
    ensures |F.Claimants(cs, b)| <= 1 && F.Strays(cs, b, lo, hi) == []
    decreases |cs|
  {
    if cs != [] {
      var init, c := cs[..|cs| - 1], cs[|cs| - 1];
      assert forall x :: x in init ==> x in cs;
      assert c in cs;
      NoFaults(init, b, lo, hi);
      F.ClaimantsOf(init, b);
      forall k | 0 <= k < |init| ensures init[k].rel != c.rel { assert cs[k] == init[k]; }
    }
  }

  lemma {:induction false} InOwned(d: Disk, files: seq<OpenFile>, x: nat)
    ensures x in Owned(d, files) <==> exists j :: 0 <= j < |files| && x in MsAll(Forest(d, files[j].inode.addrs))
    decreases |files|
  {
    hide Forest, MsAll;
    if files != [] {
      InOwned(d, files[1..], x);
      if x in Owned(d, files[1..]) {
        var j :| 0 <= j < |files[1..]| && x in MsAll(Forest(d, files[1..][j].inode.addrs));
        assert files[j + 1] == files[1..][j];
      }
      if j :| 0 <= j < |files| && x in MsAll(Forest(d, files[j].inode.addrs)) {
        if j > 0 { assert files[1..][j - 1] == files[j]; }
      }
    }
  }

  lemma OwnedInRange(w: World, x: nat)
    requires Sound(w) && x in Owned(w.d, w.files)
    ensures Isize(w.d[SUPER]) <= x < Fsize(w.d[SUPER])
  {
    hide FreeOf, FreeOk, Owned;
    assert (Owned(w.d, w.files) + multiset(FreeOf(w.d)))[x] >= Owned(w.d, w.files)[x] > 0;
  }

  /** Every block a file owns is visited. */
  lemma OwnedVisited(w: World, j: nat, x: nat)
    requires IsSettled(w) && j < |w.files| && x in MsAll(Forest(w.d, w.files[j].inode.addrs))
    ensures var i := w.files[j].inode;
      exists v :: v in W.WalkInode(w.d, i.addrs, i.size).visits && v.rel == x
  {
    hide Sound, Stat, MsAll, W.WalkInode, W.BlocksFor, Start, X.Before, Forest;
    var i := w.files[j].inode;
    var f, need := Forest(w.d, i.addrs), W.BlocksFor(i.size);
    ForestIsShaped(w.d, i.addrs);
    var s, p := Located(f, x);
    assert FileTrimmed(w.d, i);
    var ps := X.WalkListing(w.d, i.addrs, i.size);
    var vs := W.WalkInode(w.d, i.addrs, i.size).visits;
    assert [s] + p in ps;
    var k :| 0 <= k < |ps| && ps[k] == [s] + p;
    assert X.FileVisit(f, 0, NADDR, need, ps[k], vs[k]);
    assert ps[k][1..] == p;
    assert vs[k] in vs;
  }

  /** In a settled state the used blocks are exactly those some file owns. */
  lemma UsedAreOwned(w: World, x: nat)
    requires IsSettled(w)
    ensures x in F.UsedBlocks(w.d) <==> x in Owned(w.d, w.files)
  {
    hide IsSettled, Sound, Stat, MsAll, W.WalkInode, Forest, Isize, Fsize, FreeOf, F.Claims, F.InodeCount, Owned;
    SettledGeometry(w);
    var n, cs := F.InodeCount(w.d[SUPER]), F.AllClaims(w.d);
    InOwned(w.d, w.files, x);
    ClaimsRightful(w, n);
    if x in F.UsedBlocks(w.d) {
      var c :| c in cs && c.rel == x;
      assert Rightful(w, c);
    }
    if x in Owned(w.d, w.files) {
      var j :| 0 <= j < |w.files| && x in MsAll(Forest(w.d, w.files[j].inode.addrs));
      OwnedVisited(w, j, x);
      var i := w.files[j].inode;
      var v :| v in W.WalkInode(w.d, i.addrs, i.size).visits && v.rel == x;
      OpenInode(w, j);
      F.ClaimsInclude(w.d, n, w.files[j].ino, v);
      OwnedInRange(w, x);
    }
  }

  lemma OpenInode(w: World, j: nat)
    requires IsSettled(w) && j < |w.files|
    ensures var ino := w.files[j].ino;
      && 1 <= ino <= F.InodeCount(w.d[SUPER]) && Stat(w.d, ino) == Some(w.files[j].inode) && HasBlocks(w.files[j].inode)
  {
    hide Stat, F.InodeCount, FreeOk, FreeOf, Owned, HasBlocks;
    assert InTable(w.d, w.files[j].ino);
    InodeInTable(w.d, w.files[j].ino);
  }

  lemma {:induction false} DistinctMs(L: seq<nat>)
    requires Distinct(L)
    ensures forall x :: multiset(L)[x] <= 1
    decreases |L|
  {
    if L != [] {
      var init, y := L[..|L| - 1], L[|L| - 1];
      DistinctMs(init);
      assert L == init + [y];
      assert y !in init;
    }
  }

  /** The blocks of the data area no file owns are those on the free list. */
  lemma UnusedAreFree(w: World, used: set<nat>)
    requires Sound(w) && forall x :: x in used <==> x in Owned(w.d, w.files)
    ensures multiset(F.Unused(used, Isize(w.d[SUPER]), Fsize(w.d[SUPER]))) == multiset(FreeOf(w.d))
    ensures |FreeOf(w.d)| == Fsize(w.d[SUPER]) - Isize(w.d[SUPER]) - |used|
  {
    hide FreeOf, Owned, F.Unused, Chain;
    var lo, hi, L := Isize(w.d[SUPER]), Fsize(w.d[SUPER]), FreeOf(w.d);
    SoundGeometry(w);
    var U := F.Unused(used, lo, hi);
    F.UnusedExact(used, lo, hi);
    forall x | x in used ensures lo <= x < hi { OwnedInRange(w, x); }
    F.UnusedCount(used, lo, hi);
    DistinctMs(U);
    var o := Owned(w.d, w.files);
    forall x
      ensures multiset(U)[x] == multiset(L)[x]
    {
      assert (o + multiset(L))[x] == o[x] + multiset(L)[x];
      assert x in U <==> multiset(U)[x] > 0;
    }
    assert multiset(U) == multiset(L);
    assert |U| == |multiset(U)| && |L| == |multiset(L)|;
  }

  /** The checker finds nothing wrong: no block claimed twice, no pointer out of range; the
      blocks it counts as used are exactly those the open files own, and as many as it counts
      free are on the free list, whose recorded total agrees. */
  ghost predicate Clean(w: World) {
    && FreeOk(w.d)
    && var r := F.CheckBlocks(w.d);
    && r.Some? && r.value.scan.crossLinked == map[] && r.value.scan.outOfRange == map[]
    && (forall x :: x in r.value.scan.owner <==> x in Owned(w.d, w.files))
    && r.value.freeBlocks == |FreeOf(w.d)| == Tfree(w.d[SUPER])
  }

  lemma SettledIsClean(w: World)
    requires IsSettled(w)
    ensures Clean(w)
  {
    hide IsSettled, Sound, Stat, MsAll, Forest, Isize, Fsize, FreeOf, F.Claims, F.InodeCount, Owned,
         F.CheckBlocks, F.UsedBlocks, F.Claimants, F.Strays, Rightful, Chain, Tfree, FreeOk;
    SettledGeometry(w);
    F.CheckExact(w.d);
    var r := F.CheckBlocks(w.d).value;
    var cs, lo, hi := F.AllClaims(w.d), Isize(w.d[SUPER]), Fsize(w.d[SUPER]);
    ClaimsRightful(w, F.InodeCount(w.d[SUPER]));
    forall c | c in cs ensures lo <= c.rel < hi { RightInRange(w, c); }
    forall b: nat ensures |F.Claimants(cs, b)| <= 1 && F.Strays(cs, b, lo, hi) == [] { NoFaults(cs, b, lo, hi); }
    assert r.scan.crossLinked.Keys == {} && r.scan.outOfRange.Keys == {};
    forall x ensures x in F.UsedBlocks(w.d) <==> x in Owned(w.d, w.files) { UsedAreOwned(w, x); }
    UnusedAreFree(w, F.UsedBlocks(w.d));
  }

  /** Rebuilding the free list of a settled state puts on it the blocks that were free
      already, in ascending order. */
  lemma SettledRebuild(w: World, now: nat)
    requires IsSettled(w)
    ensures var r := F.Rebuild(w.d, now);
      exists L: seq<nat> :: OpenList(r.d, L) && multiset(L) == multiset(FreeOf(w.d)) &&
          forall i, j :: 0 <= i < j < |L| ==> L[i] < L[j]
  {
    hide IsSettled, Sound, Isize, Fsize, FreeOf, FreeOk, F.Unused, F.UsedBlocks, F.Rebuild, Owned, Chain,
         F.SpillsOnly, LeftBy, ChainRest, Tfree;
    SettledGeometry(w);
    var lo, hi, used := Isize(w.d[SUPER]), Fsize(w.d[SUPER]), F.UsedBlocks(w.d);
    F.RebuildSound(w.d, now);
    forall x ensures x in used <==> x in Owned(w.d, w.files) { UsedAreOwned(w, x); }
    F.UnusedExact(used, lo, hi);
    UnusedAreFree(w, used);
    var U := F.Unused(used, lo, hi);
    assert OpenList(F.Rebuild(w.d, now).d, U);
  }

  lemma RightInRange(w: World, c: F.Claim)
    requires Sound(w) && Rightful(w, c)
    ensures Isize(w.d[SUPER]) <= c.rel < Fsize(w.d[SUPER])
  {
    hide Sound, Owned, MsAll, Forest, Isize, Fsize;
    InOwned(w.d, w.files, c.rel);
    OwnedInRange(w, c.rel);
  }

  // ----- writes keep it so ----------------------------------------------------------------------

  lemma TrimmedMore(f: seq<Tree>, n: nat, m: nat)
    requires |f| == NADDR && Trimmed(f, n) && n <= m
    ensures Trimmed(f, m)
  {
    hide Start, Ptr;
  }

  /** A successful resize leaves nothing past the new end, and no new indirect block
      without entries. */
  lemma ResizeShape(d: Disk, inode: Inode, n: nat, now: nat)
    requires FileReady(d, inode.addrs) && CanResize(d, inode, n) && FileTrimmed(d, inode)
    ensures var r := Resize(d, inode, n, now);
            var f, f' := Forest(d, inode.addrs), Forest(r.d, r.addrs);
      && Trimmed(f', n) && (Tidy(f) && r.ok ==> Tidy(f'))
  {
    hide FreeRep, FreeOf, NoDup, MsAll, NodesAll, ShrinkFrom, GrowFrom, FileAt, FreedForest, CanFree, Reverse,
         PruneForest, Forest, FileReady, Trimmed, Tidy, Released;
    if n < W.BlocksFor(inode.size) {
      ShrinkSound(d, inode.addrs, n, now);
      ShrinkShape(d, inode.addrs, n, now);
      var s := ShrinkFrom(d, inode.addrs, 0, n, now);
      GrowShape(s.d, s.addrs, 0, n, now);
    } else {
      TrimmedMore(Forest(d, inode.addrs), W.BlocksFor(inode.size), n);
      GrowShape(d, inode.addrs, 0, n, now);
    }
  }

  /** The block map after a write is the one the resize made. */
  lemma WriteKeepsMap(d: Disk, ino: nat, inode: Inode, data: seq<byte>, now: nat)
    requires InTable(d, ino) && FileReady(d, inode.addrs) && CanResize(d, inode, W.BlocksFor(|data|))
    requires WriteFile(d, ino, inode, data, now).ok
    ensures var r := WriteFile(d, ino, inode, data, now);
            var g := Resize(d, inode, W.BlocksFor(|data|), now);
      g.ok && r.inode.addrs == g.addrs && Forest(r.d, g.addrs) == Forest(g.d, g.addrs)
  {
    hide FreeRep, FreeOf, MsAll, Resize, Forest, FileStep, FileReady, CanResize, MappedTo, WriteChunks,
         WriteInode, Written;
    var n := W.BlocksFor(|data|);
    var g := Resize(d, inode, n, now);
    ResizeSound(d, inode, n, now, ino);
    StepKeepsTable(d, inode.addrs, g.d, g.addrs, ino);
    PayloadWritten(g.d, ino, inode, g.addrs, g.blocks, data, now);
  }

  /** The write of a settled state that goes through: it succeeds, and the new inode's
      addresses and time stamp fit their fields. */
  ghost predicate GoesThrough(w: World, op: Op, now: nat)
    requires FreeOk(w.d)
  {
    && op.Replace? && op.i < |w.files| && w.files[op.i].ino >= 1 && Allowed(w, op) && now < 0x1_0000_0000
    && var r := WriteFile(w.d, w.files[op.i].ino, w.files[op.i].inode, op.data, now);
    && r.ok && AddrsFit(r.inode.addrs)
  }

  /** The inode a write stores is the one in memory. */
  lemma WrittenInode(w: World, op: Op, now: nat)
    requires IsSettled(w) && GoesThrough(w, op, now)
    ensures var f := w.files[op.i];
            var r := WriteFile(w.d, f.ino, f.inode, op.data, now);
      && Stat(r.d, f.ino) == Some(r.inode) && HasBlocks(r.inode) && r.inode.size == |op.data|
      && FileStep(w.d, f.inode.addrs, r.d, r.inode.addrs, f.ino)
  {
    hide FreeRep, FreeOf, FreeOk, MsAll, WriteFile, CanResize, FileStep, Forest, Stat, FileReady, Sound,
         AddrsFit, FileTrimmed, Truncated, Fits;
    var f := w.files[op.i];
    ForestMine(w, op.i);
    WriteIsStep(w.d, f.ino, f.inode, op.data, now);
    var r := WriteFile(w.d, f.ino, f.inode, op.data, now);
    assert Stat(w.d, f.ino) == Some(f.inode);
    StatFits(w.d, f.ino);
    NewFits(f.inode, r.inode, |op.data|, now);
    TruncatedFits(r.inode);
  }

  lemma NewFits(i: Inode, j: Inode, size: nat, now: nat)
    requires Fits(i) && j == i.(addrs := j.addrs, size := size, atime := now, mtime := now, ctime := now)
    requires size <= BLOCK * MAXBLOCKS && now < 0x1_0000_0000 && AddrsFit(j.addrs)
    ensures Fits(j) && (HasBlocks(i) ==> HasBlocks(j))
  {
  }

  /** Such a write keeps the state settled. */
  lemma WriteSettles(w: World, op: Op, now: nat)
    requires IsSettled(w) && GoesThrough(w, op, now)
    ensures IsSettled(Step(w, op, now))
  {
    hide FreeRep, FreeOf, FreeOk, MsAll, WriteFile, CanResize, FileStep, Forest, Stat, FileReady, Sound,
         AddrsFit, FileTrimmed, W.FileByte, HasBlocks;
    var i, f, w' := op.i, w.files[op.i], Step(w, op, now);
    var r := WriteFile(w.d, f.ino, f.inode, op.data, now);
    StepSound(w, op, now);
    WrittenInode(w, op, now);
    assert w'.files == w.files[i := f.(inode := r.inode)];
    forall j | 0 <= j < |w'.files|
      ensures HasBlocks(w'.files[j].inode) && Stat(w'.d, w'.files[j].ino) == Some(w'.files[j].inode)
      ensures FileTrimmed(w'.d, w'.files[j].inode)
    {
      if j == i {
        NewTrimmed(w, op, now);
      } else {
        assert Untouched(w, w', j);
        OtherTrimmed(w, w', j);
      }
    }
    forall ino: nat | InTable(w'.d, ino) && Stat(w'.d, ino).Some? && HasBlocks(Stat(w'.d, ino).value)
      ensures IsOpen(w', ino)
    {
      if ino == f.ino {
        assert w'.files[i].ino == ino;
      } else {
        OtherOpen(w, w', i, r.inode.addrs, ino);
        var j :| 0 <= j < |w.files| && w.files[j].ino == ino;
        assert w'.files[j].ino == ino;
      }
    }
  }

  lemma NewTrimmed(w: World, op: Op, now: nat)
    requires IsSettled(w) && GoesThrough(w, op, now)
    ensures var f := w.files[op.i]; var r := WriteFile(w.d, f.ino, f.inode, op.data, now);
      r.inode.size == |op.data| ==> FileTrimmed(r.d, r.inode)
  {
    hide FreeRep, FreeOf, FreeOk, MsAll, WriteFile, Resize, CanResize, FileStep, Forest, Stat, FileReady, Sound,
         AddrsFit, Trimmed, Tidy, Written;
    var f := w.files[op.i];
    ForestMine(w, op.i);
    assert FileTrimmed(w.d, f.inode);
    WriteIsStep(w.d, f.ino, f.inode, op.data, now);
    ResizeShape(w.d, f.inode, W.BlocksFor(|op.data|), now);
    WriteKeepsMap(w.d, f.ino, f.inode, op.data, now);
  }

  lemma OtherTrimmed(w: World, w': World, j: nat)
    requires j < |w.files| && Untouched(w, w', j) && FileTrimmed(w.d, w.files[j].inode)
    ensures FileTrimmed(w'.d, w'.files[j].inode)
  {
    hide Forest, Stat, W.FileByte, Trimmed;
  }

  lemma OtherOpen(w: World, w': World, i: nat, addrs': Addrs, ino: nat)
    requires OnDisk(w) && i < |w.files| && w.files[i].ino >= 1 && ino != w.files[i].ino
    requires Sound(w) && FileStep(w.d, w.files[i].inode.addrs, w'.d, addrs', w.files[i].ino)
    requires InTable(w'.d, ino) && Stat(w'.d, ino).Some? && HasBlocks(Stat(w'.d, ino).value)
    ensures IsOpen(w, ino)
  {
    hide FreeRep, FreeOf, MsAll, Forest, Stat, FileReady, Owned, HasBlocks, IsOpen;
    assert InTable(w.d, w.files[i].ino);
    assert InTable(w.d, ino);
  }

  // ----- runs -------------------------------------------------------------------------------------

  ghost predicate AllGoThrough(w: World, ops: seq<Op>, clock: nat -> nat)
    decreases |ops|
  {
    ops != [] ==>
      && FreeOk(w.d) && GoesThrough(w, ops[0], clock(|ops|))
      && AllGoThrough(Step(w, ops[0], clock(|ops|)), ops[1..], clock)
  }

  /** After any run of writes that go through, to any files in any order, the checker finds
      nothing wrong. */
  lemma {:induction false} RunsStayClean(w: World, ops: seq<Op>, clock: nat -> nat)
    requires IsSettled(w) && AllGoThrough(w, ops, clock)
    ensures IsSettled(Run(w, ops, clock)) && Clean(Run(w, ops, clock))
    decreases |ops|
  {
    hide IsSettled, Clean, GoesThrough, Step;
    if ops == [] {
      SettledIsClean(w);
    } else {
      WriteSettles(w, ops[0], clock(|ops|));
      RunsStayClean(Step(w, ops[0], clock(|ops|)), ops[1..], clock);
    }
  }
}
