/** Growing a file from a free list that does not end regularly. What the list's last block `x`
    holds is not looked at until it is popped, so the growth does what it would do if `x`
    held an empty cache; the two disks are followed side by side. When `x` is popped, the
    count in it must be one a cache can hold, and then nothing further may be needed. */
module OpenGrow {
  import opened Bytes
  import opened FreeList
  import opened BlockTree
  import opened FileMap
  import opened Grow
  import opened Shrink
  import opened Demand

  /** The disk `d` has a regular list ending in `x`, and `e` differs from it only in the
      superblock and in `x`, which on `e` the list comes down to; or `x` has been popped. */
  ghost predicate Sim(d: Disk, e: Disk, x: nat) {
    && FreeOk(d) && SameShape(d, e) && Isize(d[SUPER]) <= x < Fsize(d[SUPER])
    && Tail(e, FreeOf(d), x)
    && forall y: nat :: y != SUPER && y != x ==> Read(e, y) == Read(d, y)
  }

  /** What is left of the list of `e`: it pops `L`, which ends in `x`, and comes down to what
      `x` holds. */
  ghost predicate Tail(e: Disk, L: seq<nat>, x: nat) {
    && Geometry(e) && Tfree(e[SUPER]) == |L| && LeftBy(e, L) == ChainRest(Read(e, x))
    && (L != [] ==> OpenList(e, L) && L[|L| - 1] == x)
  }

  /** The count in `x` is one a cache can hold. */
  predicate Loads(e: Disk, x: nat) { 0 <= ChainNfree(Read(e, x)) <= NICFREE }

  /** An allocation was refused because `x`, the one block left, cannot be loaded. */
  ghost predicate Stopped(e: Disk, x: nat) { Tail(e, [x], x) && !Loads(e, x) }

  // ----- one allocation ---------------------------------------------------------------------

  lemma PopTail(e: Disk, L: seq<nat>, x: nat, now: nat)
    requires L != [] && Tail(e, L, x) && SUPER != x
    ensures var b := AllocBlock(e, now);
      if |L| > 1 || Loads(e, x) then
        && b.ok && b.b == L[0] && |b.d| == |e| && b.d == e[SUPER := b.d[SUPER]] && Tail(b.d, L[1..], x)
        && Isize(b.d[SUPER]) == Isize(e[SUPER]) && Fsize(b.d[SUPER]) == Fsize(e[SUPER])
      else !b.ok && b.d == e
  {
    hide Get16, Get32, Words, AllocBlock, Chain, Left;
    if |L| > 1 || Loads(e, x) {
      PopStack(e, now, L);
      if |L| > 1 { assert L[1..][|L| - 2] == L[|L| - 1]; }
    } else {
      assert L == [x];
      StopTail(e, x, now);
    }
  }

  lemma StopTail(e: Disk, x: nat, now: nat)
    requires Stopped(e, x)
    ensures !AllocBlock(e, now).ok && AllocBlock(e, now).d == e
  {
    hide Get16, Get32, Words, Touch, SetNfree, SetTfree, LoadFree;
    var n, f := Nfree(e[SUPER]), Words(e[SUPER], SB_FREE);
    LeftUp(e, n, f, x);
    assert n == 1;
    assert f[0] == Get32(e[SUPER], SB_FREE) == x;
  }

  lemma LeftUp(d: Disk, n: int, f: seq<nat>, x: nat)
    requires |f| == NICFREE
    ensures n > 1 ==> Left(d, n, f, [x]) == RestOf(n - 1, f)
  {
    assert [x][1..] == [];
  }

  lemma AllocSim(d: Disk, e: Disk, x: nat, now: nat)
    requires Sim(d, e, x) && FreeOf(d) != []
    ensures var a, b := AllocBlock(d, now), AllocBlock(e, now); var L := FreeOf(d);
      && a.ok && a.b == L[0] && |a.d| == |d|
      && if |L| > 1 || Loads(e, x) then b.ok && b.b == a.b && Sim(a.d, b.d, x) && FreeOf(a.d) == L[1..] &&
          Read(b.d, x) == Read(e, x)
         else !b.ok && b.d == e && Stopped(e, x)
  {
    hide Get16, Get32, Words, AllocBlock, FreeRep, FreeOf, Tail, Loads;
    AllocPops(d, now);
    SimGeometry(d, e, x);
    PopTail(e, FreeOf(d), x, now);
    var a, b := AllocBlock(d, now), AllocBlock(e, now);
    if |FreeOf(d)| > 1 || Loads(e, x) {
      forall y: nat | y != SUPER
        ensures Read(a.d, y) == Read(d, y) && Read(b.d, y) == Read(e, y)
      {
      }
    } else {
      OneLeft(e, FreeOf(d), x);
    }
  }

  lemma OneLeft(e: Disk, L: seq<nat>, x: nat)
    requires |L| == 1 && Tail(e, L, x)
    ensures L == [x]
  {
  }

  lemma SimGeometry(d: Disk, e: Disk, x: nat)
    requires Sim(d, e, x)
    ensures SUPER < x < |d| && |e| == |d| && FreeOk(d)
  {
  }

  /** Writing the same block, neither listed nor `x`, on both. */
  lemma WriteSim(d: Disk, e: Disk, x: nat, b: nat, blk: Block)
    requires Sim(d, e, x) && b != x && b != SUPER && b !in FreeOf(d)
    ensures Sim(Write(d, b, blk), Write(e, b, blk), x)
    ensures FreeOf(Write(d, b, blk)) == FreeOf(d) && Read(Write(e, b, blk), x) == Read(e, x)
  {
    hide Get16, Get32, Words, FreeRep, FreeOf, OpenList;
    var L, d', e' := FreeOf(d), Write(d, b, blk), Write(e, b, blk);
    assert d'[SUPER] == d[SUPER] && e'[SUPER] == e[SUPER];
    FreeFrame(d, d');
    TailFrame(e, e', L, x);
    forall y: nat | y != SUPER && y != x
      ensures Read(e', y) == Read(d', y)
    {
      assert Read(e, y) == Read(d, y);
    }
  }

  lemma TailFrame(e: Disk, e': Disk, L: seq<nat>, x: nat)
    requires Tail(e, L, x) && |e'| == |e| && e'[SUPER] == e[SUPER] && Read(e', x) == Read(e, x)
    requires forall y :: y in L ==> Read(e', y) == Read(e, y)
    ensures Tail(e', L, x)
  {
    hide Get16, Get32, Words, OpenList;
    if L != [] { OpenFrame(e, e', L); } else { EmptyRest(e); EmptyRest(e'); }
  }

  // ----- one indirect block ---------------------------------------------------------------------

  /** Where a fresh block comes from: the free list of `d`. */
  lemma LinkFreshSim(d: Disk, e: Disk, x: nat, node: nat, depth: nat, slot: nat, now: nat)
    requires Sim(d, e, x) && node != 0 && depth >= 1 && slot < FANOUT
    requires Ready(d, Ms(TreeOf(d, node, depth))) && FreeOf(d) != [] && node != x
    requires Entry(Read(d, node), slot) == 0 && (depth > 1 ==> |FreeOf(d)| > 1)
    ensures var r, q := LinkFresh(d, node, slot, depth > 1, now), LinkFresh(e, node, slot, depth > 1, now);
      if |FreeOf(d)| > 1 || Loads(e, x) then q.ok && q.b == r.b && Sim(r.d, q.d, x) && Read(q.d, x) == Read(e, x)
      else !q.ok && Stopped(q.d, x)
  {
    hide Get16, Get32, AllocBlock, FreeRep, FreeOf, Tail, Entry, SetEntry, Loads, NoDup, MsAll;
    var L, a, b := FreeOf(d), AllocBlock(d, now), AllocBlock(e, now);
    TreeShape(d, node, depth);
    ReadyApart(d, Ms(TreeOf(d, node, depth)), node);
    AllocSim(d, e, x, now);
    SimGeometry(d, e, x);
    if |L| > 1 || Loads(e, x) {
      FreeWithin(d);
      assert L[0] in L && (forall y :: y in L[1..] ==> y in L);
      assert Read(e, node) == Read(d, node);
      var blk := SetEntry(Read(d, node), slot, a.b);
      var d1 := if depth > 1 then Write(a.d, a.b, ZeroBlock()) else a.d;
      var e1 := if depth > 1 then Write(b.d, a.b, ZeroBlock()) else b.d;
      if depth > 1 {
        NotLast(d, e, x);
        WriteSim(a.d, b.d, x, a.b, ZeroBlock());
      }
      WriteSim(d1, e1, x, node, blk);
      assert LinkFresh(d, node, slot, depth > 1, now) == Ensured(Write(d1, node, blk), true, a.b);
      assert LinkFresh(e, node, slot, depth > 1, now) == Ensured(Write(e1, node, blk), true, a.b);
    }
  }

  lemma NotLast(d: Disk, e: Disk, x: nat)
    requires Sim(d, e, x) && |FreeOf(d)| > 1
    ensures FreeOf(d)[0] != x
  {
    hide FreeRep, FreeOf;
    FreeWithin(d);
    assert FreeOf(d)[|FreeOf(d)| - 1] == x;
  }

  /** Both runs came to the same, and `x` is no indirect block; or the second was refused `x`. */
  ghost predicate Alike(d: Disk, e: Disk, x: nat, r: Ensured, q: Ensured)
    requires FreeOk(d) && FreeOk(r.d)
  {
    if FreeOf(r.d) != [] || FreeOf(d) == [] || Loads(e, x) then
      q.ok && q.b == r.b && Sim(r.d, q.d, x) && Read(q.d, x) == Read(e, x)
    else !q.ok && Stopped(q.d, x)
  }

  lemma {:induction false} EnsureChildSim(d: Disk, e: Disk, x: nat, node: nat, depth: nat, coords: seq<nat>, now: nat)
    requires node != 0 && depth >= 1 && GoodPath(coords, depth) && Sim(d, e, x)
    requires Ready(d, Ms(TreeOf(d, node, depth))) && x !in Nodes(TreeOf(d, node, depth))
    requires EnsureChild(d, node, depth, coords, now).ok
    ensures var r, q := EnsureChild(d, node, depth, coords, now), EnsureChild(e, node, depth, coords, now);
      FreeOk(r.d) && Alike(d, e, x, r, q) && x !in Nodes(TreeOf(r.d, node, depth))
    decreases depth, 1
  {
    hide Entry, LinkFresh, Ready, FreeOk, FreeOf, Sim, Stopped, TreeOf, Nodes, Ms;
    var slot := coords[0];
    SimGeometry(d, e, x);
    NodeAlike(d, e, x, node, depth);
    if Entry(Read(d, node), slot) != 0 {
      if depth > 1 { DescendSim(d, e, x, node, depth, coords, now); }
    } else if depth == 1 {
      LeafSim(d, e, x, node, slot, now);
    } else {
      var l, m := FreshSim(d, e, x, node, depth, coords, now);
      DescendSim(l.d, m.d, x, node, depth, coords, now);
    }
  }

  /** A fresh data block. */
  lemma LeafSim(d: Disk, e: Disk, x: nat, node: nat, slot: nat, now: nat)
    requires node != 0 && slot < FANOUT && Sim(d, e, x)
    requires Ready(d, Ms(TreeOf(d, node, 1))) && x !in Nodes(TreeOf(d, node, 1))
    requires Entry(Read(d, node), slot) == 0 && LinkFresh(d, node, slot, false, now).ok
    ensures var r, q := LinkFresh(d, node, slot, false, now), LinkFresh(e, node, slot, false, now);
      FreeOk(d) && FreeOk(r.d) && Alike(d, e, x, r, q) && x !in Nodes(TreeOf(r.d, node, 1))
  {
    hide Entry, LinkFresh, MsAll, NodesAll, NoDup, FreeRep, FreeOf, Sim, Stopped, Loads, Nodes, Ms, TreeOf;
    NodeAlike(d, e, x, node, 1);
    LinkFreshSound(d, node, 1, slot, now);
    LinkFreshGrows(d, node, 1, slot, now);
    LinkFreshSim(d, e, x, node, 1, slot, now);
    var l := LinkFresh(d, node, slot, false, now);
    FreshNodes(d, e, x, node, 1, slot, l.d, l.b);
  }

  /** A fresh indirect block, which is not `x`: something is still needed below it. */
  lemma FreshSim(d: Disk, e: Disk, x: nat, node: nat, depth: nat, coords: seq<nat>, now: nat)
    returns (l: Ensured, m: Ensured)
    requires node != 0 && depth > 1 && GoodPath(coords, depth) && Sim(d, e, x)
    requires Ready(d, Ms(TreeOf(d, node, depth))) && x !in Nodes(TreeOf(d, node, depth))
    requires Entry(Read(d, node), coords[0]) == 0 && EnsureChild(d, node, depth, coords, now).ok
    ensures l == LinkFresh(d, node, coords[0], true, now) && m == LinkFresh(e, node, coords[0], true, now)
    ensures l.ok && m.ok && m.b == l.b != 0 && Sim(l.d, m.d, x) && Read(m.d, x) == Read(e, x)
    ensures Entry(Read(l.d, node), coords[0]) == l.b && FreeOk(l.d) && FreeOf(l.d) != [] && FreeOk(d) && FreeOf(d) != []
    ensures Ready(l.d, Ms(TreeOf(l.d, node, depth))) && x !in Nodes(TreeOf(l.d, node, depth))
  {
    hide Entry, LinkFresh, MsAll, NodesAll, NoDup, FreeRep, FreeOf, Sim, Stopped, Loads, Nodes, Ms, TreeOf;
    var slot := coords[0];
    NodeAlike(d, e, x, node, depth);
    LinkFreshSound(d, node, depth, slot, now);
    LinkFreshGrows(d, node, depth, slot, now);
    l, m := LinkFresh(d, node, slot, true, now), LinkFresh(e, node, slot, true, now);
    NeedsMore(d, l.d, l.b, depth - 1, coords[1..], now);
    LinkFreshSim(d, e, x, node, depth, slot, now);
    FreshNodes(d, e, x, node, depth, slot, l.d, l.b);
    var t, u := TreeOf(d, node, depth), TreeOf(l.d, node, depth);
    GrownReady(d, Nodes(t), Ms(t), l.d, Nodes(u), Ms(u));
  }

  lemma NodeAlike(d: Disk, e: Disk, x: nat, node: nat, depth: nat)
    requires node != 0 && depth >= 1 && Sim(d, e, x) && Ready(d, Ms(TreeOf(d, node, depth))) &&
        x !in Nodes(TreeOf(d, node, depth))
    ensures node != x && Read(e, node) == Read(d, node)
  {
    hide FreeRep, FreeOf, Tail, MsAll, NodesAll, NoDup;
    TreeShape(d, node, depth);
    ReadyApart(d, Ms(TreeOf(d, node, depth)), node);
  }

  /** A fresh indirect block needs another block below it, so the block just taken was not the last. */
  lemma NeedsMore(d: Disk, l: Disk, b: nat, depth: nat, coords: seq<nat>, now: nat)
    requires depth >= 1 && GoodPath(coords, depth) && FreeOk(d) && FreeOk(l) && FreeOf(d) != [] &&
        FreeOf(l) == FreeOf(d)[1..]
    requires Read(l, b) == ZeroBlock() && EnsureChild(l, b, depth, coords, now).ok
    ensures |FreeOf(d)| > 1
  {
    hide FreeOf, AllocBlock, Entry, FreeOk;
    ZeroEntries();
    if |FreeOf(d)| == 1 { AllocPops(l, now); }
  }

  /** `x` is an indirect block neither before nor after a block was linked. */
  lemma FreshNodes(d: Disk, e: Disk, x: nat, node: nat, depth: nat, slot: nat, l: Disk, b: nat)
    requires node != 0 && depth >= 1 && slot < FANOUT && Sim(d, e, x) && x !in Nodes(TreeOf(d, node, depth))
    requires FreeOf(d) != [] && b == FreeOf(d)[0] && (depth > 1 ==> |FreeOf(d)| > 1 && Read(l, b) == ZeroBlock())
    requires var k' := TreeOf(l, b, depth - 1);
      TreeOf(l, node, depth) == Indir(node, TreeOf(d, node, depth).kids[slot := k']) && b != 0
    ensures x !in Nodes(TreeOf(l, node, depth))
  {
    hide Entry, FreeOf, FreeRep, NodesAll, Sim;
    var ks, k' := TreeOf(d, node, depth).kids, TreeOf(l, b, depth - 1);
    NodesUpdate(ks, slot, k');
    if depth > 1 {
      NotLast(d, e, x);
      ZeroTree(l, b, depth - 1);
    }
  }

  /** The recursive step, through a child that exists. */
  lemma {:induction false} DescendSim(d: Disk, e: Disk, x: nat, node: nat, depth: nat, coords: seq<nat>, now: nat)
    requires node != 0 && depth > 1 && GoodPath(coords, depth) && Sim(d, e, x)
    requires Ready(d, Ms(TreeOf(d, node, depth))) && x !in Nodes(TreeOf(d, node, depth))
    requires Entry(Read(d, node), coords[0]) != 0
    requires EnsureChild(d, Entry(Read(d, node), coords[0]), depth - 1, coords[1..], now).ok
    ensures var c := Entry(Read(d, node), coords[0]);
      var r, q := EnsureChild(d, c, depth - 1, coords[1..], now), EnsureChild(e, c, depth - 1, coords[1..], now);
      FreeOk(r.d) && Alike(d, e, x, r, q) && x !in Nodes(TreeOf(r.d, node, depth))
    decreases depth, 0
  {
    hide Entry, EnsureChild, Nodes, Ms, FreeOk, FreeOf, Sim, Alike, Grown, Ready;
    var slot := coords[0];
    var c, ks := Entry(Read(d, node), slot), TreeOf(d, node, depth).kids;
    KidReady(d, node, depth, slot);
    EnsureChildSound(d, c, depth - 1, coords[1..], now);
    KidNodes(node, ks, slot, x);
    EnsureChildSim(d, e, x, c, depth - 1, coords[1..], now);
    var r := EnsureChild(d, c, depth - 1, coords[1..], now);
    KidGrown(d, node, depth, slot, r.d);
    SwapNodes(node, ks, slot, TreeOf(r.d, c, depth - 1), x);
  }

  lemma KidNodes(b: nat, ks: seq<Tree>, slot: nat, x: nat)
    requires slot < |ks| && x !in Nodes(Indir(b, ks))
    ensures x !in Nodes(ks[slot])
  {
    NodesUpdate(ks, slot, ks[slot]);
  }

  lemma SwapNodes(b: nat, ks: seq<Tree>, slot: nat, k: Tree, x: nat)
    requires slot < |ks| && x !in Nodes(Indir(b, ks)) && x !in Nodes(k)
    ensures x !in Nodes(Indir(b, ks[slot := k]))
  {
    NodesUpdate(ks, slot, k);
  }

  // ----- one file ---------------------------------------------------------------------------------

  ghost predicate AlikeMap(d: Disk, e: Disk, x: nat, r: Mapped, q: Mapped)
    requires FreeOk(d) && FreeOk(r.d)
  {
    if FreeOf(r.d) != [] || FreeOf(d) == [] || Loads(e, x) then
      q.ok && q.b == r.b && q.addrs == r.addrs && Sim(r.d, q.d, x) && Read(q.d, x) == Read(e, x)
    else !q.ok && Stopped(q.d, x)
  }

  lemma DirectSim(d: Disk, e: Disk, x: nat, addrs: Addrs, idx: nat, now: nat)
    requires idx < NDIRECT && Sim(d, e, x) && FileReady(d, addrs) && x !in NodesAll(Forest(d, addrs))
    requires EnsureData(d, addrs, idx, now).ok
    ensures var r, q := EnsureData(d, addrs, idx, now), EnsureData(e, addrs, idx, now);
      FreeOk(d) && FreeOk(r.d) && AlikeMap(d, e, x, r, q) && x !in NodesAll(Forest(r.d, r.addrs))
  {
    hide AllocBlock, FreeRep, FreeOf, MsAll, NodesAll, Sim, Stopped, NoDup, Get16, Get32;
    SimGeometry(d, e, x);
    var r, f := EnsureData(d, addrs, idx, now), Forest(d, addrs);
    DirectSound(d, addrs, idx, now);
    ForestShape(r.d, r.addrs, idx);
    NodesUpdate(f, idx, Forest(r.d, r.addrs)[idx]);
    if addrs[idx] == 0 {
      AllocPops(d, now);
      AllocSim(d, e, x, now);
    }
  }

  /** A fresh root, which is not `x` either. */
  lemma RootSim(d: Disk, e: Disk, x: nat, addrs: Addrs, slot: nat, coords: seq<nat>, now: nat)
    requires NDIRECT <= slot < NADDR && addrs[slot] == 0 && GoodPath(coords, DepthOf(slot))
    requires Sim(d, e, x) && FileReady(d, addrs) && x !in NodesAll(Forest(d, addrs))
    requires var r := RootFor(d, addrs, slot, now); r.ok && EnsureChild(r.d, r.b, DepthOf(slot), coords, now).ok
    ensures var r, q := RootFor(d, addrs, slot, now), RootFor(e, addrs, slot, now);
      && FreeOk(d) && FreeOf(d) != [] && FreeOk(r.d) && FreeOf(r.d) != []
      && q.ok && q.b == r.b && q.addrs == r.addrs && Sim(r.d, q.d, x) && Read(q.d, x) == Read(e, x)
      && x !in NodesAll(Forest(r.d, r.addrs))
  {
    hide AllocBlock, FreeRep, FreeOf, MsAll, NodesAll, Sim, Stopped, Nodes, Ms, NoDup, Get16, Get32, EnsureChild, Grown;
    var r, q, f, L := RootFor(d, addrs, slot, now), RootFor(e, addrs, slot, now), Forest(d, addrs), FreeOf(d);
    SimGeometry(d, e, x);
    AllocPops(d, now);
    RootForSound(d, addrs, slot, now);
    FreeWithin(d);
    var a, b := AllocBlock(d, now), AllocBlock(e, now);
    assert L[0] in L && a.b == L[0];
    FreeFrame(a.d, r.d);
    NeedsMore(d, r.d, r.b, DepthOf(slot), coords, now);
    AllocSim(d, e, x, now);
    NotLast(d, e, x);
    SimGeometry(a.d, b.d, x);
    WriteSim(a.d, b.d, x, a.b, ZeroBlock());
    ZeroTree(r.d, r.b, DepthOf(slot));
    NodesUpdate(f, slot, Forest(r.d, r.addrs)[slot]);
  }

  lemma IndirectSim(d: Disk, e: Disk, x: nat, addrs: Addrs, idx: nat, now: nat)
    requires NDIRECT <= idx < MAXBLOCKS && addrs[ClassifyIndex(idx).slot] != 0
    requires Sim(d, e, x) && FileReady(d, addrs) && x !in NodesAll(Forest(d, addrs))
    requires EnsureData(d, addrs, idx, now).ok
    ensures var r, q := EnsureData(d, addrs, idx, now), EnsureData(e, addrs, idx, now);
      FreeOk(d) && FreeOk(r.d) && AlikeMap(d, e, x, r, q) && x !in NodesAll(Forest(r.d, r.addrs))
  {
    hide FreeOk, FreeOf, MsAll, NodesAll, Sim, Stopped, Nodes, Ms, NoDup, EnsureChild, Grown, FilePlaced;
    ClassifySound(idx);
    var c, f, r := ClassifyIndex(idx), Forest(d, addrs), EnsureData(d, addrs, idx, now);
    SimGeometry(d, e, x);
    MsSplit(f, c.slot);
    ReadySub(d, Ms(f[c.slot]), MsAll(f));
    NodesUpdate(f, c.slot, f[c.slot]);
    EnsureChildSim(d, e, x, addrs[c.slot], c.depth, c.coords, now);
    IndirectSound(d, addrs, idx, now);
    NodesUpdate(f, c.slot, Forest(r.d, r.addrs)[c.slot]);
  }

  lemma EnsureDataSim(d: Disk, e: Disk, x: nat, addrs: Addrs, idx: nat, now: nat)
    requires Sim(d, e, x) && FileReady(d, addrs) && x !in NodesAll(Forest(d, addrs))
    requires EnsureData(d, addrs, idx, now).ok
    ensures var r, q := EnsureData(d, addrs, idx, now), EnsureData(e, addrs, idx, now);
      FreeOk(d) && FreeOk(r.d) && AlikeMap(d, e, x, r, q) && x !in NodesAll(Forest(r.d, r.addrs))
  {
    hide FreeRep, FreeOf, MsAll, NodesAll, Sim, Stopped, NoDup, EnsureChild, RootFor, Forest, Grown, AllocBlock;
    ClassifySound(idx);
    if idx < NDIRECT {
      DirectSim(d, e, x, addrs, idx, now);
    } else {
      var c := ClassifyIndex(idx);
      if addrs[c.slot] != 0 {
        IndirectSim(d, e, x, addrs, idx, now);
      } else {
        RootForSound(d, addrs, c.slot, now);
        RootSim(d, e, x, addrs, c.slot, c.coords, now);
        var r, q, f := RootFor(d, addrs, c.slot, now), RootFor(e, addrs, c.slot, now), Forest(d, addrs);
        var f1 := Forest(r.d, r.addrs);
        GrownReady(d, NodesAll(f), MsAll(f), r.d, NodesAll(f1), MsAll(f1));
        RootThere(d, addrs, idx, now);
        RootThere(e, addrs, idx, now);
        IndirectSim(r.d, q.d, x, r.addrs, idx, now);
      }
    }
  }

  /** With its root in place, mapping goes on from there. */
  lemma RootThere(d: Disk, addrs: Addrs, idx: nat, now: nat)
    requires NDIRECT <= idx < MAXBLOCKS
    ensures var r := RootFor(d, addrs, ClassifyIndex(idx).slot, now);
      r.ok && r.b != 0 && r.addrs[ClassifyIndex(idx).slot] == r.b ==>
          EnsureData(d, addrs, idx, now) == EnsureData(r.d, r.addrs, idx, now)
  {
    hide AllocBlock, EnsureChild;
    ClassifySound(idx);
  }

  /** A whole growth that goes through on `d`. On `e` it does the same, with the same blocks,
      unless it comes to need `x`, the last of the list, and `x` cannot be loaded. */
  lemma {:induction false} GrowSim(d: Disk, e: Disk, x: nat, addrs: Addrs, i: nat, n: nat, now: nat)
    requires i <= n && Sim(d, e, x) && FileReady(d, addrs) && x !in NodesAll(Forest(d, addrs))
    requires GrowFrom(d, addrs, i, n, now).ok
    ensures var r, q := GrowFrom(d, addrs, i, n, now), GrowFrom(e, addrs, i, n, now);
      && FreeOk(d) && FreeOk(r.d)
      && if FreeOf(r.d) != [] || FreeOf(d) == [] || Loads(e, x) then
           && q.ok && q.blocks == r.blocks && q.addrs == r.addrs && x !in NodesAll(Forest(r.d, r.addrs))
           && Sim(r.d, q.d, x) && Read(q.d, x) == Read(e, x)
         else !q.ok && Stopped(q.d, x)
    decreases n - i
  {
    hide FreeRep, FreeOf, MsAll, NodesAll, Sim, Stopped, NoDup, EnsureData, Forest, Grown, FilePlaced;
    SimGeometry(d, e, x);
    if i < n {
      EnsureDataSim(d, e, x, addrs, i, now);
      EnsureDataSound(d, addrs, i, now);
      var m, k, f := EnsureData(d, addrs, i, now), EnsureData(e, addrs, i, now), Forest(d, addrs);
      var f1 := Forest(m.d, m.addrs);
      GrownReady(d, NodesAll(f), MsAll(f), m.d, NodesAll(f1), MsAll(f1));
      StaysEmpty(d, addrs, i, n, now);
      if k.ok { GrowSim(m.d, k.d, x, m.addrs, i + 1, n, now); }
    }
  }

  /** A list once empty stays so. */
  lemma StaysEmpty(d: Disk, addrs: Addrs, i: nat, n: nat, now: nat)
    requires i < n && FileReady(d, addrs)
    ensures var m := EnsureData(d, addrs, i, now);
      && FreeOk(d) && FreeOk(m.d) && FreeOk(GrowFrom(d, addrs, i, n, now).d)
      && (FreeOf(d) == [] ==> FreeOf(m.d) == []) &&
          (FreeOf(m.d) == [] ==> FreeOf(GrowFrom(d, addrs, i, n, now).d) == [])
  {
    hide FreeRep, FreeOf, MsAll, NodesAll, NoDup, EnsureData, Forest, FilePlaced, SameShape, OnlyWrites, FileAt;
    EnsureDataSound(d, addrs, i, now);
    var m, f := EnsureData(d, addrs, i, now), Forest(d, addrs);
    var f1 := Forest(m.d, m.addrs);
    NothingIn(FreeOf(d), FreeOf(m.d));
    if m.ok {
      GrownReady(d, NodesAll(f), MsAll(f), m.d, NodesAll(f1), MsAll(f1));
      GrowSound(m.d, m.addrs, i + 1, n, now);
      NothingIn(FreeOf(m.d), FreeOf(GrowFrom(d, addrs, i, n, now).d));
    }
  }

  lemma NothingIn(L: seq<nat>, M: seq<nat>)
    requires forall x :: x in M ==> x in L
    ensures L == [] ==> M == []
  {
    if M != [] { assert M[0] in M; }
  }

  // ----- growing from a list that does not end regularly --------------------------------------------

  /** The list of `e` pops `L`, and what it comes down to then is no regular end. */
  ghost predicate Irregular(e: Disk, L: seq<nat>) {
    && Geometry(e) && Tfree(e[SUPER]) == |L| && !Ended(LeftBy(e, L))
    && (L != [] ==> OpenList(e, L))
  }

  lemma IrregularNotOk(e: Disk, L: seq<nat>)
    requires Irregular(e, L)
    ensures !FreeOk(e)
  {
    hide Get16, Get32, Words, Chain, Left, Ended;
    if L != [] {
      FreeOfIs(e, L);
    } else {
      NothingLeft(e);
    }
  }

  lemma NothingLeft(e: Disk)
    requires Geometry(e) && Tfree(e[SUPER]) == 0
    ensures FreeOk(e) ==> Ended(LeftBy(e, []))
  {
    hide Get16, Get32, Words, Chain, Left, Ended;
    if FreeOk(e) {
      var M :| FreeRep(e, M);
      assert M == [];
    }
  }

  lemma IrregularFrame(e: Disk, e': Disk, L: seq<nat>)
    requires Irregular(e, L) && |e'| == |e| && e'[SUPER] == e[SUPER] && forall y :: y in L ==> Read(e', y) == Read(e, y)
    ensures Irregular(e', L)
  {
    hide Get16, Get32, Words, OpenList, Ended;
    if L != [] { OpenFrame(e, e', L); } else { EmptyRest(e); EmptyRest(e'); }
  }

  lemma TailIrregular(e: Disk, L: seq<nat>, x: nat)
    requires Tail(e, L, x) && !Ended(ChainRest(Read(e, x)))
    ensures Irregular(e, L)
  {
  }

  /** The last block of a list that does not end regularly is a chain pointer nothing has read;
      with an empty cache written into it the list is regular. */
  lemma {:induction false} MendChain(e: Disk, d: Disk, n: int, f: seq<nat>, L: seq<nat>)
    requires |f| == NICFREE && L != [] && Chain(e, n, f, L) && !Ended(Left(e, n, f, L))
    requires forall i :: 0 <= i < |L| - 1 ==> Read(d, L[i]) == Read(e, L[i])
    ensures Chain(d, n, f, L)
    ensures var x := L[|L| - 1]; Left(d, n, f, L) == ChainRest(Read(d, x)) && Left(e, n, f, L) == ChainRest(Read(e, x))
    decreases |L|
  {
    hide Ended, Get16, Get32, Words;
    if |L| > 1 {
      if n > 1 {
        MendChain(e, d, n - 1, f, L[1..]);
      } else {
        var c := Read(e, L[0]);
        MendChain(e, d, ChainNfree(c), Words(c, FBLK_FREE), L[1..]);
      }
    } else {
      assert L[1..] == [];
      LeftUp(e, n, f, L[0]);
      assert L == [L[0]];
      LeftOne(e, n, f, L);
      LeftOne(d, n, f, L);
    }
  }

  lemma EmptyCache()
    ensures Ended(ChainRest(ZeroBlock()))
  {
  }

  lemma Mending(e: Disk, M: seq<nat>, addrs: Addrs)
    requires ReadyOn(e, M, MsAll(Forest(e, addrs))) && M != [] && !Ended(LeftBy(e, M))
    ensures var x := M[|M| - 1]; var d := Write(e, x, ZeroBlock());
      && Sim(d, e, x) && FreeOf(d) == M && FileReady(d, addrs) && Forest(d, addrs) == Forest(e, addrs)
      && x !in NodesAll(Forest(e, addrs)) && LeftBy(e, M) == ChainRest(Read(e, x))
  {
    hide Get16, Get32, Words, Ended, Forest, MsAll, NodesAll, NoDup, Chain, Left;
    var x := M[|M| - 1];
    var d, f := Write(e, x, ZeroBlock()), Forest(e, addrs);
    var sb := e[SUPER];
    assert x in M;
    MendChain(e, d, Nfree(sb), Words(sb, SB_FREE), M);
    EmptyCache();
    assert FreeRep(d, M);
    FreeOfIs(d, M);
    if x in NodesAll(f) {
      InFileMs(f, x);
      ReadyOnApart(e, M, MsAll(f), x);
    }
    ForestFrame(e, d, addrs);
    OnIsReady(d, MsAll(f));
  }

  lemma InFileMs(f: seq<Tree>, x: nat)
    requires x in NodesAll(f)
    ensures x in MsAll(f)
  {
    var i := NodesFrom(f, x);
    NodesInMs(f[i], x);
    MsSplit(f, i);
  }

  /** No growth goes past the triple-indirect limit: it stops where one to the limit does. */
  lemma {:induction false} GrowCapped(d: Disk, addrs: Addrs, i: nat, n: nat, now: nat)
    requires i <= MAXBLOCKS < n
    ensures var r, q := GrowFrom(d, addrs, i, n, now), GrowFrom(d, addrs, i, MAXBLOCKS, now);
      !r.ok && r.d == q.d && r.addrs == q.addrs
    decreases MAXBLOCKS - i
  {
    hide EnsureData;
    if i < MAXBLOCKS {
      var m := EnsureData(d, addrs, i, now);
      if m.ok { GrowCapped(m.d, m.addrs, i + 1, n, now); }
    } else {
      PastLimitFails(d, addrs, now);
    }
  }

  lemma PastLimitFails(d: Disk, addrs: Addrs, now: nat)
    ensures EnsureData(d, addrs, MAXBLOCKS, now) == Mapped(d, addrs, false, 0)
  {
    ClassifySound(MAXBLOCKS);
  }

  /** A file's blocks lie in the data area, none of them twice. */
  ghost predicate FileHeld(d: Disk, addrs: Addrs) {
    Geometry(d) && NoDup(MsAll(Forest(d, addrs))) && Between(MsAll(Forest(d, addrs)), Isize(d[SUPER]), Fsize(d[SUPER]))
  }

  /** What a successful growth to `n` blocks made of a file, with `L'` left of the list that popped `L`. */
  ghost predicate GrownOpen(d: Disk, addrs: Addrs, L: seq<nat>, q: GrowResult, L': seq<nat>) {
    var f, f' := Forest(d, addrs), Forest(q.d, q.addrs);
    && SameShape(d, q.d) && FileHeld(q.d, q.addrs) && Irregular(q.d, L')
    && MsAll(f') + multiset(L') == MsAll(f) + multiset(L)
    && OnlyWrites(d, q.d, NodesAll(f), L)
  }

  /** Growing from a list that does not end regularly, when no more pointers are missing than
      the list has blocks: it succeeds exactly within the triple-indirect limit and unless the
      very last block is needed and cannot be loaded. The first blocks are then mapped, and
      every block is still accounted for. The list does not become regular by it. */
  lemma GrowOpen(e: Disk, M: seq<nat>, addrs: Addrs, n: nat, now: nat)
    requires ReadyOn(e, M, MsAll(Forest(e, addrs))) && M != [] && !Ended(LeftBy(e, M))
    requires FileMissing(Forest(e, addrs), n) <= |M|
    ensures var q, miss := GrowFrom(e, addrs, 0, n, now), FileMissing(Forest(e, addrs), n);
      && (q.ok <==> n <= MAXBLOCKS && (miss < |M| || Loads(e, M[|M| - 1])))
      && (q.ok ==> |q.blocks| == n && (forall j: nat :: j < n ==> FileAt(Forest(q.d, q.addrs), j) == q.blocks[j] != 0)
                   && exists L' :: |L'| == |M| - miss && GrownOpen(e, addrs, M, q, L'))
      && !FreeOk(q.d)
  {
    hide Get16, Get32, Words, Ended, Forest, MsAll, NodesAll, NoDup, OpenList, GrowFrom, FileMissing, FileAt, GrownOpen,
         FreeOk, Loads, LeftBy, ReadyOn;
    if n > MAXBLOCKS {
      GrowCapped(e, addrs, 0, n, now);
      FileMissingGrows(Forest(e, addrs), MAXBLOCKS, n);
      GrowOpenWithin(e, M, addrs, MAXBLOCKS, now);
    } else {
      GrowOpenWithin(e, M, addrs, n, now);
    }
  }

  lemma StoppedNotOk(e: Disk, x: nat)
    requires Stopped(e, x)
    ensures !FreeOk(e)
  {
    hide Get16, Get32, Words, OpenList, LeftBy;
    TailIrregular(e, [x], x);
    IrregularNotOk(e, [x]);
  }

  /** What the growth on the regular disk made of the file, it made on the other as well. */
  lemma SimGrown(d: Disk, e: Disk, addrs: Addrs, x: nat, r: GrowResult, q: GrowResult)
    requires Sim(d, e, x) && FileReady(d, addrs) && Forest(d, addrs) == Forest(e, addrs) && x in FreeOf(d)
    requires FileGrown(d, addrs, r.d, r.addrs) && Sim(r.d, q.d, x) && x !in NodesAll(Forest(r.d, r.addrs))
    requires q.addrs == r.addrs && Read(q.d, x) == Read(e, x) && !Ended(ChainRest(Read(e, x)))
    ensures Forest(q.d, q.addrs) == Forest(r.d, r.addrs) && GrownOpen(e, addrs, FreeOf(d), q, FreeOf(r.d)) &&
        !FreeOk(q.d)
  {
    hide Get16, Get32, Words, Ended, Forest, MsAll, NodesAll, OpenList, Tail, FreeRep, FreeOf, LeftBy;
    var f, f' := Forest(d, addrs), Forest(r.d, r.addrs);
    GrownReady(d, NodesAll(f), MsAll(f), r.d, NodesAll(f'), MsAll(f'));
    forall y | y in NodesAll(f')
      ensures Read(q.d, y) == Read(r.d, y)
    {
      InFileMs(f', y);
      ReadyApart(r.d, MsAll(f'), y);
    }
    ForestFrame(r.d, q.d, r.addrs);
    SubNoDup(MsAll(f'), MsAll(f') + multiset(FreeOf(r.d)));
    TailIrregular(q.d, FreeOf(r.d), x);
    IrregularNotOk(q.d, FreeOf(r.d));
  }

  lemma GrowOpenWithin(e: Disk, M: seq<nat>, addrs: Addrs, n: nat, now: nat)
    requires ReadyOn(e, M, MsAll(Forest(e, addrs))) && M != [] && !Ended(LeftBy(e, M))
    requires n <= MAXBLOCKS && FileMissing(Forest(e, addrs), n) <= |M|
    ensures var q, miss := GrowFrom(e, addrs, 0, n, now), FileMissing(Forest(e, addrs), n);
      && (q.ok <==> miss < |M| || Loads(e, M[|M| - 1]))
      && (q.ok ==> |q.blocks| == n && (forall j: nat :: j < n ==> FileAt(Forest(q.d, q.addrs), j) == q.blocks[j] != 0)
                   && exists L' :: |L'| == |M| - miss && GrownOpen(e, addrs, M, q, L'))
      && !FreeOk(q.d)
  {
    hide Get16, Get32, Words, Ended, Forest, MsAll, NodesAll, NoDup, OpenList, GrowFrom, FileMissing, FileAt,
         GrownOpen, Sim, FreeOk, FreeOf, Grown, Loads, LeftBy, ReadyOn, FileReady, ChainRest;
    var x := M[|M| - 1];
    var d := Write(e, x, ZeroBlock());
    Mending(e, M, addrs);
    SimGeometry(d, e, x);
    GrowsExactly(d, addrs, n, now);
    GrowSim(d, e, x, addrs, 0, n, now);
    GrowSound(d, addrs, 0, n, now);
    var r, q := GrowFrom(d, addrs, 0, n, now), GrowFrom(e, addrs, 0, n, now);
    if q.ok {
      SimGrown(d, e, addrs, x, r, q);
    } else {
      StoppedNotOk(q.d, x);
    }
  }
}
