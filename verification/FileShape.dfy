/** Growing and shrinking on the disk, pointer by pointer: where pointers appear and
    disappear, when an indirect block without entries can be left behind, and that
    nothing is kept past a file's end. */
module FileShape {
  import opened Bytes
  import opened FreeList
  import opened BlockTree
  import opened FileMap
  import opened Prune
  import opened Grow
  import opened Shrink
  import opened CutExact

  // ----- shrinking ------------------------------------------------------------------

  /** Shrinking a file on the disk to `n` blocks: at every position and depth the pointer
      stays or is cleared as `Stays` says, so none is left at or past `n`; and the blocks
      pushed on the free list are, each once, exactly those at the positions cleared. */
  lemma ShrinkExact(d: Disk, addrs: Addrs, n: nat, now: nat)
    requires FileReady(d, addrs)
    ensures var r := ShrinkFrom(d, addrs, 0, n, now);
            var f, f' := Forest(d, addrs), Forest(r.d, r.addrs);
            var freed := FreedForest(f, 0, n);
      && r.ok && OpenList(r.d, Reverse(freed) + FreeOf(d))
      && (forall s: nat, p :: s < NADDR && Pos(p, DepthOf(s)) ==>
            && Ptr(f'[s], p) == (if Stays(f, s, p, n) then Ptr(f[s], p) else 0)
            && (Offset(s) + Start(p, DepthOf(s)) >= n ==> Ptr(f'[s], p) == 0))
      && (forall x :: x in freed <==>
            x != 0 && exists s: nat, p :: s < NADDR && Pos(p, DepthOf(s)) && Ptr(f[s], p) == x && !Stays(f, s, p, n))
  {
    hide FileReady, PruneForest, FreedForest, MsAll, Ptr, Stays, OpenList, OnlyWrites, NoDup, Start, FileAt;
    var f := Forest(d, addrs);
    ShrinkSound(d, addrs, n, now);
    ForestIsShaped(d, addrs);
    FileNoDup(d, addrs);
    forall s: nat, p | s < NADDR && Pos(p, DepthOf(s))
      ensures Ptr(PruneForest(f, 0, n)[s], p) == (if Stays(f, s, p, n) then Ptr(f[s], p) else 0)
      ensures Offset(s) + Start(p, DepthOf(s)) >= n ==> Ptr(PruneForest(f, 0, n)[s], p) == 0
    {
      CutPtr(f, n, s, p);
      if Offset(s) + Start(p, DepthOf(s)) >= n { NothingPast(f, n, s, p); }
    }
    forall x
      ensures x in FreedForest(f, 0, n) <==>
        x != 0 && exists s: nat, p :: s < NADDR && Pos(p, DepthOf(s)) && Ptr(f[s], p) == x && !Stays(f, s, p, n)
    {
      FreedExactly(f, n, x);
    }
  }

  // ----- growing ------------------------------------------------------------------------

  /** `r` is `p` or a position above it. */
  ghost predicate OnWay(r: seq<nat>, p: seq<nat>) {
    |r| <= |p| && p[..|r|] == r
  }

  /** Pointers only appear, and only on the way to `p`. */
  ghost predicate OnlyAlong(t: Tree, t': Tree, p: seq<nat>) {
    forall r :: Ptr(t', r) != Ptr(t, r) ==> Ptr(t, r) == 0 && OnWay(r, p)
  }

  lemma AlongTrans(t: Tree, u: Tree, v: Tree, p: seq<nat>)
    requires OnlyAlong(t, u, p) && OnlyAlong(u, v, p)
    ensures OnlyAlong(t, v, p)
  {
    hide Ptr;
    forall r | Ptr(v, r) != Ptr(t, r)
      ensures Ptr(t, r) == 0 && OnWay(r, p)
    {
      if Ptr(u, r) == Ptr(t, r) { assert Ptr(v, r) != Ptr(u, r); }
    }
  }

  lemma AlongKid(b: nat, ks: seq<Tree>, slot: nat, k': Tree, p: seq<nat>)
    requires slot < |ks| && p != [] && p[0] == slot && OnlyAlong(ks[slot], k', p[1..])
    ensures OnlyAlong(Indir(b, ks), Indir(b, ks[slot := k']), p)
  {
    var t, t' := Indir(b, ks), Indir(b, ks[slot := k']);
    forall r | Ptr(t', r) != Ptr(t, r)
      ensures Ptr(t, r) == 0 && OnWay(r, p)
    {
      if r != [] && r[0] == slot {
        assert Ptr(k', r[1..]) != Ptr(ks[slot], r[1..]);
        assert p[..|r|] == [slot] + p[1..][..|r| - 1];
        assert r == [slot] + r[1..];
      }
    }
  }

  /** A fresh indirect block has no pointer below it. */
  lemma FreshPtrs(d: Disk, b: nat, depth: nat)
    requires depth >= 1 ==> Read(d, b) == ZeroBlock()
    ensures forall r :: r != [] ==> Ptr(TreeOf(d, b, depth), r) == 0
  {
    if depth >= 1 && b != 0 {
      ZeroEntries();
      forall r | r != []
        ensures Ptr(TreeOf(d, b, depth), r) == 0
      {
        assert r[0] < FANOUT ==> TreeOf(d, b, depth).kids[r[0]] == TreeOf(d, Entry(ZeroBlock(), r[0]), depth - 1);
      }
    }
  }

  /** Ensuring a leaf only adds pointers on the way to it, whether it succeeds or not. */
  lemma {:induction false} EnsureAlong(d: Disk, node: nat, depth: nat, coords: seq<nat>, now: nat)
    requires node != 0 && depth >= 1 && GoodPath(coords, depth) && Ready(d, Ms(TreeOf(d, node, depth)))
    ensures OnlyAlong(TreeOf(d, node, depth), TreeOf(EnsureChild(d, node, depth, coords, now).d, node, depth), coords)
    decreases depth, 1
  {
    hide Entry, LinkFresh, MsAll, NodesAll, NoDup, FreeRep, Grown, FreeOf, Ptr, Ms, Nodes;
    var slot := coords[0];
    var cur := Entry(Read(d, node), slot);
    var t := TreeOf(d, node, depth);
    if cur != 0 {
      if depth > 1 { DescendAlong(d, node, depth, coords, now); }
    } else if FreeOf(d) == [] {
      LinkFreshSound(d, node, depth, slot, now);
      ExhaustedTree(d, node, depth, now);
    } else {
      LinkFreshGrows(d, node, depth, slot, now);
      LinkFreshSound(d, node, depth, slot, now);
      var l := LinkFresh(d, node, slot, depth > 1, now);
      var u := TreeOf(l.d, node, depth);
      var k' := TreeOf(l.d, l.b, depth - 1);
      FreshPtrs(l.d, l.b, depth - 1);
      FreshAlong(t.kids[slot], k', coords[1..]);
      AlongKid(node, t.kids, slot, k', coords);
      if depth > 1 {
        GrownReady(d, Nodes(t), Ms(t), l.d, Nodes(u), Ms(u));
        DescendAlong(l.d, node, depth, coords, now);
        AlongTrans(t, u, TreeOf(EnsureChild(d, node, depth, coords, now).d, node, depth), coords);
      }
    }
  }

  lemma FreshAlong(k: Tree, k': Tree, p: seq<nat>)
    requires k.Hole? && forall r :: r != [] ==> Ptr(k', r) == 0
    ensures OnlyAlong(k, k', p)
  {
  }

  lemma {:induction false} DescendAlong(d: Disk, node: nat, depth: nat, coords: seq<nat>, now: nat)
    requires node != 0 && depth > 1 && GoodPath(coords, depth) && Ready(d, Ms(TreeOf(d, node, depth)))
    requires Entry(Read(d, node), coords[0]) != 0
    ensures var r := EnsureChild(d, Entry(Read(d, node), coords[0]), depth - 1, coords[1..], now);
      OnlyAlong(TreeOf(d, node, depth), TreeOf(r.d, node, depth), coords)
    decreases depth, 0
  {
    hide Entry, EnsureChild, MsAll, NodesAll, Nodes, Ms, Ready, FreeOk, FreeOf, Grown, Ptr;
    var slot := coords[0];
    var c := Entry(Read(d, node), slot);
    KidReady(d, node, depth, slot);
    EnsureChildSound(d, c, depth - 1, coords[1..], now);
    EnsureAlong(d, c, depth - 1, coords[1..], now);
    var r := EnsureChild(d, c, depth - 1, coords[1..], now);
    KidGrown(d, node, depth, slot, r.d);
    AlongKid(node, TreeOf(d, node, depth).kids, slot, TreeOf(r.d, c, depth - 1), coords);
  }

  /** Mapping an index only adds pointers on the way to it. */
  ghost predicate FileAlong(f: seq<Tree>, f': seq<Tree>, idx: nat)
    requires |f| == |f'| == NADDR
  {
    var c := ClassifyIndex(idx);
    forall s: nat, r {:trigger Ptr(f'[s], r)} {:trigger Ptr(f[s], r)} ::
      s < NADDR && Ptr(f'[s], r) != Ptr(f[s], r) ==>
          Ptr(f[s], r) == 0 && !c.TooLarge? && s == c.slot && OnWay(r, c.coords)
  }

  lemma SlotAlong(f: seq<Tree>, f': seq<Tree>, idx: nat)
    requires |f| == |f'| == NADDR && !ClassifyIndex(idx).TooLarge?
    requires var s := ClassifyIndex(idx).slot;
      s < NADDR && f' == f[s := f'[s]] && OnlyAlong(f[s], f'[s], ClassifyIndex(idx).coords)
    ensures FileAlong(f, f', idx)
  {
    hide Ptr, OnWay;
  }

  lemma FileAlongTrans(f: seq<Tree>, g: seq<Tree>, h: seq<Tree>, idx: nat)
    requires |f| == |g| == |h| == NADDR && FileAlong(f, g, idx) && FileAlong(g, h, idx)
    ensures FileAlong(f, h, idx)
  {
    hide Ptr, OnWay, ClassifyIndex;
    forall s: nat, r | s < NADDR && Ptr(h[s], r) != Ptr(f[s], r)
      ensures Ptr(f[s], r) == 0 && !ClassifyIndex(idx).TooLarge? && s == ClassifyIndex(idx).slot &&
          OnWay(r, ClassifyIndex(idx).coords)
    {
      if Ptr(g[s], r) == Ptr(f[s], r) { assert Ptr(h[s], r) != Ptr(g[s], r); }
    }
  }

  lemma DirectAlong(t: Tree, t': Tree)
    requires Shape(t', 0) && (t' == t || t.Hole?)
    ensures OnlyAlong(t, t', [])
  {
  }

  /** Mapping an index only adds pointers on the way to it, whether it succeeds or not. */
  lemma EnsureDataAlong(d: Disk, addrs: Addrs, idx: nat, now: nat)
    requires FileReady(d, addrs)
    ensures var r := EnsureData(d, addrs, idx, now); FileAlong(Forest(d, addrs), Forest(r.d, r.addrs), idx)
  {
    hide FreeRep, NoDup, MsAll, NodesAll, Nodes, Ms, EnsureChild, Grown, FileAlong, Ptr, FilePlaced, OnlyAlong;
    var f := Forest(d, addrs);
    ClassifySound(idx);
    var r := EnsureData(d, addrs, idx, now);
    if idx < NDIRECT {
      DirectSound(d, addrs, idx, now);
      ForestShape(r.d, r.addrs, idx);
      DirectAlong(f[idx], Forest(r.d, r.addrs)[idx]);
      SlotAlong(f, Forest(r.d, r.addrs), idx);
    } else if idx >= MAXBLOCKS {
      SameAlong(f, idx);
    } else {
      var c := ClassifyIndex(idx);
      RootForSound(d, addrs, c.slot, now);
      var root := RootFor(d, addrs, c.slot, now);
      var f1 := Forest(root.d, root.addrs);
      RootAlong(d, addrs, idx, now);
      if root.ok {
        GrownReady(d, NodesAll(f), MsAll(f), root.d, NodesAll(f1), MsAll(f1));
        IndirectSound(root.d, root.addrs, idx, now);
        assert r == EnsureData(root.d, root.addrs, idx, now);
        MsSplit(f1, c.slot);
        ReadySub(root.d, Ms(f1[c.slot]), MsAll(f1));
        EnsureAlong(root.d, root.addrs[c.slot], c.depth, c.coords, now);
        SlotAlong(f1, Forest(r.d, r.addrs), idx);
        FileAlongTrans(f, f1, Forest(r.d, r.addrs), idx);
      }
    }
  }

  lemma SameAlong(f: seq<Tree>, idx: nat)
    requires |f| == NADDR
    ensures FileAlong(f, f, idx)
  {
  }

  lemma RootAlong(d: Disk, addrs: Addrs, idx: nat, now: nat)
    requires FileReady(d, addrs) && NDIRECT <= idx < MAXBLOCKS
    ensures var r := RootFor(d, addrs, ClassifyIndex(idx).slot, now);
      FileAlong(Forest(d, addrs), Forest(r.d, r.addrs), idx)
  {
    hide FreeRep, NoDup, MsAll, NodesAll, Nodes, Ms, EnsureChild, FileGrown, FileAlong, Ptr, OnlyAlong, FileAt, RootFor;
    ClassifySound(idx);
    var c := ClassifyIndex(idx);
    var f, r := Forest(d, addrs), RootFor(d, addrs, c.slot, now);
    RootForSound(d, addrs, c.slot, now);
    if !r.ok || addrs[c.slot] != 0 {
      SameAlong(f, idx);
    } else {
      FreshPtrs(r.d, r.b, c.depth);
      FreshAlong(f[c.slot], Forest(r.d, r.addrs)[c.slot], c.coords);
      SlotAlong(f, Forest(r.d, r.addrs), idx);
    }
  }

  // ----- what growth and cutting keep of a file's shape -----------------------------------

  /** A position on the way to a leaf starts at or before it. */
  lemma WayStart(r: seq<nat>, p: seq<nat>, depth: nat)
    requires GoodPath(p, depth) && OnWay(r, p)
    ensures Pos(r, depth) && Start(r, depth) <= Index(p)
  {
    LeafPtr(Hole, p, depth);
    if r == p {} else { assert Below(r, p); BelowInside(r, p, depth); }
  }

  /** No pointer is kept whose indices are all at or past `n`. */
  ghost predicate Trimmed(f: seq<Tree>, n: nat)
    requires |f| == NADDR
  {
    forall s: nat, p :: s < NADDR && Pos(p, DepthOf(s)) && Ptr(f[s], p) != 0 ==> Offset(s) + Start(p, DepthOf(s)) < n
  }

  lemma AlongTrims(f: seq<Tree>, f': seq<Tree>, idx: nat, n: nat)
    requires |f| == |f'| == NADDR && Trimmed(f, n) && FileAlong(f, f', idx) && idx < n
    ensures Trimmed(f', n)
  {
    hide Ptr, Start, OnWay;
    forall s: nat, p | s < NADDR && Pos(p, DepthOf(s)) && Ptr(f'[s], p) != 0
      ensures Offset(s) + Start(p, DepthOf(s)) < n
    {
      if Ptr(f'[s], p) != Ptr(f[s], p) {
        ClassifySound(idx);
        WayStart(p, ClassifyIndex(idx).coords, DepthOf(s));
      }
    }
  }

  /** Mapping an index successfully leaves no new indirect block without entries. */
  lemma AlongTidies(f: seq<Tree>, f': seq<Tree>, idx: nat)
    requires ForestShaped(f) && ForestShaped(f') && Tidy(f) && FileAlong(f, f', idx) && FileAt(f', idx) != 0
    ensures Tidy(f')
  {
    hide Ptr, OnWay, HasEntry, At;
    ClassifySound(idx);
    var c := ClassifyIndex(idx);
    forall s: nat, p | s < NADDR && Inner(p, DepthOf(s)) && Ptr(f'[s], p) != 0
      ensures HasEntry(f'[s], p)
    {
      if Ptr(f'[s], p) == Ptr(f[s], p) {
        KeptEntry(f[s], f'[s], p, f, f', idx, s);
      } else {
        NextOnWay(f'[s], p, c.coords, c.depth);
      }
    }
  }

  lemma KeptEntry(t: Tree, t': Tree, p: seq<nat>, f: seq<Tree>, f': seq<Tree>, idx: nat, s: nat)
    requires |f| == |f'| == NADDR && s < NADDR && t == f[s] && t' == f'[s] && FileAlong(f, f', idx) && HasEntry(t, p)
    ensures HasEntry(t', p)
  {
    hide Ptr, OnWay, ClassifyIndex;
    var i: nat :| i < FANOUT && Ptr(t, p + [i]) != 0;
    assert Ptr(t', p + [i]) == Ptr(t, p + [i]);
  }

  lemma NextOnWay(t: Tree, p: seq<nat>, coords: seq<nat>, depth: nat)
    requires Shape(t, depth) && GoodPath(coords, depth) && OnWay(p, coords) && |p| < depth && At(t, coords) != 0
    ensures HasEntry(t, p)
  {
    hide Ptr, Shape;
    LeafPtr(t, coords, depth);
    var i := coords[|p|];
    var q := p + [i];
    assert coords[..|q|] == q;
    if q != coords { assert Below(q, coords); PtrAbove(t, q, coords, depth); }
  }

  /** Growing a file to `n` blocks keeps nothing past `n`; a successful growth of a tidy
      file leaves it tidy. */
  lemma {:induction false} GrowShape(d: Disk, addrs: Addrs, i: nat, n: nat, now: nat)
    requires i <= n && FileReady(d, addrs)
    ensures var r := GrowFrom(d, addrs, i, n, now);
            var f, f' := Forest(d, addrs), Forest(r.d, r.addrs);
      && (Trimmed(f, n) ==> Trimmed(f', n))
      && (Tidy(f) && r.ok ==> Tidy(f'))
    decreases n - i
  {
    hide FreeRep, FreeOf, NoDup, MsAll, NodesAll, EnsureData, FileAt, Grown, Forest, Trimmed, Tidy, FileAlong;
    var f := Forest(d, addrs);
    if i < n {
      EnsureDataSound(d, addrs, i, now);
      EnsureDataAlong(d, addrs, i, now);
      var m := EnsureData(d, addrs, i, now);
      var f1 := Forest(m.d, m.addrs);
      if Trimmed(f, n) { AlongTrims(f, f1, i, n); }
      if m.ok {
        ForestIsShaped(d, addrs);
        ForestIsShaped(m.d, m.addrs);
        if Tidy(f) { AlongTidies(f, f1, i); }
        GrownReady(d, NodesAll(f), MsAll(f), m.d, NodesAll(f1), MsAll(f1));
        GrowShape(m.d, m.addrs, i + 1, n, now);
      }
    }
  }

  /** Shrinking to `n` blocks keeps nothing past `n`. It leaves an indirect block without
      entries exactly when one was there, below a root and wholly before the cut. */
  lemma ShrinkShape(d: Disk, addrs: Addrs, n: nat, now: nat)
    requires FileReady(d, addrs)
    ensures var r := ShrinkFrom(d, addrs, 0, n, now);
            var f, f' := Forest(d, addrs), Forest(r.d, r.addrs);
      && Trimmed(f', n)
      && (Tidy(f') <==> forall s: nat, p ::
            s < NADDR && Inner(p, DepthOf(s)) && p != [] && FileEnd(s, p) <= n && Ptr(f[s], p) != 0 ==>
                HasEntry(f[s], p))
      && (Tidy(f) ==> Tidy(f'))
  {
    hide FileReady, PruneForest, FreedForest, MsAll, Ptr, OpenList, OnlyWrites, NoDup, Start, FileAt, HasEntry;
    var f := Forest(d, addrs);
    ShrinkSound(d, addrs, n, now);
    ForestIsShaped(d, addrs);
    CutTidies(f, n);
    forall s: nat, p | s < NADDR && Pos(p, DepthOf(s)) && Ptr(PruneForest(f, 0, n)[s], p) != 0
      ensures Offset(s) + Start(p, DepthOf(s)) < n
    {
      if Offset(s) + Start(p, DepthOf(s)) >= n { NothingPast(f, n, s, p); }
    }
  }

  // ----- how an empty indirect block comes about, and stays ------------------------------------

  /** With one block free, mapping the first leaf of an empty double-indirect tree takes it
      for the indirect block between and then fails: that block is left without entries. */
  lemma FailedGrowthUntidy(d: Disk, node: nat, now: nat)
    requires node != 0 && Ready(d, Ms(TreeOf(d, node, 2))) && Read(d, node) == ZeroBlock() && |FreeOf(d)| == 1
    ensures var r := EnsureChild(d, node, 2, [0, 0], now);
            var t := TreeOf(r.d, node, 2);
      && !r.ok && Ptr(t, [0]) == FreeOf(d)[0] != 0 && !HasEntry(t, [0])
  {
    hide Entry, SetEntry, AllocBlock, FreeRep, FreeOf, MsAll, NodesAll, NoDup, Get16, Get32;
    var c := FreeOf(d)[0];
    ZeroEntries();
    LinkFreshSound(d, node, 2, 0, now);
    LinkFreshGrows(d, node, 2, 0, now);
    var l := LinkFresh(d, node, 0, true, now);
    var u := TreeOf(l.d, node, 2);
    GrownReady(d, Nodes(TreeOf(d, node, 2)), Ms(TreeOf(d, node, 2)), l.d, Nodes(u), Ms(u));
    KidReady(l.d, node, 2, 0);
    assert Entry(Read(l.d, c), 0) == 0;
    LinkFreshSound(l.d, c, 1, 0, now);
    var r := EnsureChild(d, node, 2, [0, 0], now);
    assert [0, 0][1..] == [0];
    assert r == EnsureChild(l.d, c, 1, [0], now) == Ensured(AllocBlock(l.d, now).d, false, 0);
    ExhaustedTree(l.d, node, 2, now);
    FreshPtrs(l.d, c, 1);
    assert [0][1..] == [];
    KidPtr(u, 2, 0, []);
    assert [0] + [] == [0];
    forall i: nat | i < FANOUT ensures Ptr(u, [0] + [i]) == 0 {
      KidPtr(u, 2, 0, [i]);
    }
  }

  /** ... and a cut that keeps the 128 leaves below it passes it over. */
  lemma EmptyBlockPassedOver(t: Tree, keep: nat)
    requires Shape(t, 2) && NoDup(Ms(t)) && Ptr(t, [0]) != 0 && !HasEntry(t, [0]) && keep >= FANOUT
    ensures Ptr(PruneTree(t, 2, keep), [0]) == Ptr(t, [0]) && Ptr(t, [0]) !in FreedTree(t, 2, keep)
  {
    hide PruneTree, FreedTree, Ptr, Ms, MsAll, NoDup, Nodes;
    SpanValues();
    assert [0][1..] == [];
    assert Start([0], 2) == 0 && End([0], 2) == FANOUT;
    PrunePtr(t, 2, keep, [0]);
    PtrInMs(PruneTree(t, 2, keep), [0]);
    PruneTreeConserves(t, 2, keep);
    var freed: seq<nat> := FreedTree(t, 2, keep);
    var x := Ptr(t, [0]);
    if x in freed {
      assert x in multiset(freed);
      Apart(Ms(PruneTree(t, 2, keep)), multiset(freed), x);
    }
  }
}
