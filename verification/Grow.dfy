/** Growing a file: making sure a logical block is mapped, allocating data and
    indirect blocks on the way. */
module Grow {
  import opened Bytes
  import opened FreeList
  import opened BlockTree
  import opened FileMap

  // ----- what a growing step may do ------------------------------------------

  ghost predicate SameShape(d: Disk, e: Disk) {
    && Geometry(d) && Geometry(e) && |e| == |d|
    && Isize(e[SUPER]) == Isize(d[SUPER]) && Fsize(e[SUPER]) == Fsize(d[SUPER])
  }

  /** The blocks `m` and the free list share nothing, and `m` lies in the data area. */
  ghost predicate Ready(d: Disk, m: multiset<nat>) {
    && FreeOk(d)
    && NoDup(m + multiset(FreeOf(d)))
    && Between(m, Isize(d[SUPER]), Fsize(d[SUPER]))
  }

  ghost predicate OnlyWrites(d: Disk, e: Disk, nodes: set<nat>, free: seq<nat>) {
    forall x: nat :: x != SUPER && x !in nodes && x !in free ==> Read(e, x) == Read(d, x)
  }

  /** From `d` to `e` blocks moved from the free list into the trees: `m` and `n`
      are the indirect and all blocks before, `m'` and `n'` after. */
  ghost predicate Grown(d: Disk, n: set<nat>, m: multiset<nat>, e: Disk, n': set<nat>, m': multiset<nat>) {
    && FreeOk(d) && FreeOk(e) && SameShape(d, e)
    && m' + multiset(FreeOf(e)) == m + multiset(FreeOf(d))
    && OnlyWrites(d, e, n, FreeOf(d))
    && (forall x :: x in n' ==> x in n || x in FreeOf(d))
    && (forall x :: x in FreeOf(e) ==> x in FreeOf(d))
  }

  // ----- one indirect block ----------------------------------------------------

  datatype Ensured = Ensured(d: Disk, ok: bool, b: nat)

  /** Allocate a block and enter it in slot `slot` of indirect block `node`. */
  function LinkFresh(d: Disk, node: nat, slot: nat, zero: bool, now: nat): Ensured
    requires slot < FANOUT
  {
    var blk := Read(d, node);
    var a := AllocBlock(d, now);
    if !a.ok || (zero && a.b >= |a.d|) then Ensured(a.d, false, 0) else
    var d1 := if zero then Write(a.d, a.b, ZeroBlock()) else a.d;
    if node >= |d1| then Ensured(d1, false, 0) else Ensured(Write(d1, node, SetEntry(blk, slot, a.b)), true, a.b)
  }

  function EnsureChild(d: Disk, node: nat, depth: nat, coords: seq<nat>, now: nat): Ensured
    requires depth >= 1 && GoodPath(coords, depth)
    decreases depth
  {
    var slot := coords[0];
    var cur := Entry(Read(d, node), slot);
    if cur != 0 then
      if depth == 1 then Ensured(d, true, cur) else EnsureChild(d, cur, depth - 1, coords[1..], now)
    else
      var r := LinkFresh(d, node, slot, depth > 1, now);
      if !r.ok || depth == 1 then r else EnsureChild(r.d, r.b, depth - 1, coords[1..], now)
  }

  lemma ReadySub(d: Disk, m: multiset<nat>, n: multiset<nat>)
    requires Ready(d, n) && m <= n
    ensures Ready(d, m)
  {
    SubNoDup(m + multiset(FreeOf(d)), n + multiset(FreeOf(d)));
    forall x | x in m ensures x in n { assert m[x] <= n[x]; }
  }

  lemma ReadyApart(d: Disk, m: multiset<nat>, x: nat)
    requires Ready(d, m) && x in m
    ensures x !in FreeOf(d) && x != SUPER && Isize(d[SUPER]) <= x < Fsize(d[SUPER]) <= |d|
  {
    Apart(m, multiset(FreeOf(d)), x);
  }

  /** Linking a fresh block into an empty slot of an indirect block. */
  lemma LinkFreshSound(d: Disk, node: nat, depth: nat, slot: nat, now: nat)
    requires node != 0 && depth >= 1 && slot < FANOUT
    requires Ready(d, Ms(TreeOf(d, node, depth)))
    requires Entry(Read(d, node), slot) == 0
    ensures var r := LinkFresh(d, node, slot, depth > 1, now);
      if FreeOf(d) == [] then r == Ensured(AllocBlock(d, now).d, false, 0)
      else
        && r.ok && r.b == FreeOf(d)[0] && 0 < r.b < 0x1_0000_0000
        && FreeOk(r.d) && FreeOf(r.d) == FreeOf(d)[1..] && SameShape(d, r.d)
        && (forall x: nat :: x != SUPER && x != node && x != r.b ==> Read(r.d, x) == Read(d, x))
        && Read(r.d, node) == SetEntry(Read(d, node), slot, r.b)
        && (depth > 1 ==> Read(r.d, r.b) == ZeroBlock())
  {
    hide Get16, Get32, Set32, AllocBlock, Entry, SetEntry, FreeRep, Ms;
    AllocPops(d, now);
    TreeShape(d, node, depth);
    ReadyApart(d, Ms(TreeOf(d, node, depth)), node);
    var L := FreeOf(d);
    if L != [] {
      FreeWithin(d);
      var a := AllocBlock(d, now);
      var r := LinkFresh(d, node, slot, depth > 1, now);
      assert L[0] in L && a.b == L[0];
      FreeFrame(a.d, r.d);
    }
  }

  lemma FreeWithin(d: Disk)
    requires FreeOk(d)
    ensures forall x :: x in FreeOf(d) ==> Isize(d[SUPER]) <= x < Fsize(d[SUPER])
    ensures Distinct(FreeOf(d)) && Geometry(d)
    ensures FreeOf(d) != [] ==> FreeOf(d)[0] !in FreeOf(d)[1..]
  {
    var L := FreeOf(d);
    assert OpenList(d, L);
  }

  lemma {:induction false} ZeroTree(d: Disk, b: nat, depth: nat)
    requires b != 0 && depth >= 1 && Read(d, b) == ZeroBlock()
    ensures var t := TreeOf(d, b, depth);
      Ms(t) == multiset{b} && Nodes(t) == {b} && forall p :: At(t, p) == 0
  {
    ZeroEntries();
    HolesMs(KidsOf(d, ZeroBlock(), depth - 1));
  }

  /** A block of one subtree lies in no other subtree, nor on the free list. */
  lemma Stranger(d: Disk, ks: seq<Tree>, slot: nat, j: nat, x: nat)
    requires slot < |ks| && j < |ks| && j != slot && Ready(d, MsAll(ks)) && x in Nodes(ks[j])
    ensures x !in Nodes(ks[slot]) && x !in FreeOf(d) && x != SUPER
  {
    hide MsAll, Ms, Nodes, FreeRep, FreeOk, NoDup;
    NodesInMs(ks[j], x);
    MsSplit(ks, j);
    assert MsAll(ks)[x] >= Ms(ks[j])[x];
    ReadyApart(d, MsAll(ks), x);
    SubNoDup(MsAll(ks), MsAll(ks) + multiset(FreeOf(d)));
    KidsApart(ks, j, slot, x);
    FreeWithin(d);
  }

  lemma SlotReplaced(d: Disk, node: nat, depth: nat, slot: nat, e: Disk)
    requires node != 0 && depth >= 1 && slot < FANOUT
    requires Ready(d, Ms(TreeOf(d, node, depth)))
    requires forall j: nat :: j < FANOUT && j != slot ==> Entry(Read(e, node), j) == Entry(Read(d, node), j)
    requires OnlyWrites(d, e, Nodes(TreeOf(d, Entry(Read(d, node), slot), depth - 1)) + {node}, FreeOf(d))
    ensures TreeOf(e, node, depth)
         == Indir(node, KidsOf(d, Read(d, node), depth - 1)[slot := TreeOf(e, Entry(Read(e, node), slot), depth - 1)])
  {
    hide Entry, FreeOk, FreeOf, NoDup, MsAll, NodesAll, Nodes;
    var t, ks := TreeOf(d, node, depth), KidsOf(d, Read(d, node), depth - 1);
    ReadySub(d, MsAll(ks), Ms(t));
    SubNoDup(Ms(t), Ms(t) + multiset(FreeOf(d)));
    forall j: nat, x | j < FANOUT && j != slot && x in Nodes(ks[j])
      ensures Read(e, x) == Read(d, x)
    {
      Stranger(d, ks, slot, j, x);
      NodesInMs(ks[j], x);
      MsSplit(ks, j);
      assert MsAll(ks)[x] >= Ms(ks[j])[x];
      Apart(MsAll(ks), multiset{node}, x);
    }
    KidReplaced(d, e, Read(d, node), Read(e, node), depth - 1, slot);
  }

  /** One slot of an indirect block grew, and nothing else changed: then the whole
      tree grew. */
  lemma NodeGrown(d: Disk, node: nat, depth: nat, slot: nat, e: Disk)
    requires node != 0 && depth >= 1 && slot < FANOUT
    requires Ready(d, Ms(TreeOf(d, node, depth)))
    requires forall j: nat :: j < FANOUT && j != slot ==> Entry(Read(e, node), j) == Entry(Read(d, node), j)
    requires var k := TreeOf(d, Entry(Read(d, node), slot), depth - 1);
             var k' := TreeOf(e, Entry(Read(e, node), slot), depth - 1);
             Grown(d, Nodes(k) + {node}, Ms(k), e, Nodes(k'), Ms(k'))
    ensures var t := TreeOf(d, node, depth);
            var t' := TreeOf(e, node, depth);
      && t' == Indir(node, t.kids[slot := TreeOf(e, Entry(Read(e, node), slot), depth - 1)])
      && Grown(d, Nodes(t), Ms(t), e, Nodes(t'), Ms(t'))
  {
    hide Entry, FreeOk, FreeOf, SameShape, NoDup, MsAll, NodesAll;
    SlotReplaced(d, node, depth, slot, e);
    var ks := TreeOf(d, node, depth).kids;
    var k' := TreeOf(e, Entry(Read(e, node), slot), depth - 1);
    var ks' := ks[slot := k'];
    MsUpdate(ks, slot, k');
    Exchange(multiset{node}, MsAll(ks), MsAll(ks'), Ms(ks[slot]), Ms(k'), multiset(FreeOf(d)), multiset(FreeOf(e)));
    NodesKid(ks, slot);
    forall x | x in NodesAll(ks')
      ensures x in NodesAll(ks) + {node} || x in FreeOf(d)
    {
      var i := NodesFrom(ks', x);
      NodesKid(ks, i);
    }
  }

  /** What ensuring the leaf at path `p` does to a tree: that leaf is mapped, no
      other leaf moves, and a leaf already mapped costs nothing. */
  ghost predicate Placed(d: Disk, t: Tree, depth: nat, p: seq<nat>, r: Ensured, t': Tree) {
    && (forall q :: GoodPath(q, depth) && (q != p || !r.ok) ==> At(t', q) == At(t, q))
    && (r.ok ==> r.b != 0 && At(t', p) == r.b)
    && (!r.ok ==> FreeOk(r.d) && FreeOf(r.d) == [])
    && (At(t, p) != 0 ==> r == Ensured(d, true, At(t, p)))
  }

  lemma LinkFreshGrows(d: Disk, node: nat, depth: nat, slot: nat, now: nat)
    requires node != 0 && depth >= 1 && slot < FANOUT
    requires Ready(d, Ms(TreeOf(d, node, depth))) && FreeOf(d) != []
    requires Entry(Read(d, node), slot) == 0
    ensures var r := LinkFresh(d, node, slot, depth > 1, now);
            var t := TreeOf(d, node, depth);
            var t' := TreeOf(r.d, node, depth);
            var k' := TreeOf(r.d, r.b, depth - 1);
      && r.ok && r.b != 0 && Entry(Read(r.d, node), slot) == r.b
      && t' == Indir(node, t.kids[slot := k'])
      && Grown(d, Nodes(t), Ms(t), r.d, Nodes(t'), Ms(t'))
      && (if depth == 1 then k' == Data(r.b) else forall q :: At(k', q) == 0)
  {
    hide Entry, SetEntry, LinkFresh, MsAll, NodesAll, NoDup, FreeRep;
    LinkFreshSound(d, node, depth, slot, now);
    var r, L := LinkFresh(d, node, slot, depth > 1, now), FreeOf(d);
    assert multiset(L) == multiset{r.b} + multiset(L[1..]) by { assert L == [r.b] + L[1..]; }
    if depth > 1 {
      ZeroTree(r.d, r.b, depth - 1);
    }
    NodeGrown(d, node, depth, slot, r.d);
  }

  lemma GrownTrans(d: Disk, n: set<nat>, m: multiset<nat>, e: Disk, n': set<nat>, m': multiset<nat>,
                   f: Disk, n'': set<nat>, m'': multiset<nat>)
    requires Grown(d, n, m, e, n', m') && Grown(e, n', m', f, n'', m'')
    ensures Grown(d, n, m, f, n'', m'')
  {
    hide FreeOk, FreeOf;
  }

  lemma GrownReady(d: Disk, n: set<nat>, m: multiset<nat>, e: Disk, n': set<nat>, m': multiset<nat>)
    requires Grown(d, n, m, e, n', m') && Ready(d, m)
    ensures Ready(e, m')
  {
    hide FreeRep, FreeOf;
    FreeWithin(d);
    forall x | x in m'
      ensures Isize(e[SUPER]) <= x < Fsize(e[SUPER])
    {
      assert x in m' + multiset(FreeOf(e));
      assert x in m || x in FreeOf(d);
    }
  }

  lemma GrownRefl(d: Disk, n: set<nat>, m: multiset<nat>)
    requires FreeOk(d)
    ensures Grown(d, n, m, d, n, m)
  {
    FreeWithin(d);
  }

  /** An allocation from an exhausted free list changes at most the superblock. */
  lemma Exhausted(d: Disk, n: set<nat>, m: multiset<nat>, now: nat)
    requires FreeOk(d) && FreeOf(d) == []
    ensures var e := AllocBlock(d, now).d;
      && !AllocBlock(d, now).ok && FreeOk(e) && FreeOf(e) == []
      && Grown(d, n, m, e, n, m) && forall x: nat :: x != SUPER ==> Read(e, x) == Read(d, x)
  {
    hide AllocBlock, FreeRep, FreeOf, Isize, Fsize;
    AllocPops(d, now);
    FreeWithin(d);
    FreeWithin(AllocBlock(d, now).d);
  }

  lemma ExhaustedTree(d: Disk, b: nat, depth: nat, now: nat)
    requires Ready(d, Ms(TreeOf(d, b, depth))) && FreeOf(d) == []
    ensures TreeOf(AllocBlock(d, now).d, b, depth) == TreeOf(d, b, depth)
  {
    hide AllocBlock, Ready, FreeOf, Ms, Nodes, Grown;
    var t := TreeOf(d, b, depth);
    ReadyFree(d, Ms(t));
    Exhausted(d, Nodes(t), Ms(t), now);
    forall x | x in Nodes(t)
      ensures Read(AllocBlock(d, now).d, x) == Read(d, x)
    {
      NodesInMs(t, x);
      ReadyApart(d, Ms(t), x);
    }
    TreeFrame(d, AllocBlock(d, now).d, b, depth);
  }

  lemma ReadyFree(d: Disk, m: multiset<nat>)
    requires Ready(d, m)
    ensures FreeOk(d)
  {
  }

  lemma ExhaustedFile(d: Disk, addrs: Addrs, now: nat)
    requires FileReady(d, addrs) && FreeOf(d) == []
    ensures Forest(AllocBlock(d, now).d, addrs) == Forest(d, addrs)
    ensures FileGrown(d, addrs, AllocBlock(d, now).d, addrs)
  {
    hide AllocBlock, FreeOf, Ms, Nodes, Grown, MsAll, NodesAll, Forest, NoDup;
    var f := Forest(d, addrs);
    Exhausted(d, NodesAll(f), MsAll(f), now);
    forall s | 0 <= s < NADDR
      ensures Forest(AllocBlock(d, now).d, addrs)[s] == f[s]
    {
      MsSplit(f, s);
      ReadySub(d, Ms(f[s]), MsAll(f));
      ExhaustedTree(d, addrs[s], DepthOf(s), now);
    }
    assert Forest(AllocBlock(d, now).d, addrs) == f;
  }

  lemma AtReplaced(t: Tree, slot: nat, k: Tree, q: seq<nat>)
    requires t.Indir? && slot < |t.kids| && q != [] && q[0] < |t.kids|
    ensures At(Indir(t.b, t.kids[slot := k]), q) == if q[0] == slot then At(k, q[1..]) else At(t, q)
  {
  }

  /** Ensuring a leaf below an indirect block: the walk down the coordinates maps
      exactly that leaf, taking blocks only from the free list; on failure the
      free list is exhausted and every block is still accounted for. */
  lemma {:induction false} EnsureChildSound(d: Disk, node: nat, depth: nat, coords: seq<nat>, now: nat)
    requires node != 0 && depth >= 1 && GoodPath(coords, depth)
    requires Ready(d, Ms(TreeOf(d, node, depth)))
    ensures var r := EnsureChild(d, node, depth, coords, now);
            var t := TreeOf(d, node, depth);
            var t' := TreeOf(r.d, node, depth);
      && Grown(d, Nodes(t), Ms(t), r.d, Nodes(t'), Ms(t'))
      && Placed(d, t, depth, coords, r, t')
    decreases depth
  {
    hide Entry, LinkFresh, MsAll, NodesAll, NoDup, FreeRep, Grown, FreeOf;
    var slot := coords[0];
    var cur := Entry(Read(d, node), slot);
    var t := TreeOf(d, node, depth);
    if cur == 0 {
      assert t.kids[slot] == Hole;
      if FreeOf(d) == [] {
        LinkFreshSound(d, node, depth, slot, now);
        assert EnsureChild(d, node, depth, coords, now) == Ensured(AllocBlock(d, now).d, false, 0);
        assert At(t, coords) == At(t.kids[slot], coords[1..]);
        Exhausted(d, Nodes(t), Ms(t), now);
        ExhaustedTree(d, node, depth, now);
      } else {
        LinkFreshGrows(d, node, depth, slot, now);
        var l := LinkFresh(d, node, slot, depth > 1, now);
        var u := TreeOf(l.d, node, depth);
        GrownReady(d, Nodes(t), Ms(t), l.d, Nodes(u), Ms(u));
        assert At(t, coords) == 0;
        if depth > 1 {
          forall q | GoodPath(q, depth) ensures At(u, q) == At(t, q) {}
          Descend(l.d, node, depth, coords, now);
          var r := EnsureChild(l.d, l.b, depth - 1, coords[1..], now);
          var t' := TreeOf(r.d, node, depth);
          GrownTrans(d, Nodes(t), Ms(t), l.d, Nodes(u), Ms(u), r.d, Nodes(t'), Ms(t'));
        } else {
          assert EnsureChild(d, node, depth, coords, now) == l;
          forall q | GoodPath(q, depth) && q != coords ensures At(u, q) == At(t, q) {
            assert q == [q[0]] && coords == [slot];
            AtReplaced(t, slot, Data(l.b), q);
          }
          AtReplaced(t, slot, Data(l.b), coords);
        }
      }
    } else if depth == 1 {
      GrownRefl(d, Nodes(t), Ms(t));
    } else {
      Descend(d, node, depth, coords, now);
    }
  }

  /** The recursive step of `EnsureChildSound`, through a child that exists. */
  lemma {:induction false} Descend(d: Disk, node: nat, depth: nat, coords: seq<nat>, now: nat)
    requires node != 0 && depth > 1 && GoodPath(coords, depth)
    requires Ready(d, Ms(TreeOf(d, node, depth)))
    requires Entry(Read(d, node), coords[0]) != 0
    ensures var r := EnsureChild(d, Entry(Read(d, node), coords[0]), depth - 1, coords[1..], now);
            var t := TreeOf(d, node, depth);
            var t' := TreeOf(r.d, node, depth);
      && Grown(d, Nodes(t), Ms(t), r.d, Nodes(t'), Ms(t'))
      && Placed(d, t, depth, coords, r, t')
    decreases depth, 0
  {
    hide Entry, EnsureChild, MsAll, NodesAll, Nodes, Ms, Ready, FreeOk, FreeOf, Grown;
    var slot := coords[0];
    var c, t := Entry(Read(d, node), slot), TreeOf(d, node, depth);
    KidReady(d, node, depth, slot);
    EnsureChildSound(d, c, depth - 1, coords[1..], now);
    var r := EnsureChild(d, c, depth - 1, coords[1..], now);
    KidGrown(d, node, depth, slot, r.d);
    var t' := TreeOf(r.d, node, depth);
    forall q | GoodPath(q, depth) && (q != coords || !r.ok)
      ensures At(t', q) == At(t, q)
    {
      assert q == [q[0]] + q[1..] && coords == [slot] + coords[1..];
    }
  }

  lemma KidReady(d: Disk, node: nat, depth: nat, slot: nat)
    requires node != 0 && depth >= 1 && slot < FANOUT && Ready(d, Ms(TreeOf(d, node, depth)))
    ensures Ready(d, Ms(TreeOf(d, Entry(Read(d, node), slot), depth - 1)))
  {
    hide Ready, MsAll;
    var t := TreeOf(d, node, depth);
    MsSplit(t.kids, slot);
    ReadySub(d, Ms(t.kids[slot]), Ms(t));
  }

  /** A child grew: then so did its parent. */
  lemma KidGrown(d: Disk, node: nat, depth: nat, slot: nat, e: Disk)
    requires node != 0 && depth >= 1 && slot < FANOUT && Ready(d, Ms(TreeOf(d, node, depth)))
    requires var c := Entry(Read(d, node), slot);
             var k, k' := TreeOf(d, c, depth - 1), TreeOf(e, c, depth - 1);
             Grown(d, Nodes(k), Ms(k), e, Nodes(k'), Ms(k'))
    ensures var t, t' := TreeOf(d, node, depth), TreeOf(e, node, depth);
      && Entry(Read(e, node), slot) == Entry(Read(d, node), slot)
      && t' == Indir(node, t.kids[slot := TreeOf(e, Entry(Read(d, node), slot), depth - 1)])
      && Grown(d, Nodes(t), Ms(t), e, Nodes(t'), Ms(t'))
  {
    hide Entry, Ready, FreeOk, FreeOf, MsAll, NodesAll, Ms, Nodes;
    NodeNotBelow(d, node, depth, slot);
    assert Read(e, node) == Read(d, node);
    NodeGrown(d, node, depth, slot, e);
  }

  lemma NodeNotBelow(d: Disk, node: nat, depth: nat, slot: nat)
    requires node != 0 && depth >= 1 && slot < FANOUT
    requires Ready(d, Ms(TreeOf(d, node, depth)))
    ensures node !in Nodes(TreeOf(d, node, depth).kids[slot]) && node !in FreeOf(d) && node != SUPER
  {
    hide MsAll, NoDup, FreeRep, FreeOf, Nodes;
    var t := TreeOf(d, node, depth);
    TreeShape(d, node, depth);
    ReadyApart(d, Ms(t), node);
    SubNoDup(Ms(t), Ms(t) + multiset(FreeOf(d)));
    Apart(multiset{node}, MsAll(t.kids), node);
    MsSplit(t.kids, slot);
    assert MsAll(t.kids)[node] >= Ms(t.kids[slot])[node];
    if node in Nodes(t.kids[slot]) { NodesInMs(t.kids[slot], node); }
    FreeWithin(d);
  }

  // ----- one file -----------------------------------------------------------------

  datatype Mapped = Mapped(d: Disk, addrs: Addrs, ok: bool, b: nat)

  /** Map logical block `idx` of the file, allocating as needed. */
  function EnsureData(d: Disk, addrs: Addrs, idx: nat, now: nat): Mapped {
    ClassifySound(idx);
    var c := ClassifyIndex(idx);
    if c.TooLarge? then Mapped(d, addrs, false, 0)
    else if c.depth == 0 then
      if addrs[c.slot] != 0 then Mapped(d, addrs, true, addrs[c.slot]) else
      var a := AllocBlock(d, now);
      if !a.ok then Mapped(a.d, addrs, false, 0) else Mapped(a.d, addrs[c.slot := a.b], true, a.b)
    else
      var root := RootFor(d, addrs, c.slot, now);
      if !root.ok then root else
      var r := EnsureChild(root.d, root.b, c.depth, c.coords, now);
      Mapped(r.d, root.addrs, r.ok, r.b)
  }

  /** The root indirect block of a slot, a fresh zeroed one if there is none. */
  function RootFor(d: Disk, addrs: Addrs, slot: nat, now: nat): Mapped
    requires slot < NADDR
  {
    if addrs[slot] != 0 then Mapped(d, addrs, true, addrs[slot]) else
    var a := AllocBlock(d, now);
    if !a.ok then Mapped(a.d, addrs, false, 0)
    else if a.b >= |a.d| then Mapped(a.d, addrs[slot := a.b], false, 0)
    else Mapped(Write(a.d, a.b, ZeroBlock()), addrs[slot := a.b], true, a.b)
  }

  ghost predicate FileGrown(d: Disk, addrs: Addrs, e: Disk, addrs': Addrs) {
    var f, f' := Forest(d, addrs), Forest(e, addrs');
    Grown(d, NodesAll(f), MsAll(f), e, NodesAll(f'), MsAll(f'))
  }

  ghost predicate FileReady(d: Disk, addrs: Addrs) {
    Ready(d, MsAll(Forest(d, addrs)))
  }

  /** One inode slot's tree grew, and nothing else changed: then the file grew. */
  lemma SlotGrown(d: Disk, addrs: Addrs, slot: nat, e: Disk, addrs': Addrs)
    requires slot < NADDR && addrs' == addrs[slot := addrs'[slot]] && FileReady(d, addrs)
    requires var k := Forest(d, addrs)[slot];
             var k' := Forest(e, addrs')[slot];
             Grown(d, Nodes(k), Ms(k), e, Nodes(k'), Ms(k'))
    ensures Forest(e, addrs') == Forest(d, addrs)[slot := Forest(e, addrs')[slot]]
    ensures FileGrown(d, addrs, e, addrs')
  {
    hide FreeOk, FreeOf, SameShape, NoDup, MsAll, NodesAll, Ms, Nodes;
    var f, f' := Forest(d, addrs), Forest(e, addrs');
    var k, k' := f[slot], f'[slot];
    forall j | 0 <= j < NADDR && j != slot
      ensures f'[j] == f[j]
    {
      forall x | x in Nodes(f[j]) ensures Read(e, x) == Read(d, x) { Stranger(d, f, slot, j, x); }
      TreeFrame(d, e, addrs[j], DepthOf(j));
    }
    assert f' == f[slot := k'];
    MsUpdate(f, slot, k');
    Exchange(multiset{}, MsAll(f), MsAll(f'), Ms(k), Ms(k'), multiset(FreeOf(d)), multiset(FreeOf(e)));
    assert multiset{} + MsAll(f) == MsAll(f) && multiset{} + MsAll(f') == MsAll(f');
    NodesKid(f, slot);
    forall x | x in NodesAll(f')
      ensures x in NodesAll(f) || x in FreeOf(d)
    {
      var i := NodesFrom(f', x);
      NodesKid(f, i);
    }
  }

  /** What mapping logical block `idx` does to a file: that block is mapped, no
      other moves, and a block already mapped costs nothing. */
  ghost predicate FilePlaced(d: Disk, addrs: Addrs, idx: nat, r: Mapped) {
    var f, f' := Forest(d, addrs), Forest(r.d, r.addrs);
    && (forall j: nat :: j != idx || !r.ok ==> FileAt(f', j) == FileAt(f, j))
    && (r.ok ==> r.b != 0 && FileAt(f', idx) == r.b)
    && (!r.ok ==> idx >= MAXBLOCKS || (FreeOk(r.d) && FreeOf(r.d) == []))
    && (FileAt(f, idx) != 0 ==> r == Mapped(d, addrs, true, FileAt(f, idx)))
  }

  lemma RootForSound(d: Disk, addrs: Addrs, slot: nat, now: nat)
    requires NDIRECT <= slot < NADDR && FileReady(d, addrs)
    ensures var r := RootFor(d, addrs, slot, now);
            var f, f' := Forest(d, addrs), Forest(r.d, r.addrs);
      && FileGrown(d, addrs, r.d, r.addrs)
      && (forall j: nat :: FileAt(f', j) == FileAt(f, j))
      && (r.ok ==> r.b != 0 && r.addrs[slot] == r.b)
      && (!r.ok ==> FreeOk(r.d) && FreeOf(r.d) == [])
      && (addrs[slot] != 0 ==> r == Mapped(d, addrs, true, addrs[slot]))
      && f' == f[slot := f'[slot]] && (!r.ok ==> f' == f)
      && (r.ok && addrs[slot] == 0 ==> Read(r.d, r.b) == ZeroBlock())
  {
    hide Get16, Get32, AllocBlock, FreeRep, NoDup, MsAll, NodesAll, ClassifyIndex;
    var r, f, L := RootFor(d, addrs, slot, now), Forest(d, addrs), FreeOf(d);
    AllocPops(d, now);
    if addrs[slot] != 0 {
      GrownRefl(d, NodesAll(f), MsAll(f));
    } else if L == [] {
      ExhaustedFile(d, addrs, now);
    } else {
      FreeWithin(d);
      var a := AllocBlock(d, now);
      assert L[0] in L && a.b == L[0];
      FreeFrame(a.d, r.d);
      ZeroTree(r.d, r.b, DepthOf(slot));
      var f' := Forest(r.d, r.addrs);
      assert multiset(L) == multiset{r.b} + multiset(L[1..]) by { assert L == [r.b] + L[1..]; }
      SlotGrown(d, addrs, slot, r.d, r.addrs);
      forall j: nat
        ensures FileAt(f', j) == FileAt(f, j)
      {
        ClassifySound(j);
      }
    }
  }

  lemma DirectSound(d: Disk, addrs: Addrs, idx: nat, now: nat)
    requires idx < NDIRECT && FileReady(d, addrs)
    ensures var r := EnsureData(d, addrs, idx, now);
            var f, f' := Forest(d, addrs), Forest(r.d, r.addrs);
      && FileGrown(d, addrs, r.d, r.addrs) && FilePlaced(d, addrs, idx, r)
      && f' == f[idx := f'[idx]] && (f'[idx] == f[idx] || f[idx].Hole?)
  {
    hide Get16, Get32, AllocBlock, FreeRep, NoDup, MsAll, NodesAll;
    var r, f, L := EnsureData(d, addrs, idx, now), Forest(d, addrs), FreeOf(d);
    AllocPops(d, now);
    if addrs[idx] != 0 {
      GrownRefl(d, NodesAll(f), MsAll(f));
    } else if L == [] {
      ExhaustedFile(d, addrs, now);
    } else {
      FreeWithin(d);
      assert L[0] in L && r.b == L[0];
      assert multiset(L) == multiset{r.b} + multiset(L[1..]) by { assert L == [r.b] + L[1..]; }
      SlotGrown(d, addrs, idx, r.d, r.addrs);
      forall j: nat | j != idx
        ensures FileAt(Forest(r.d, r.addrs), j) == FileAt(f, j)
      {
        ClassifySound(j);
      }
    }
  }

  lemma IndirectSound(d: Disk, addrs: Addrs, idx: nat, now: nat)
    requires NDIRECT <= idx < MAXBLOCKS && FileReady(d, addrs)
    requires addrs[ClassifyIndex(idx).slot] != 0
    ensures var r := EnsureData(d, addrs, idx, now);
            var f, f', s := Forest(d, addrs), Forest(r.d, r.addrs), ClassifyIndex(idx).slot;
      && FileGrown(d, addrs, r.d, r.addrs) && FilePlaced(d, addrs, idx, r)
      && f' == f[s := f'[s]] && r.addrs == addrs
  {
    hide FreeRep, NoDup, MsAll, NodesAll, Nodes, Ms, EnsureChild, At, Grown;
    var r, f := EnsureData(d, addrs, idx, now), Forest(d, addrs);
    ClassifySound(idx);
    var c := ClassifyIndex(idx);
    MsSplit(f, c.slot);
    ReadySub(d, Ms(f[c.slot]), MsAll(f));
    EnsureChildSound(d, addrs[c.slot], c.depth, c.coords, now);
    SlotGrown(d, addrs, c.slot, r.d, r.addrs);
    forall j: nat | j != idx || !r.ok
      ensures FileAt(Forest(r.d, r.addrs), j) == FileAt(f, j)
    {
      ClassifySound(j);
      if j < MAXBLOCKS && ClassifyIndex(j) == c { ClassifyInjective(j, idx); }
    }
  }

  /** Ensuring a logical block of a file: the block the map gives for `idx`
      afterwards is the one returned, every other index keeps its block, and
      blocks only move from the free list into the file. */
  lemma EnsureDataSound(d: Disk, addrs: Addrs, idx: nat, now: nat)
    requires FileReady(d, addrs)
    ensures var r := EnsureData(d, addrs, idx, now);
      FileGrown(d, addrs, r.d, r.addrs) && FilePlaced(d, addrs, idx, r)
  {
    hide FreeRep, NoDup, MsAll, NodesAll, Nodes, Ms, EnsureChild, Grown;
    var f := Forest(d, addrs);
    ClassifySound(idx);
    if idx < NDIRECT {
      DirectSound(d, addrs, idx, now);
    } else if idx >= MAXBLOCKS {
      GrownRefl(d, NodesAll(f), MsAll(f));
    } else {
      var c := ClassifyIndex(idx);
      assert addrs[c.slot] == 0 ==> FileAt(f, idx) == At(Hole, c.coords);
      RootForSound(d, addrs, c.slot, now);
      var root := RootFor(d, addrs, c.slot, now);
      var f1 := Forest(root.d, root.addrs);
      if root.ok {
        GrownReady(d, NodesAll(f), MsAll(f), root.d, NodesAll(f1), MsAll(f1));
        IndirectSound(root.d, root.addrs, idx, now);
        var r := EnsureData(root.d, root.addrs, idx, now);
        assert r == EnsureData(d, addrs, idx, now);
        var f2 := Forest(r.d, r.addrs);
        GrownTrans(d, NodesAll(f), MsAll(f), root.d, NodesAll(f1), MsAll(f1), r.d, NodesAll(f2), MsAll(f2));
      }
    }
  }

  // ----- growing to n blocks ---------------------------------------------------------

  datatype GrowResult = GrowResult(d: Disk, addrs: Addrs, ok: bool, blocks: seq<nat>)

  /** Map logical blocks i .. n-1 in order. */
  function GrowFrom(d: Disk, addrs: Addrs, i: nat, n: nat, now: nat): GrowResult
    requires i <= n
    decreases n - i
  {
    if i == n then GrowResult(d, addrs, true, []) else
    var m := EnsureData(d, addrs, i, now);
    if !m.ok then GrowResult(m.d, m.addrs, false, []) else
    var r := GrowFrom(m.d, m.addrs, i + 1, n, now);
    GrowResult(r.d, r.addrs, r.ok, [m.b] + r.blocks)
  }

  /** Growing a file to `n` blocks. On success the blocks returned are exactly the
      file's first `n` blocks, none a hole; no block that was mapped moves and no
      index past `n` is touched. It fails only when space, or the triple-indirect
      limit, runs out, and even then no block is lost. */
  lemma {:induction false} GrowSound(d: Disk, addrs: Addrs, i: nat, n: nat, now: nat)
    requires i <= n && FileReady(d, addrs)
    ensures var r := GrowFrom(d, addrs, i, n, now);
            var f, f' := Forest(d, addrs), Forest(r.d, r.addrs);
      && FileGrown(d, addrs, r.d, r.addrs)
      && (forall j: nat :: j < i || j >= n || FileAt(f, j) != 0 ==> FileAt(f', j) == FileAt(f, j))
      && (r.ok ==> |r.blocks| == n - i && forall j: nat :: i <= j < n ==> FileAt(f', j) == r.blocks[j - i] != 0)
      && (!r.ok ==> n > MAXBLOCKS || (FreeOk(r.d) && FreeOf(r.d) == []))
    decreases n - i
  {
    hide FreeRep, FreeOf, NoDup, MsAll, NodesAll, EnsureData, FileAt, Grown, Forest;
    var f := Forest(d, addrs);
    if i == n {
      GrownRefl(d, NodesAll(f), MsAll(f));
    } else {
      EnsureDataSound(d, addrs, i, now);
      var m := EnsureData(d, addrs, i, now);
      if m.ok {
        var f1 := Forest(m.d, m.addrs);
        GrownReady(d, NodesAll(f), MsAll(f), m.d, NodesAll(f1), MsAll(f1));
        GrowSound(m.d, m.addrs, i + 1, n, now);
        var r := GrowFrom(m.d, m.addrs, i + 1, n, now);
        var f2 := Forest(r.d, r.addrs);
        GrownTrans(d, NodesAll(f), MsAll(f), m.d, NodesAll(f1), MsAll(f1), r.d, NodesAll(f2), MsAll(f2));
      }
    }
  }
}
