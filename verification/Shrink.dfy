/** Shrinking a file: freeing the blocks past its first `n`, and the indirect
    blocks that lose their last entry. */
module Shrink {
  import opened Basics
  import opened Bytes
  import opened FreeList
  import opened BlockTree
  import opened FileMap
  import opened Prune
  import opened Grow

  datatype Shrunk = Shrunk(d: Disk, ok: bool, empty: bool)

  /** Cut the tree below `node` to its first `keep` leaves; `empty` tells that no
      entry is left, and then `node` itself is not rewritten. */
  function ShrinkIndirect(d: Disk, node: nat, depth: nat, keep: nat, now: nat): Shrunk
    requires depth >= 1
    decreases depth, 2, 0
  {
    ShrinkSlots(d, node, Read(d, node), 0, depth, keep, false, true, now)
  }

  /** The loop over the slots; `work` is the private copy of the block being edited. */
  function ShrinkSlots(d: Disk, node: nat, work: Block, slot: nat, depth: nat, keep: nat,
                       dirty: bool, allZero: bool, now: nat): Shrunk
    requires depth >= 1 && slot <= FANOUT
    decreases depth, 1, FANOUT - slot
  {
    if slot == FANOUT then
      if !dirty || allZero then Shrunk(d, true, allZero)
      else if node >= |d| then Shrunk(d, false, false)
      else Shrunk(Write(d, node, work), true, false)
    else
      var entry := Entry(work, slot);
      if entry == 0 then ShrinkSlots(d, node, work, slot + 1, depth, keep, dirty, allZero, now) else
      var s := ShrinkEntry(d, entry, slot, depth, keep, now);
      if !s.ok then s
      else if s.empty then ShrinkSlots(s.d, node, SetEntry(work, slot, 0), slot + 1, depth, keep, true, allZero, now)
      else ShrinkSlots(s.d, node, work, slot + 1, depth, keep, dirty, false, now)
  }

  /** One non-zero entry: kept, cut, or freed altogether. */
  function ShrinkEntry(d: Disk, entry: nat, slot: nat, depth: nat, keep: nat, now: nat): Shrunk
    requires depth >= 1
    decreases depth, 0, 0
  {
    if depth == 1 then
      if slot < keep then Shrunk(d, true, false) else FreeEntry(d, entry, now)
    else if (slot + 1) * Span(depth - 1) <= keep then Shrunk(d, true, false)
    else
      var s := ShrinkIndirect(d, entry, depth - 1, KeepBelow(depth, slot, keep), now);
      if s.ok && s.empty then FreeEntry(s.d, entry, now) else s
  }

  function FreeEntry(d: Disk, b: nat, now: nat): Shrunk {
    var r := FreeBlock(d, b, now);
    Shrunk(r.d, r.ok, r.ok)
  }

  // ----- what a shrinking step may do ---------------------------------------------

  function Reverse(s: seq<nat>): (r: seq<nat>)
    ensures |r| == |s| && forall x :: x in r <==> x in s
  {
    if s == [] then [] else Reverse(s[1..]) + [s[0]]
  }

  lemma {:induction false} ReverseConcat(s: seq<nat>, t: seq<nat>)
    ensures Reverse(s + t) == Reverse(t) + Reverse(s)
  {
    if s == [] {
      assert s + t == t;
    } else {
      assert (s + t)[1..] == s[1..] + t;
      ReverseConcat(s[1..], t);
    }
  }

  lemma {:induction false} ReverseMultiset(s: seq<nat>)
    ensures multiset(Reverse(s)) == multiset(s)
  {
    if s != [] {
      ReverseMultiset(s[1..]);
      assert s == [s[0]] + s[1..];
    }
  }

  /** The blocks `m` and the list that pops `L` share nothing, and `m` lies in the data area. */
  ghost predicate ReadyOn(d: Disk, L: seq<nat>, m: multiset<nat>) {
    && OpenList(d, L)
    && NoDup(m + multiset(L))
    && Between(m, Isize(d[SUPER]), Fsize(d[SUPER]))
  }

  /** `freed` was pushed in that order on the list that popped `L`, and apart from the
      freed blocks only `nodes` and the superblock were written. What the list comes down
      to is as before, unless it had no entry: then it is what the first freed block held. */
  ghost predicate Released(d: Disk, L: seq<nat>, nodes: set<nat>, freed: seq<nat>, e: Disk) {
    && OpenList(d, L) && OpenList(e, Reverse(freed) + L) && SameShape(d, e)
    && OnlyWrites(d, e, nodes, freed)
    && LeftBy(e, Reverse(freed) + L)
       == (if freed != [] && Nfree(d[SUPER]) == 0 then ChainRest(Read(d, freed[0])) else LeftBy(d, L))
    && (if freed == [] then Nfree(e[SUPER]) == Nfree(d[SUPER]) else Nfree(e[SUPER]) != 0)
  }

  /** While nothing has been freed, the first block that will be still reads as before. */
  ghost predicate FirstKept(d: Disk, fs: seq<nat>, e: Disk, gs: seq<nat>) {
    fs == [] && gs != [] ==> Read(e, gs[0]) == Read(d, gs[0])
  }

  /** The list is well formed after the frees: it had an entry already, or nothing is
      freed, or the first block freed holds a cache that ends there. */
  ghost predicate CanFree(d: Disk, freed: seq<nat>) {
    freed == [] || Nfree(Read(d, SUPER)) != 0 || Ended(ChainRest(Read(d, freed[0])))
  }

  lemma ReleasedTrans(d: Disk, L: seq<nat>, n: set<nat>, fs: seq<nat>, e: Disk, n': set<nat>, gs: seq<nat>, f: Disk,
                      all: set<nat>)
    requires Released(d, L, n, fs, e) && Released(e, Reverse(fs) + L, n', gs, f) && n <= all && n' <= all
    requires FirstKept(d, fs, e, gs)
    ensures Released(d, L, all, fs + gs, f)
  {
    hide OpenList, LeftBy, Reverse, ChainRest, Nfree;
    ReverseConcat(fs, gs);
    assert Reverse(gs) + (Reverse(fs) + L) == Reverse(fs + gs) + L;
    if fs == [] {
      assert fs + gs == gs;
      assert Reverse(fs) + L == L;
    }
  }

  lemma FreeEntrySound(d: Disk, L: seq<nat>, b: nat, now: nat)
    requires ReadyOn(d, L, multiset{b})
    ensures var r := FreeEntry(d, b, now);
      r.ok && r.empty && Released(d, L, {}, [b], r.d)
  {
    hide Chain, LeftBy, ChainRest, NoDup, FreeBlock, Get16, Get32, Spill;
    assert b in multiset{b};
    ReadyOnApart(d, L, multiset{b}, b);
    ListCount(d, L);
    PushStack(d, b, now, L);
    assert Reverse([b]) == [b];
  }

  lemma ListCount(d: Disk, L: seq<nat>)
    requires OpenList(d, L)
    ensures 0 <= Nfree(d[SUPER]) <= NICFREE
  {
  }

  lemma ReadyOnSub(d: Disk, L: seq<nat>, m: multiset<nat>, n: multiset<nat>)
    requires ReadyOn(d, L, n) && m <= n
    ensures ReadyOn(d, L, m)
  {
    hide OpenList;
    SubNoDup(m + multiset(L), n + multiset(L));
    forall x | x in m ensures x in n { assert m[x] <= n[x]; }
  }

  lemma ReadyOnApart(d: Disk, L: seq<nat>, m: multiset<nat>, x: nat)
    requires ReadyOn(d, L, m) && x in m
    ensures x !in L && x != SUPER && Isize(d[SUPER]) <= x < Fsize(d[SUPER]) <= |d|
  {
    hide Chain;
    Apart(m, multiset(L), x);
  }

  /** A block of one subtree lies in no other subtree, nor on the list. */
  lemma StrangerOn(d: Disk, L: seq<nat>, ks: seq<Tree>, slot: nat, j: nat, x: nat)
    requires slot < |ks| && j < |ks| && j != slot && ReadyOn(d, L, MsAll(ks)) && x in Nodes(ks[j])
    ensures x !in Nodes(ks[slot]) && x !in L && x != SUPER
  {
    hide MsAll, Ms, Nodes, OpenList, NoDup;
    NodesInMs(ks[j], x);
    MsSplit(ks, j);
    assert MsAll(ks)[x] >= Ms(ks[j])[x];
    ReadyOnApart(d, L, MsAll(ks), x);
    SubNoDup(MsAll(ks), MsAll(ks) + multiset(L));
    KidsApart(ks, j, slot, x);
  }

  // ----- the disk operation implements pruning ---------------------------------------

  /** What shrinking below `node` achieves: the freed blocks are pushed in order,
      and unless nothing is left the tree on disk is the pruned tree. */
  ghost predicate Cut(d: Disk, L: seq<nat>, node: nat, depth: nat, keep: nat, r: Shrunk)
    requires depth >= 1
  {
    var t := TreeOf(d, node, depth);
    && r.ok && Released(d, L, Nodes(t), FreedBelow(t, depth, keep), r.d)
    && (r.empty <==> PruneTree(t, depth, keep).Hole?)
    && (if r.empty then Read(r.d, node) == Read(d, node) else TreeOf(r.d, node, depth) == PruneTree(t, depth, keep))
  }

  /** The blocks freed from a slot on come from the subtrees there. */
  lemma {:induction false} FreedWhere(ks: seq<Tree>, slot: nat, depth: nat, keep: nat)
    requires depth >= 1 && (forall i :: 0 <= i < |ks| ==> Shape(ks[i], depth - 1)) &&
        FreedFrom(ks, slot, depth, keep) != []
    ensures exists j :: slot <= j < |ks| && FreedFrom(ks, slot, depth, keep)[0] in Ms(ks[j])
    decreases |ks| - slot
  {
    hide Ms, FreedKid, PruneKid, Nodes;
    if slot < |ks| {
      var fk := FreedKid(ks[slot], depth, slot, keep);
      if fk == [] {
        FreedWhere(ks, slot + 1, depth, keep);
        var j :| slot + 1 <= j < |ks| && FreedFrom(ks, slot + 1, depth, keep)[0] in Ms(ks[j]);
        assert FreedFrom(ks, slot, depth, keep) == FreedFrom(ks, slot + 1, depth, keep);
      } else {
        PruneKidConserves(ks[slot], depth, slot, keep);
        assert fk[0] in multiset(fk);
        assert fk[0] in Ms(PruneKid(ks[slot], depth, slot, keep)) + multiset(fk);
        assert FreedFrom(ks, slot, depth, keep)[0] == fk[0];
      }
    }
  }

  lemma KidsShape(d: Disk, work: Block, depth: nat)
    ensures forall i :: 0 <= i < FANOUT ==> Shape(KidsOf(d, work, depth)[i], depth)
  {
    forall i | 0 <= i < FANOUT
      ensures Shape(KidsOf(d, work, depth)[i], depth)
    {
      TreeShape(d, Entry(work, i), depth);
    }
  }

  lemma KidPart(t: Tree, depth: nat, slot: nat, keep: nat)
    requires depth >= 1 && Shape(t, depth - 1)
    ensures Ms(PruneKid(t, depth, slot, keep)) + multiset(FreedKid(t, depth, slot, keep)) == Ms(t)
    ensures multiset(FreedKid(t, depth, slot, keep)) <= Ms(t)
    ensures Nodes(PruneKid(t, depth, slot, keep)) <= Nodes(t)
  {
    hide Ms, Nodes, PruneKid, FreedKid;
    PruneKidConserves(t, depth, slot, keep);
    var fk := FreedKid(t, depth, slot, keep);
    forall x ensures multiset(fk)[x] <= Ms(t)[x] {
      assert (Ms(PruneKid(t, depth, slot, keep)) + multiset(fk))[x] == Ms(t)[x];
    }
  }

  /** The subtrees of the edited block, once slot `slot` has been dealt with. */
  lemma SlotKids(d: Disk, L: seq<nat>, node: nat, work: Block, slot: nat, depth: nat, keep: nat, e: Disk, work': Block)
    requires node != 0 && depth >= 1 && slot < FANOUT
    requires ReadyOn(d, L, multiset{node} + MsAll(KidsOf(d, work, depth - 1)))
    requires forall j: nat :: j < FANOUT && j != slot ==> Entry(work', j) == Entry(work, j)
    requires var k := KidsOf(d, work, depth - 1)[slot];
      && OnlyWrites(d, e, Nodes(k), FreedKid(k, depth, slot, keep))
      && TreeOf(e, Entry(work', slot), depth - 1) == PruneKid(k, depth, slot, keep)
    ensures var ks := KidsOf(d, work, depth - 1);
            var ks' := KidsOf(e, work', depth - 1);
      && ks' == ks[slot := PruneKid(ks[slot], depth, slot, keep)]
      && Read(e, node) == Read(d, node) && ReadyOn(d, L, MsAll(ks)) && NoDup(MsAll(ks))
      && NodesAll(ks') <= NodesAll(ks) && Nodes(ks[slot]) <= NodesAll(ks)
  {
    hide Entry, ReadyOn, OnlyWrites, NoDup, MsAll, NodesAll, Ms, Nodes, PruneKid, FreedKid, Shape;
    var ks := KidsOf(d, work, depth - 1);
    KidsShape(d, work, depth - 1);
    KidPart(ks[slot], depth, slot, keep);
    SlotFrame(d, L, node, work, slot, depth, FreedKid(ks[slot], depth, slot, keep), e);
    KidReplaced(d, e, work, work', depth - 1, slot);
    NodesUpdate(ks, slot, PruneKid(ks[slot], depth, slot, keep));
  }

  /** The state of the slot loop, once slot `slot` has been dealt with. */
  lemma SlotDone(d: Disk, L: seq<nat>, node: nat, work: Block, slot: nat, depth: nat, keep: nat, e: Disk, work': Block)
    requires node != 0 && depth >= 1 && slot < FANOUT
    requires ReadyOn(d, L, multiset{node} + MsAll(KidsOf(d, work, depth - 1)))
    requires forall j: nat :: j < FANOUT && j != slot ==> Entry(work', j) == Entry(work, j)
    requires var k := KidsOf(d, work, depth - 1)[slot];
      && Released(d, L, Nodes(k), FreedKid(k, depth, slot, keep), e)
      && TreeOf(e, Entry(work', slot), depth - 1) == PruneKid(k, depth, slot, keep)
    ensures var ks := KidsOf(d, work, depth - 1);
            var ks' := KidsOf(e, work', depth - 1);
      && ks' == ks[slot := PruneKid(ks[slot], depth, slot, keep)]
      && FreedFrom(ks, slot, depth, keep) == FreedKid(ks[slot], depth, slot, keep) +
          FreedFrom(ks', slot + 1, depth, keep)
      && ReadyOn(e, Reverse(FreedKid(ks[slot], depth, slot, keep)) + L, multiset{node} + MsAll(ks'))
      && FirstKept(d, FreedKid(ks[slot], depth, slot, keep), e, FreedFrom(ks', slot + 1, depth, keep))
      && Read(e, node) == Read(d, node) && NodesAll(ks') <= NodesAll(ks) && Nodes(ks[slot]) <= NodesAll(ks)
  {
    hide Entry, ReadyOn, OpenList, NoDup, MsAll, NodesAll, Ms, Nodes, PruneKid, FreedKid, Reverse, ChainNfree,
         Shape, OnlyWrites, KidsOf, TreeOf, LeftBy;
    var ks, ks' := KidsOf(d, work, depth - 1), KidsOf(e, work', depth - 1);
    SlotKids(d, L, node, work, slot, depth, keep, e, work');
    KidsShape(d, work, depth - 1);
    KidPart(ks[slot], depth, slot, keep);
    FreedFromSuffix(ks, ks', slot + 1, depth, keep);
    SlotReady(d, L, multiset{node}, ks, slot, ks'[slot], FreedKid(ks[slot], depth, slot, keep), e);
    var rest := FreedFrom(ks, slot + 1, depth, keep);
    if rest != [] { FreedWhere(ks, slot + 1, depth, keep); }
    RestKept(d, L, ks, slot, FreedKid(ks[slot], depth, slot, keep), rest, e);
  }

  /** The first block still to be freed reads as before, as long as none has been freed. */
  lemma RestKept(d: Disk, L: seq<nat>, ks: seq<Tree>, slot: nat, fk: seq<nat>, rest: seq<nat>, e: Disk)
    requires slot < |ks| && ReadyOn(d, L, MsAll(ks)) && NoDup(MsAll(ks))
    requires OnlyWrites(d, e, Nodes(ks[slot]), fk)
    requires rest != [] ==> exists j :: 0 <= j < |ks| && j != slot && rest[0] in Ms(ks[j])
    ensures FirstKept(d, fk, e, rest)
  {
    hide OpenList, NoDup, MsAll, Ms, Nodes;
    if fk == [] && rest != [] {
      var j :| 0 <= j < |ks| && j != slot && rest[0] in Ms(ks[j]);
      KidsApart(ks, j, slot, rest[0]);
      MsSplit(ks, j);
      assert MsAll(ks)[rest[0]] >= Ms(ks[j])[rest[0]];
      ReadyOnApart(d, L, MsAll(ks), rest[0]);
    }
  }

  /** Work on one subtree leaves its siblings and the parent alone. */
  lemma SlotFrame(d: Disk, L: seq<nat>, node: nat, work: Block, slot: nat, depth: nat, fk: seq<nat>, e: Disk)
    requires node != 0 && depth >= 1 && slot < FANOUT
    requires var ks := KidsOf(d, work, depth - 1);
      && ReadyOn(d, L, multiset{node} + MsAll(ks))
      && OnlyWrites(d, e, Nodes(ks[slot]), fk)
      && multiset(fk) <= Ms(ks[slot])
    ensures var ks := KidsOf(d, work, depth - 1);
      && ReadyOn(d, L, MsAll(ks)) && NoDup(MsAll(ks))
      && Read(e, node) == Read(d, node)
      && forall j: nat, x :: j < FANOUT && j != slot && x in Nodes(ks[j]) ==> Read(e, x) == Read(d, x)
  {
    hide Entry, OpenList, NoDup, MsAll, NodesAll, Ms, Nodes;
    var ks := KidsOf(d, work, depth - 1);
    var all := multiset{node} + MsAll(ks);
    ReadyOnSub(d, L, MsAll(ks), all);
    SubNoDup(MsAll(ks), MsAll(ks) + multiset(L));
    SubNoDup(all, all + multiset(L));
    MsSplit(ks, slot);
    forall x | x in fk
      ensures x in Ms(ks[slot]) && x in MsAll(ks)
    {
      assert x in multiset(fk);
      assert Ms(ks[slot])[x] >= multiset(fk)[x];
      assert MsAll(ks)[x] >= Ms(ks[slot])[x];
    }
    assert node in all;
    ReadyOnApart(d, L, all, node);
    Apart(multiset{node}, MsAll(ks), node);
    NotBelow(ks, slot, node);
    forall j: nat, x | j < FANOUT && j != slot && x in Nodes(ks[j])
      ensures Read(e, x) == Read(d, x)
    {
      StrangerOn(d, L, ks, slot, j, x);
      NodesInMs(ks[j], x);
      KidsApart(ks, j, slot, x);
    }
  }

  lemma SlotReady(d: Disk, L: seq<nat>, extra: multiset<nat>, ks: seq<Tree>, slot: nat, k': Tree, fk: seq<nat>, e: Disk)
    requires slot < |ks| && SameShape(d, e) && OpenList(e, Reverse(fk) + L)
    requires ReadyOn(d, L, extra + MsAll(ks))
    requires Ms(k') + multiset(fk) == Ms(ks[slot])
    ensures ReadyOn(e, Reverse(fk) + L, extra + MsAll(ks[slot := k']))
  {
    hide OpenList, NoDup, MsAll, Ms, Reverse;
    var a, b := extra + MsAll(ks), extra + MsAll(ks[slot := k']);
    MsUpdate(ks, slot, k');
    ReverseMultiset(fk);
    var f, f' := multiset(L), multiset(Reverse(fk) + L);
    forall x
      ensures (b + f')[x] == (a + f)[x] && b[x] <= a[x]
    {
      assert (MsAll(ks[slot := k']) + Ms(ks[slot]))[x] == (MsAll(ks) + Ms(k'))[x];
      assert (Ms(k') + multiset(fk))[x] == Ms(ks[slot])[x];
    }
    assert b + f' == a + f;
    assert b <= a;
    assert SameShape(d, e);
  }

  lemma {:induction false} ShrinkEntrySound(d: Disk, L: seq<nat>, entry: nat, slot: nat, depth: nat, keep: nat,
                                            now: nat)
    requires entry != 0 && depth >= 1
    requires ReadyOn(d, L, Ms(TreeOf(d, entry, depth - 1)))
    ensures var r := ShrinkEntry(d, entry, slot, depth, keep, now);
            var t := TreeOf(d, entry, depth - 1);
      && r.ok && Released(d, L, Nodes(t), FreedKid(t, depth, slot, keep), r.d)
      && TreeOf(r.d, if r.empty then 0 else entry, depth - 1) == PruneKid(t, depth, slot, keep)
    decreases depth, 0, 1
  {
    hide Released, NoDup, Between, PruneTree, FreedTree, ShrinkIndirect, MsAll, NodesAll,
         KidsOf, FreeEntry, Span, KeepBelow;
    var t := TreeOf(d, entry, depth - 1);
    if depth == 1 {
      if slot < keep { NothingReleased(d, L, Nodes(t)); } else { FreeEntrySound(d, L, entry, now); }
    } else if (slot + 1) * Span(depth - 1) <= keep {
      NothingReleased(d, L, Nodes(t));
    } else {
      CutEntry(d, L, entry, depth - 1, KeepBelow(depth, slot, keep), now);
    }
  }

  /** An indirect entry that is cut, and freed when nothing of it is left. */
  lemma {:induction false} CutEntry(d: Disk, L: seq<nat>, entry: nat, depth: nat, keep: nat, now: nat)
    requires entry != 0 && depth >= 1
    requires ReadyOn(d, L, Ms(TreeOf(d, entry, depth)))
    ensures var s := ShrinkIndirect(d, entry, depth, keep, now);
            var r := if s.ok && s.empty then FreeEntry(s.d, entry, now) else s;
            var t := TreeOf(d, entry, depth);
      && r.ok && Released(d, L, Nodes(t), FreedTree(t, depth, keep), r.d)
      && TreeOf(r.d, if r.empty then 0 else entry, depth) == PruneTree(t, depth, keep)
    decreases depth, 3, 0
  {
    hide Released, NoDup, PruneTree, FreedBelow, ShrinkIndirect, MsAll, NodesAll,
         KidsOf, FreeEntry;
    var t := TreeOf(d, entry, depth);
    var fb := FreedBelow(t, depth, keep);
    ShrinkIndirectSound(d, L, entry, depth, keep, now);
    var s := ShrinkIndirect(d, entry, depth, keep, now);
    if s.empty {
      AfterEmpty(d, L, entry, depth, keep, s);
      FreeEntrySound(s.d, Reverse(fb) + L, entry, now);
      ReleasedTrans(d, L, Nodes(t), fb, s.d, {}, [entry], FreeEntry(s.d, entry, now).d, Nodes(t));
    } else {
      assert fb + [] == fb;
    }
  }

  lemma NothingReleased(d: Disk, L: seq<nat>, nodes: set<nat>)
    requires OpenList(d, L)
    ensures Released(d, L, nodes, [], d)
  {
    assert Reverse([]) + L == L;
  }

  /** An emptied indirect block can itself be freed. */
  lemma AfterEmpty(d: Disk, L: seq<nat>, node: nat, depth: nat, keep: nat, s: Shrunk)
    requires node != 0 && depth >= 1 && ReadyOn(d, L, Ms(TreeOf(d, node, depth)))
    requires Cut(d, L, node, depth, keep, s) && s.empty
    ensures ReadyOn(s.d, Reverse(FreedBelow(TreeOf(d, node, depth), depth, keep)) + L, multiset{node})
  {
    hide OpenList, NoDup, MsAll, Nodes, Reverse, PruneTree, FreedBelow;
    var t := TreeOf(d, node, depth);
    TreeShape(d, node, depth);
    PruneTreeConserves(t, depth, keep);
    var fb := FreedBelow(t, depth, keep);
    ReverseMultiset(fb);
    assert multiset(fb + [node]) == Ms(t) by {
      assert FreedTree(t, depth, keep) == fb + [node];
    }
    forall x
      ensures (multiset{node} + multiset(Reverse(fb) + L))[x] == (Ms(t) + multiset(L))[x]
    {
    }
    assert multiset{node} + multiset(Reverse(fb) + L) == Ms(t) + multiset(L);
    assert node in Ms(t);
    assert SameShape(d, s.d);
  }

  lemma {:induction false} ShrinkSlotsSound(d: Disk, L: seq<nat>, node: nat, work: Block, slot: nat, depth: nat,
                                            keep: nat, dirty: bool, allZero: bool, now: nat)
    requires node != 0 && depth >= 1 && slot <= FANOUT
    requires ReadyOn(d, L, multiset{node} + MsAll(KidsOf(d, work, depth - 1)))
    requires !dirty ==> work == Read(d, node)
    requires allZero <==> HolesBefore(KidsOf(d, work, depth - 1), slot)
    ensures var r := ShrinkSlots(d, node, work, slot, depth, keep, dirty, allZero, now);
            var ks := KidsOf(d, work, depth - 1);
            var out := PruneFrom(ks, slot, depth, keep);
      && r.ok && (r.empty <==> AllHoles(out))
      && Released(d, L, NodesAll(ks) + {node}, FreedFrom(ks, slot, depth, keep), r.d)
      && (if r.empty then Read(r.d, node) == Read(d, node) else KidsOf(r.d, Read(r.d, node), depth - 1) == out)
    decreases depth, 1, FANOUT - slot
  {
    hide Entry, SetEntry, ReadyOn, Released, NoDup, MsAll, NodesAll, Ms, Nodes, PruneKid,
         FreedKid, ShrinkEntry, TreeOf;
    var ks := KidsOf(d, work, depth - 1);
    if slot == FANOUT {
      SlotsEnd(d, L, node, work, depth, dirty, allZero);
    } else {
      var s, work' := OneSlot(d, L, node, work, slot, depth, keep, now);
      var k, ks' := ks[slot], KidsOf(s.d, work', depth - 1);
      var removed := Entry(work, slot) != 0 && s.empty;
      var zero' := allZero && s.empty;
      var M := Reverse(FreedKid(k, depth, slot, keep)) + L;
      ShrinkSlotsSound(s.d, M, node, work', slot + 1, depth, keep, dirty || removed, zero', now);
      var r := ShrinkSlots(s.d, node, work', slot + 1, depth, keep, dirty || removed, zero', now);
      assert r == ShrinkSlots(d, node, work, slot, depth, keep, dirty, allZero, now);
      ReleasedTrans(d, L, Nodes(k), FreedKid(k, depth, slot, keep), s.d, NodesAll(ks') + {node},
                    FreedFrom(ks', slot + 1, depth, keep), r.d, NodesAll(ks) + {node});
    }
  }

  /** One turn of the slot loop. */
  lemma {:induction false} OneSlot(d: Disk, L: seq<nat>, node: nat, work: Block, slot: nat, depth: nat, keep: nat,
                                   now: nat)
    returns (s: Shrunk, work': Block)
    requires node != 0 && depth >= 1 && slot < FANOUT
    requires ReadyOn(d, L, multiset{node} + MsAll(KidsOf(d, work, depth - 1)))
    ensures var entry := Entry(work, slot);
      && s == (if entry == 0 then Shrunk(d, true, true) else ShrinkEntry(d, entry, slot, depth, keep, now))
      && work' == (if entry != 0 && s.empty then SetEntry(work, slot, 0) else work)
    ensures s.ok
    ensures var ks := KidsOf(d, work, depth - 1);
            var ks' := KidsOf(s.d, work', depth - 1);
      && ks' == ks[slot := PruneKid(ks[slot], depth, slot, keep)]
      && Released(d, L, Nodes(ks[slot]), FreedKid(ks[slot], depth, slot, keep), s.d)
      && FreedFrom(ks, slot, depth, keep) == FreedKid(ks[slot], depth, slot, keep) +
          FreedFrom(ks', slot + 1, depth, keep)
      && ReadyOn(s.d, Reverse(FreedKid(ks[slot], depth, slot, keep)) + L, multiset{node} + MsAll(ks'))
      && FirstKept(d, FreedKid(ks[slot], depth, slot, keep), s.d, FreedFrom(ks', slot + 1, depth, keep))
      && Read(s.d, node) == Read(d, node) && NodesAll(ks') <= NodesAll(ks) && Nodes(ks[slot]) <= NodesAll(ks)
      && (ks'[slot].Hole? <==> s.empty)
    decreases depth, 1, 0
  {
    hide Entry, SetEntry, OpenList, NoDup, MsAll, NodesAll, Ms, Nodes, PruneKid, FreedKid, ShrinkEntry,
         Reverse;
    var ks := KidsOf(d, work, depth - 1);
    var entry, k := Entry(work, slot), ks[slot];
    MsSplit(ks, slot);
    ReadyOnSub(d, L, Ms(k), multiset{node} + MsAll(ks));
    assert FreedFrom(ks, slot, depth, keep) == FreedKid(k, depth, slot, keep) + FreedFrom(ks, slot + 1, depth, keep);
    s, work' := Shrunk(d, true, true), work;
    if entry == 0 {
      TreeShape(d, entry, depth - 1);
      HoleKid(k, depth, slot, keep);
      NothingReleased(d, L, Nodes(k));
    } else {
      ShrinkEntrySound(d, L, entry, slot, depth, keep, now);
      s := ShrinkEntry(d, entry, slot, depth, keep, now);
      if s.empty { work' := SetEntry(work, slot, 0); }
    }
    SlotDone(d, L, node, work, slot, depth, keep, s.d, work');
    TreeShape(s.d, Entry(work', slot), depth - 1);
  }

  lemma HoleKid(k: Tree, depth: nat, slot: nat, keep: nat)
    requires k.Hole? && depth >= 1
    ensures PruneKid(k, depth, slot, keep) == Hole && FreedKid(k, depth, slot, keep) == []
  {
  }

  /** Writes off the list leave it alone. */
  lemma OpenFrame(d: Disk, e: Disk, L: seq<nat>)
    requires OpenList(d, L) && |e| == |d| && e[SUPER] == d[SUPER]
    requires forall b :: b in L ==> Read(e, b) == Read(d, b)
    ensures OpenList(e, L) && LeftBy(e, L) == LeftBy(d, L) && SameShape(d, e)
  {
    hide Get16, Get32, Words;
    ChainFrame(d, e, Nfree(d[SUPER]), Words(d[SUPER], SB_FREE), Words(d[SUPER], SB_FREE), L);
  }

  /** Writing indirect blocks alone frees nothing. */
  lemma NothingFreed(d: Disk, e: Disk, L: seq<nat>, nodes: set<nat>)
    requires OpenList(d, L) && |e| == |d| && SUPER < |d| && e[SUPER] == d[SUPER]
    requires forall x: nat :: x != SUPER && x !in nodes ==> Read(e, x) == Read(d, x)
    requires forall x :: x in L ==> Read(e, x) == Read(d, x)
    ensures Released(d, L, nodes, [], e)
  {
    hide OpenList;
    OpenFrame(d, e, L);
    assert Reverse([]) + L == L;
  }

  /** After the last slot the edited copy is written back unless it is unchanged or empty. */
  lemma SlotsEnd(d: Disk, L: seq<nat>, node: nat, work: Block, depth: nat, dirty: bool, allZero: bool)
    requires node != 0 && depth >= 1
    requires ReadyOn(d, L, multiset{node} + MsAll(KidsOf(d, work, depth - 1)))
    requires !dirty ==> work == Read(d, node)
    ensures var ks := KidsOf(d, work, depth - 1);
      var e := if dirty && !allZero then Write(d, node, work) else d;
      && node < |d|
      && Released(d, L, NodesAll(ks) + {node}, [], e)
      && (dirty && !allZero ==> KidsOf(e, Read(e, node), depth - 1) == ks)
  {
    hide Entry, OpenList, NoDup, MsAll, NodesAll, Ms, Nodes;
    var ks := KidsOf(d, work, depth - 1);
    var all := multiset{node} + MsAll(ks);
    var e := if dirty && !allZero then Write(d, node, work) else d;
    assert node in all;
    ReadyOnApart(d, L, all, node);
    NothingFreed(d, e, L, NodesAll(ks) + {node});
    if dirty && !allZero {
      forall x | x in NodesAll(ks)
        ensures Read(e, x) == Read(d, x)
      {
        NotItsOwnKid(d, L, node, ks, x);
      }
      KidsFrame(d, e, work, depth - 1);
    }
  }

  /** In a well-formed tree a node is not among the nodes below it. */
  lemma NotItsOwnKid(d: Disk, L: seq<nat>, node: nat, ks: seq<Tree>, x: nat)
    requires ReadyOn(d, L, multiset{node} + MsAll(ks)) && x in NodesAll(ks)
    ensures x != node
  {
    hide Entry, OpenList, NoDup, MsAll, NodesAll, Ms, Nodes;
    var all := multiset{node} + MsAll(ks);
    var i := NodesFrom(ks, x);
    NodesInMs(ks[i], x);
    MsSplit(ks, i);
    assert MsAll(ks)[x] >= Ms(ks[i])[x];
    SubNoDup(all, all + multiset(L));
    Apart(multiset{node}, MsAll(ks), node);
  }

  /** `ShrinkIndirect` implements pruning: the first `keep` leaves stay, every
      other block below is pushed on the free list exactly once. */
  lemma {:induction false} ShrinkIndirectSound(d: Disk, L: seq<nat>, node: nat, depth: nat, keep: nat, now: nat)
    requires node != 0 && depth >= 1
    requires ReadyOn(d, L, Ms(TreeOf(d, node, depth)))
    ensures Cut(d, L, node, depth, keep, ShrinkIndirect(d, node, depth, keep, now))
    decreases depth, 2, 0
  {
    hide Entry, OpenList, NoDup, MsAll, NodesAll, PruneFrom, FreedFrom, ShrinkSlots, Reverse;
    ShrinkSlotsSound(d, L, node, Read(d, node), 0, depth, keep, false, true, now);
  }

  // ----- a whole file -------------------------------------------------------------------

  datatype FileShrunk = FileShrunk(d: Disk, addrs: Addrs, ok: bool)

  /** One slot of the inode when the file is cut to `n` blocks. */
  function ShrinkSlot(d: Disk, addrs: Addrs, s: nat, n: nat, now: nat): FileShrunk
    requires s < NADDR
  {
    if addrs[s] == 0 || s < Min(n, NDIRECT) then FileShrunk(d, addrs, true)
    else if s < NDIRECT then
      var r := FreeEntry(d, addrs[s], now);
      FileShrunk(r.d, if r.ok then addrs[s := 0] else addrs, r.ok)
    else
      var c := ShrinkIndirect(d, addrs[s], DepthOf(s), KeepOf(s, n), now);
      if !c.ok || !c.empty then FileShrunk(c.d, addrs, c.ok) else
      var r := FreeEntry(c.d, addrs[s], now);
      FileShrunk(r.d, if r.ok then addrs[s := 0] else addrs, r.ok)
  }

  /** Cut the file to its first `n` blocks, slots `s` and up. */
  function ShrinkFrom(d: Disk, addrs: Addrs, s: nat, n: nat, now: nat): FileShrunk
    requires s <= NADDR
    decreases NADDR - s
  {
    if s == NADDR then FileShrunk(d, addrs, true) else
    var r := ShrinkSlot(d, addrs, s, n, now);
    if r.ok then ShrinkFrom(r.d, r.addrs, s + 1, n, now) else r
  }

  lemma ShrinkSlotSound(d: Disk, L: seq<nat>, addrs: Addrs, s: nat, n: nat, now: nat)
    requires s < NADDR && ReadyOn(d, L, Ms(Forest(d, addrs)[s]))
    ensures var r := ShrinkSlot(d, addrs, s, n, now);
            var t := Forest(d, addrs)[s];
      && r.ok && Released(d, L, Nodes(t), FreedSlot(t, s, n), r.d)
      && r.addrs == addrs[s := r.addrs[s]]
      && Forest(r.d, r.addrs)[s] == PruneSlot(t, s, n)
  {
    hide Released, NoDup, Between, PruneTree, FreedTree, ShrinkIndirect, MsAll, NodesAll,
         KidsOf,
         FreeBlock, KeepOf;
    var t := Forest(d, addrs)[s];
    if addrs[s] == 0 || s < Min(n, NDIRECT) {
      NothingReleased(d, L, Nodes(t));
      HoleSlot(t, s, n);
    } else if s < NDIRECT {
      FreeEntrySound(d, L, addrs[s], now);
    } else {
      CutEntry(d, L, addrs[s], DepthOf(s), KeepOf(s, n), now);
      TreeShape(ShrinkSlot(d, addrs, s, n, now).d, addrs[s], DepthOf(s));
    }
  }

  lemma HoleSlot(t: Tree, s: nat, n: nat)
    requires s < NADDR
    ensures t.Hole? ==> FreedSlot(t, s, n) == [] && PruneSlot(t, s, n) == Hole
  {
    hide KeepOf;
    if t.Hole? && s >= NDIRECT { assert FreedBelow(t, DepthOf(s), KeepOf(s, n)) == []; }
  }

  lemma {:induction false} FreedForestWhere(f: seq<Tree>, s: nat, n: nat)
    requires ForestShaped(f) && s <= NADDR && FreedForest(f, s, n) != []
    ensures exists j :: s <= j < NADDR && FreedForest(f, s, n)[0] in Ms(f[j])
    decreases NADDR - s
  {
    hide Ms, FreedSlot, PruneSlot, Nodes;
    var fk := FreedSlot(f[s], s, n);
    if fk == [] {
      FreedForestWhere(f, s + 1, n);
      var j :| s + 1 <= j < NADDR && FreedForest(f, s + 1, n)[0] in Ms(f[j]);
      assert FreedForest(f, s, n) == FreedForest(f, s + 1, n);
    } else {
      PruneSlotConserves(f[s], s, n);
      assert fk[0] in multiset(fk);
      assert Ms(f[s])[fk[0]] >= multiset(fk)[fk[0]];
      assert FreedForest(f, s, n)[0] == fk[0];
    }
  }

  lemma ForestIsShaped(d: Disk, addrs: Addrs)
    ensures ForestShaped(Forest(d, addrs))
  {
    forall s | 0 <= s < NADDR ensures Shape(Forest(d, addrs)[s], DepthOf(s)) { ForestShape(d, addrs, s); }
  }

  /** One slot shrank, and nothing else changed. */
  lemma FileSlotDone(d: Disk, L: seq<nat>, addrs: Addrs, s: nat, n: nat, e: Disk, addrs': Addrs)
    requires s < NADDR && ReadyOn(d, L, MsAll(Forest(d, addrs))) && addrs' == addrs[s := addrs'[s]]
    requires var t := Forest(d, addrs)[s];
      && Released(d, L, Nodes(t), FreedSlot(t, s, n), e)
      && Forest(e, addrs')[s] == PruneSlot(t, s, n)
    ensures var f, f' := Forest(d, addrs), Forest(e, addrs');
      && f' == f[s := PruneSlot(f[s], s, n)]
      && FreedForest(f, s, n) == FreedSlot(f[s], s, n) + FreedForest(f', s + 1, n)
      && ReadyOn(e, Reverse(FreedSlot(f[s], s, n)) + L, MsAll(f')) &&
          FirstKept(d, FreedSlot(f[s], s, n), e, FreedForest(f', s + 1, n))
      && NodesAll(f') <= NodesAll(f) && Nodes(f[s]) <= NodesAll(f)
  {
    hide ReadyOn, OpenList, NoDup, MsAll, NodesAll, Ms, Nodes, PruneSlot, FreedSlot, Reverse, Shape;
    var f, f' := Forest(d, addrs), Forest(e, addrs');
    var fk := FreedSlot(f[s], s, n);
    ForestIsShaped(d, addrs);
    PruneSlotConserves(f[s], s, n);
    ForestNoDup(d, L, addrs);
    forall j | 0 <= j < NADDR && j != s
      ensures f'[j] == f[j]
    {
      forall x | x in Nodes(f[j])
        ensures Read(e, x) == Read(d, x)
      {
        StrangerOn(d, L, f, s, j, x);
        NodesInMs(f[j], x);
        KidsApart(f, j, s, x);
        assert multiset(fk)[x] <= Ms(f[s])[x];
      }
      TreeFrame(d, e, addrs[j], DepthOf(j));
    }
    assert f' == f[s := f'[s]];
    FreedForestSuffix(f, f', s + 1, n);
    NodesUpdate(f, s, f'[s]);
    assert forall m: multiset<nat> :: multiset{} + m == m;
    SlotReady(d, L, multiset{}, f, s, f'[s], fk, e);
    var rest := FreedForest(f, s + 1, n);
    if rest != [] { FreedForestWhere(f, s + 1, n); }
    RestKept(d, L, f, s, fk, rest, e);
  }

  lemma ForestNoDup(d: Disk, L: seq<nat>, addrs: Addrs)
    requires ReadyOn(d, L, MsAll(Forest(d, addrs)))
    ensures NoDup(MsAll(Forest(d, addrs)))
  {
    SubNoDup(MsAll(Forest(d, addrs)), MsAll(Forest(d, addrs)) + multiset(L));
  }

  lemma NothingDone(d: Disk, L: seq<nat>, addrs: Addrs, n: nat)
    requires ReadyOn(d, L, MsAll(Forest(d, addrs)))
    ensures Released(d, L, NodesAll(Forest(d, addrs)), [], d) && Reverse([]) + L == L
    ensures PruneForest(Forest(d, addrs), NADDR, n) == Forest(d, addrs)
  {
    hide OpenList, MsAll, NodesAll, Forest;
    NothingReleased(d, L, NodesAll(Forest(d, addrs)));
    assert Reverse([]) == [];
  }

  lemma ReverseJoined(fs: seq<nat>, gs: seq<nat>, L: seq<nat>)
    ensures Reverse(gs) + (Reverse(fs) + L) == Reverse(fs + gs) + L
  {
    ReverseConcat(fs, gs);
  }

  lemma {:induction false} ShrinkFromSound(d: Disk, L: seq<nat>, addrs: Addrs, s: nat, n: nat, now: nat)
    requires s <= NADDR && ReadyOn(d, L, MsAll(Forest(d, addrs)))
    ensures var r := ShrinkFrom(d, addrs, s, n, now);
            var f := Forest(d, addrs);
      && r.ok && Released(d, L, NodesAll(f), FreedForest(f, s, n), r.d)
      && Forest(r.d, r.addrs) == PruneForest(f, s, n)
      && ReadyOn(r.d, Reverse(FreedForest(f, s, n)) + L, MsAll(Forest(r.d, r.addrs)))
    decreases NADDR - s
  {
    hide ReadyOn, OpenList, NoDup, MsAll, NodesAll, Ms, Nodes, PruneSlot, FreedSlot, ShrinkSlot, Released, Reverse,
         Forest, FirstKept;
    var f := Forest(d, addrs);
    if s == NADDR {
      NothingDone(d, L, addrs, n);
    } else {
      var r := ShrinkSlot(d, addrs, s, n, now);
      var fk := FreedSlot(f[s], s, n);
      assert f[s] == Forest(d, addrs)[s] && ReadyOn(d, L, Ms(f[s])) by {
        MsSplit(f, s);
        ReadyOnSub(d, L, Ms(f[s]), MsAll(f));
      }
      ShrinkSlotSound(d, L, addrs, s, n, now);
      FileSlotDone(d, L, addrs, s, n, r.d, r.addrs);
      ShrinkFromSound(r.d, Reverse(fk) + L, r.addrs, s + 1, n, now);
      var q := ShrinkFrom(r.d, r.addrs, s + 1, n, now);
      var f' := Forest(r.d, r.addrs);
      var rest := FreedForest(f', s + 1, n);
      assert ShrinkFrom(d, addrs, s, n, now) == q;
      assert FreedForest(f, s, n) == fk + rest;
      assert PruneForest(f, s, n) == PruneForest(f', s + 1, n);
      ReleasedTrans(d, L, Nodes(f[s]), fk, r.d, NodesAll(f'), rest, q.d, NodesAll(f));
      ReverseJoined(fk, rest, L);
    }
  }

  /** Shrinking a file to `n` blocks never fails, whatever its free list ends in: the
      first `n` logical blocks (holes included) keep their blocks, nothing stays mapped
      past them, every other block of the file is pushed on the free list exactly once,
      and only the file's indirect blocks, the freed blocks and the superblock are written. */
  lemma ShrinkOpen(d: Disk, L: seq<nat>, addrs: Addrs, n: nat, now: nat)
    requires ReadyOn(d, L, MsAll(Forest(d, addrs)))
    ensures var r := ShrinkFrom(d, addrs, 0, n, now);
            var f, f' := Forest(d, addrs), Forest(r.d, r.addrs);
      && r.ok && ReadyOn(r.d, Reverse(FreedForest(f, 0, n)) + L, MsAll(f'))
      && f' == PruneForest(f, 0, n)
      && (forall i: nat :: FileAt(f', i) == if i < n then FileAt(f, i) else 0)
      && Released(d, L, NodesAll(f), FreedForest(f, 0, n), r.d)
      && MsAll(f') + multiset(FreedForest(f, 0, n)) == MsAll(f)
      && NodesAll(f') <= NodesAll(f)
  {
    hide ReadyOn, Released, PruneForest, FreedForest, FileAt, MsAll, NodesAll;
    ShrinkFromSound(d, L, addrs, 0, n, now);
    var f := Forest(d, addrs);
    ForestIsShaped(d, addrs);
    PruneForestConserves(f, 0, n);
    forall i: nat
      ensures FileAt(PruneForest(f, 0, n), i) == if i < n then FileAt(f, i) else 0
    {
      PruneForestMap(f, n, i);
    }
  }

  /** Shrinking with a well-formed free list: as above, and the free list is well formed
      again, with the freed blocks on top, exactly when `CanFree` says so beforehand. */
  lemma ShrinkSound(d: Disk, addrs: Addrs, n: nat, now: nat)
    requires FileReady(d, addrs)
    ensures var r := ShrinkFrom(d, addrs, 0, n, now);
            var f, f' := Forest(d, addrs), Forest(r.d, r.addrs);
            var freed := FreedForest(f, 0, n);
      && r.ok && f' == PruneForest(f, 0, n)
      && (forall i: nat :: FileAt(f', i) == if i < n then FileAt(f, i) else 0)
      && Released(d, FreeOf(d), NodesAll(f), freed, r.d)
      && MsAll(f') + multiset(freed) == MsAll(f) && NodesAll(f') <= NodesAll(f)
      && (FreeOk(r.d) <==> CanFree(d, freed))
      && (FreeOk(r.d) ==> FileReady(r.d, r.addrs) && FreeOf(r.d) == Reverse(freed) + FreeOf(d))
  {
    hide ReadyOn, PruneForest, FreedForest, FileAt, MsAll, NodesAll, OpenList, LeftBy, ChainRest, Ended, Reverse, NoDup,
         Forest, OnlyWrites;
    var L, f := FreeOf(d), Forest(d, addrs);
    ReadyIsOn(d, MsAll(f));
    ShrinkOpen(d, L, addrs, n, now);
    var r := ShrinkFrom(d, addrs, 0, n, now);
    var freed := FreedForest(f, 0, n);
    FreeOfIs(r.d, Reverse(freed) + L);
    if CanFree(d, freed) {
      OnIsReady(r.d, MsAll(Forest(r.d, r.addrs)));
    }
  }

  lemma ReadyIsOn(d: Disk, m: multiset<nat>)
    requires Ready(d, m)
    ensures FreeRep(d, FreeOf(d)) && ReadyOn(d, FreeOf(d), m)
  {
  }

  lemma OnIsReady(d: Disk, m: multiset<nat>)
    requires FreeOk(d) && ReadyOn(d, FreeOf(d), m)
    ensures Ready(d, m)
  {
  }

  lemma FileNoDup(d: Disk, addrs: Addrs)
    requires FileReady(d, addrs)
    ensures NoDup(MsAll(Forest(d, addrs)))
  {
    hide OpenList, MsAll, NoDup;
    ReadyIsOn(d, MsAll(Forest(d, addrs)));
    ForestNoDup(d, FreeOf(d), addrs);
  }
}
