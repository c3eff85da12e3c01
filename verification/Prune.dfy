/** Shrinking, on block trees as values: what is left of a tree cut down to its
    first `keep` leaves, and which blocks are given back in which order. */
module Prune {
  import opened Basics
  import opened Bytes
  import opened BlockTree
  import opened FileMap

  /** What is left of the subtree in slot `slot` of an indirect block at `depth`. */
  ghost function PruneKid(t: Tree, depth: nat, slot: nat, keep: nat): Tree
    requires depth >= 1
    decreases depth, 0, 0
  {
    if t.Hole? then Hole
    else if depth == 1 then (if slot < keep then t else Hole)
    else if (slot + 1) * Span(depth - 1) <= keep then t
    else PruneTree(t, depth - 1, KeepBelow(depth, slot, keep))
  }

  /** How many leaves of slot `slot` are among the first `keep`. */
  function KeepBelow(depth: nat, slot: nat, keep: nat): nat
    requires depth >= 1
  {
    if keep >= slot * Span(depth - 1) then keep - slot * Span(depth - 1) else 0
  }

  /** Slots before `slot` are done; cut the others in order. */
  ghost function PruneFrom(ks: seq<Tree>, slot: nat, depth: nat, keep: nat): (r: seq<Tree>)
    requires depth >= 1
    ensures |r| == |ks|
    decreases depth, 1, |ks| - slot
  {
    if slot >= |ks| then ks
    else PruneFrom(ks[slot := PruneKid(ks[slot], depth, slot, keep)], slot + 1, depth, keep)
  }

  /** An indirect block left without entries goes too. */
  ghost function PruneTree(t: Tree, depth: nat, keep: nat): Tree
    requires depth >= 1
    decreases depth, 2, 0
  {
    if !t.Indir? then t else
    var ks := PruneFrom(t.kids, 0, depth, keep);
    if AllHoles(ks) then Hole else Indir(t.b, ks)
  }

  /** The blocks given back, in the order they are freed. */
  ghost function FreedKid(t: Tree, depth: nat, slot: nat, keep: nat): seq<nat>
    requires depth >= 1
    decreases depth, 0, 0
  {
    if t.Hole? then []
    else if depth == 1 then (if slot < keep then [] else [t.b])
    else if (slot + 1) * Span(depth - 1) <= keep then []
    else FreedTree(t, depth - 1, KeepBelow(depth, slot, keep))
  }

  ghost function FreedFrom(ks: seq<Tree>, slot: nat, depth: nat, keep: nat): seq<nat>
    requires depth >= 1
    decreases depth, 1, |ks| - slot
  {
    if slot >= |ks| then [] else FreedKid(ks[slot], depth, slot, keep) + FreedFrom(ks, slot + 1, depth, keep)
  }

  ghost function FreedBelow(t: Tree, depth: nat, keep: nat): seq<nat>
    requires depth >= 1
    decreases depth, 2, 0
  {
    if t.Indir? then FreedFrom(t.kids, 0, depth, keep) else []
  }

  ghost function FreedTree(t: Tree, depth: nat, keep: nat): seq<nat>
    requires depth >= 1
    decreases depth, 3, 0
  {
    FreedBelow(t, depth, keep) + if t.Indir? && PruneTree(t, depth, keep).Hole? then [t.b] else []
  }

  // ----- each block freed once, no block lost ----------------------------------

  lemma {:induction false} PruneKidConserves(t: Tree, depth: nat, slot: nat, keep: nat)
    requires depth >= 1 && Shape(t, depth - 1)
    ensures Ms(PruneKid(t, depth, slot, keep)) + multiset(FreedKid(t, depth, slot, keep)) == Ms(t)
    ensures Nodes(PruneKid(t, depth, slot, keep)) <= Nodes(t)
    ensures Shape(PruneKid(t, depth, slot, keep), depth - 1)
    decreases depth, 0, 0
  {
    hide MsAll, NodesAll, PruneTree, FreedTree;
    if !t.Hole? && depth > 1 && (slot + 1) * Span(depth - 1) > keep {
      PruneTreeConserves(t, depth - 1, KeepBelow(depth, slot, keep));
    }
  }

  lemma Regroup(all: multiset<nat>, all1: multiset<nat>, k: multiset<nat>, k1: multiset<nat>, out: multiset<nat>,
                fk: seq<nat>, rest: seq<nat>)
    requires all1 + k == all + k1 && k1 + multiset(fk) == k && out + multiset(rest) == all1
    ensures out + multiset(fk + rest) == all
  {
    forall x
      ensures (out + multiset(fk + rest))[x] == all[x]
    {
      assert (all1 + k)[x] == (all + k1)[x];
      assert (k1 + multiset(fk))[x] == k[x];
      assert (out + multiset(rest))[x] == all1[x];
    }
  }

  lemma {:induction false} PruneFromConserves(ks: seq<Tree>, slot: nat, depth: nat, keep: nat)
    requires depth >= 1 && forall i :: 0 <= i < |ks| ==> Shape(ks[i], depth - 1)
    ensures MsAll(PruneFrom(ks, slot, depth, keep)) + multiset(FreedFrom(ks, slot, depth, keep)) == MsAll(ks)
    ensures NodesAll(PruneFrom(ks, slot, depth, keep)) <= NodesAll(ks)
    ensures forall i :: 0 <= i < |ks| ==> Shape(PruneFrom(ks, slot, depth, keep)[i], depth - 1)
    decreases depth, 1, |ks| - slot
  {
    hide MsAll, NodesAll, PruneKid, FreedKid, Ms, Nodes;
    if slot < |ks| {
      PruneKidConserves(ks[slot], depth, slot, keep);
      var k, fk := PruneKid(ks[slot], depth, slot, keep), FreedKid(ks[slot], depth, slot, keep);
      var ks1 := ks[slot := k];
      PruneFromConserves(ks1, slot + 1, depth, keep);
      FreedFromSuffix(ks, ks1, slot + 1, depth, keep);
      MsUpdate(ks, slot, k);
      var rest := FreedFrom(ks, slot + 1, depth, keep);
      Regroup(MsAll(ks), MsAll(ks1), Ms(ks[slot]), Ms(k), MsAll(PruneFrom(ks1, slot + 1, depth, keep)), fk, rest);
      NodesUpdate(ks, slot, k);
    }
  }

  lemma {:induction false} FreedFromSuffix(ks: seq<Tree>, ls: seq<Tree>, slot: nat, depth: nat, keep: nat)
    requires depth >= 1 && |ks| == |ls| && forall i :: slot <= i < |ks| ==> ks[i] == ls[i]
    ensures FreedFrom(ks, slot, depth, keep) == FreedFrom(ls, slot, depth, keep)
    decreases |ks| - slot
  {
    if slot < |ks| { FreedFromSuffix(ks, ls, slot + 1, depth, keep); }
  }

  lemma {:induction false} PruneTreeConserves(t: Tree, depth: nat, keep: nat)
    requires depth >= 1 && Shape(t, depth)
    ensures Ms(PruneTree(t, depth, keep)) + multiset(FreedTree(t, depth, keep)) == Ms(t)
    ensures Nodes(PruneTree(t, depth, keep)) <= Nodes(t)
    ensures Shape(PruneTree(t, depth, keep), depth)
    decreases depth, 2, 0
  {
    hide MsAll, NodesAll, PruneFrom, FreedFrom;
    if t.Indir? {
      PruneFromConserves(t.kids, 0, depth, keep);
      if AllHoles(PruneFrom(t.kids, 0, depth, keep)) { HolesMs(PruneFrom(t.kids, 0, depth, keep)); }
    }
  }

  // ----- what stays mapped ------------------------------------------------------

  lemma {:induction false} PruneFromAt(ks: seq<Tree>, slot: nat, depth: nat, keep: nat, j: nat)
    requires depth >= 1 && j < |ks|
    ensures PruneFrom(ks, slot, depth, keep)[j] == if j < slot then ks[j] else PruneKid(ks[j], depth, j, keep)
    decreases |ks| - slot
  {
    hide PruneKid;
    if slot < |ks| {
      PruneFromAt(ks[slot := PruneKid(ks[slot], depth, slot, keep)], slot + 1, depth, keep, j);
    }
  }

  lemma KeepArith(slot: nat, span: nat, r: nat, keep: nat)
    requires r < span
    ensures (slot + 1) * span <= keep ==> slot * span + r < keep
    ensures slot * span + r < keep <==> r < (if keep >= slot * span then keep - slot * span else 0)
  {
    assert (slot + 1) * span == slot * span + span;
  }

  /** The first `keep` leaves stay where they are, the others are gone. */
  lemma {:induction false} PruneAt(t: Tree, depth: nat, keep: nat, p: seq<nat>)
    requires depth >= 1 && Shape(t, depth) && GoodPath(p, depth)
    ensures At(PruneTree(t, depth, keep), p) == if Index(p) < keep then At(t, p) else 0
    decreases depth
  {
    hide PruneFrom;
    if t.Indir? {
      var j, q := p[0], p[1..];
      assert |t.kids| == FANOUT && Shape(t.kids[j], depth - 1);
      PruneFromAt(t.kids, 0, depth, keep, j);
      var ks := PruneFrom(t.kids, 0, depth, keep);
      assert At(PruneTree(t, depth, keep), p) == At(ks[j], q) by {
        if AllHoles(ks) { assert ks[j].Hole?; }
      }
      IndexBound(q);
      KeepArith(j, Span(depth - 1), Index(q), keep);
      PruneKidAt(t.kids[j], depth, j, keep, q);
    }
  }

  lemma {:induction false} PruneKidAt(t: Tree, depth: nat, slot: nat, keep: nat, q: seq<nat>)
    requires depth >= 1 && Shape(t, depth - 1) && GoodPath(q, depth - 1) && Index(q) < Span(depth - 1)
    ensures At(PruneKid(t, depth, slot, keep), q) == if slot * Span(depth - 1) + Index(q) < keep then At(t, q) else 0
    decreases depth, 0
  {
    hide PruneTree;
    KeepArith(slot, Span(depth - 1), Index(q), keep);
    if depth == 1 {
      assert Span(0) == 1 && Index(q) == 0;
    } else if !t.Hole? && (slot + 1) * Span(depth - 1) > keep {
      PruneAt(t, depth - 1, KeepBelow(depth, slot, keep), q);
    }
  }

  /** Cutting to nothing removes the whole tree. */
  lemma {:induction false} PruneToNothing(t: Tree, depth: nat)
    requires depth >= 1 && Shape(t, depth)
    ensures PruneTree(t, depth, 0).Hole?
    decreases depth
  {
    hide PruneFrom;
    if t.Indir? {
      var ks := PruneFrom(t.kids, 0, depth, 0);
      forall i | 0 <= i < |ks|
        ensures ks[i].Hole?
      {
        PruneFromAt(t.kids, 0, depth, 0, i);
        if depth > 1 && !t.kids[i].Hole? {
          assert (i + 1) * Span(depth - 1) > 0;
          PruneToNothing(t.kids[i], depth - 1);
        }
      }
    }
  }

  // ----- a whole file -------------------------------------------------------------

  /** How many leaves of inode slot `slot` are among the file's first `n` blocks. */
  function KeepOf(slot: nat, n: nat): nat {
    Min(if n >= Offset(slot) then n - Offset(slot) else 0, Span(DepthOf(slot)))
  }

  ghost function PruneSlot(t: Tree, slot: nat, n: nat): Tree
    requires slot < NADDR
  {
    if slot < NDIRECT then (if slot < n then t else Hole) else PruneTree(t, DepthOf(slot), KeepOf(slot, n))
  }

  ghost function FreedSlot(t: Tree, slot: nat, n: nat): seq<nat>
    requires slot < NADDR
  {
    if slot < NDIRECT then (if slot < n || t.Hole? then [] else [t.b])
    else FreedTree(t, DepthOf(slot), KeepOf(slot, n))
  }

  /** The block map cut to its first `n` logical blocks, from slot `s` on. */
  ghost function PruneForest(f: seq<Tree>, s: nat, n: nat): (r: seq<Tree>)
    requires |f| == NADDR && s <= NADDR
    ensures |r| == NADDR
    decreases NADDR - s
  {
    if s == NADDR then f else PruneForest(f[s := PruneSlot(f[s], s, n)], s + 1, n)
  }

  ghost function FreedForest(f: seq<Tree>, s: nat, n: nat): seq<nat>
    requires |f| == NADDR && s <= NADDR
    decreases NADDR - s
  {
    if s == NADDR then [] else FreedSlot(f[s], s, n) + FreedForest(f, s + 1, n)
  }

  ghost predicate ForestShaped(f: seq<Tree>) {
    |f| == NADDR && forall s :: 0 <= s < NADDR ==> Shape(f[s], DepthOf(s))
  }

  lemma PruneSlotConserves(t: Tree, s: nat, n: nat)
    requires s < NADDR && Shape(t, DepthOf(s))
    ensures Ms(PruneSlot(t, s, n)) + multiset(FreedSlot(t, s, n)) == Ms(t)
    ensures multiset(FreedSlot(t, s, n)) <= Ms(t)
    ensures Nodes(PruneSlot(t, s, n)) <= Nodes(t)
    ensures Shape(PruneSlot(t, s, n), DepthOf(s))
  {
    hide PruneTree, FreedTree, MsAll, NodesAll, KeepOf;
    if s >= NDIRECT { PruneTreeConserves(t, DepthOf(s), KeepOf(s, n)); }
    var fs := FreedSlot(t, s, n);
    forall x ensures multiset(fs)[x] <= Ms(t)[x] { assert (Ms(PruneSlot(t, s, n)) + multiset(fs))[x] == Ms(t)[x]; }
  }

  lemma {:induction false} FreedForestSuffix(f: seq<Tree>, g: seq<Tree>, s: nat, n: nat)
    requires |f| == |g| == NADDR && s <= NADDR && forall i :: s <= i < NADDR ==> f[i] == g[i]
    ensures FreedForest(f, s, n) == FreedForest(g, s, n)
    decreases NADDR - s
  {
    if s < NADDR { FreedForestSuffix(f, g, s + 1, n); }
  }

  lemma {:induction false} PruneForestAt(f: seq<Tree>, s: nat, n: nat, j: nat)
    requires |f| == NADDR && s <= NADDR && j < NADDR
    ensures PruneForest(f, s, n)[j] == if j < s then f[j] else PruneSlot(f[j], j, n)
    decreases NADDR - s
  {
    hide PruneSlot;
    if s < NADDR { PruneForestAt(f[s := PruneSlot(f[s], s, n)], s + 1, n, j); }
  }

  /** Cutting a file to `n` blocks: its first `n` logical blocks, holes included,
      are mapped as before, and nothing is mapped past them at any depth. */
  lemma PruneForestMap(f: seq<Tree>, n: nat, idx: nat)
    requires ForestShaped(f)
    ensures FileAt(PruneForest(f, 0, n), idx) == if idx < n then FileAt(f, idx) else 0
  {
    hide PruneForest, PruneTree;
    ClassifySound(idx);
    if idx < MAXBLOCKS {
      var c := ClassifyIndex(idx);
      PruneForestAt(f, 0, n, c.slot);
      if c.slot >= NDIRECT {
        PruneAt(f[c.slot], c.depth, KeepOf(c.slot, n), c.coords);
        IndexBound(c.coords);
      }
    }
  }

  /** Every block of the file is afterwards either still in it or freed, once. */
  lemma {:induction false} PruneForestConserves(f: seq<Tree>, s: nat, n: nat)
    requires ForestShaped(f) && s <= NADDR
    ensures MsAll(PruneForest(f, s, n)) + multiset(FreedForest(f, s, n)) == MsAll(f)
    ensures NodesAll(PruneForest(f, s, n)) <= NodesAll(f)
    ensures ForestShaped(PruneForest(f, s, n))
    decreases NADDR - s
  {
    hide MsAll, NodesAll, PruneSlot, FreedSlot, Ms, Nodes;
    if s < NADDR {
      PruneSlotConserves(f[s], s, n);
      var k, fk := PruneSlot(f[s], s, n), FreedSlot(f[s], s, n);
      var g := f[s := k];
      PruneForestConserves(g, s + 1, n);
      FreedForestSuffix(f, g, s + 1, n);
      MsUpdate(f, s, k);
      NodesUpdate(f, s, k);
      Regroup(MsAll(f), MsAll(g), Ms(f[s]), Ms(k), MsAll(PruneForest(g, s + 1, n)), fk, FreedForest(f, s + 1, n));
    }
  }
}
