/** How many blocks a growth needs: the pointers, data and indirect, that have still to be set
    before the first blocks of a file are mapped. Growing succeeds exactly when there are as
    many free blocks. */
module Demand {
  import opened Bytes
  import opened FreeList
  import opened BlockTree
  import opened FileMap
  import opened Prune
  import opened Grow
  import opened Shrink
  import opened CutExact
  import opened FileShape

  // ----- one tree -----------------------------------------------------------------------

  function Holes(): (r: seq<Tree>)
    ensures |r| == FANOUT && forall i :: 0 <= i < FANOUT ==> r[i] == Hole
  {
    seq(FANOUT, _ => Hole)
  }

  /** The subtrees of an indirect block, or those it will start with. */
  function KidsIn(t: Tree): seq<Tree> { if t.Indir? then t.kids else Holes() }

  /** The pointers missing at and below a position, of those on the way to the first `k` leaves. */
  function Missing(t: Tree, depth: nat, k: nat): nat
    decreases depth, 1, 0
  {
    if k == 0 then 0
    else (if t.Hole? then 1 else 0) + if depth == 0 then 0 else MissingFrom(KidsIn(t), 0, depth, k)
  }

  function MissingFrom(ts: seq<Tree>, i: nat, depth: nat, k: nat): nat
    requires depth >= 1
    decreases depth, 0, |ts| - i
  {
    if i >= |ts| then 0 else Missing(ts[i], depth - 1, KeepBelow(depth, i, k)) + MissingFrom(ts, i + 1, depth, k)
  }

  lemma {:induction false} MissingUpdate(ts: seq<Tree>, i: nat, depth: nat, k: nat, j: nat, t: Tree)
    requires depth >= 1 && j < |ts|
    ensures MissingFrom(ts[j := t], i, depth, k) +
        (if i <= j then Missing(ts[j], depth - 1, KeepBelow(depth, j, k)) else 0)
         == MissingFrom(ts, i, depth, k) + if i <= j then Missing(t, depth - 1, KeepBelow(depth, j, k)) else 0
    decreases |ts| - i
  {
    hide Missing, KeepBelow;
    if i < |ts| { MissingUpdate(ts, i + 1, depth, k, j, t); }
  }

  /** Two trees with the same pointers are the same. */
  lemma {:induction false} SamePtrs(t: Tree, u: Tree, depth: nat)
    requires Shape(t, depth) && Shape(u, depth) && forall r :: Ptr(t, r) == Ptr(u, r)
    ensures t == u
    decreases depth
  {
    assert Ptr(t, []) == Ptr(u, []);
    if t.Indir? {
      forall i | 0 <= i < FANOUT
        ensures t.kids[i] == u.kids[i]
      {
        forall r ensures Ptr(t.kids[i], r) == Ptr(u.kids[i], r) {
          KidPtr(t, depth, i, r);
          KidPtr(u, depth, i, r);
        }
        SamePtrs(t.kids[i], u.kids[i], depth - 1);
      }
      assert t.kids == u.kids;
    }
  }

  lemma HolesPtr(r: seq<nat>, i: nat)
    requires i < FANOUT
    ensures Ptr(Holes()[i], r) == 0
  {
  }

  /** A subtree before and after pointers were added on the way to `p`. */
  lemma KidAlong(t: Tree, u: Tree, depth: nat, p: seq<nat>, i: nat)
    requires depth >= 1 && Shape(t, depth) && Shape(u, depth) && u.Indir? && GoodPath(p, depth) && i < FANOUT
    requires OnlyAlong(t, u, p)
    ensures i == p[0] ==> OnlyAlong(KidsIn(t)[i], u.kids[i], p[1..])
    ensures i != p[0] ==> u.kids[i] == KidsIn(t)[i]
  {
    hide Shape;
    assert Shape(KidsIn(t)[i], depth - 1) && Shape(u.kids[i], depth - 1) by { KidShape(t, u, depth, i); }
    forall r
      ensures Ptr(KidsIn(t)[i], r) == Ptr(t, [i] + r) && Ptr(u.kids[i], r) == Ptr(u, [i] + r)
    {
      KidPtr(u, depth, i, r);
      if t.Indir? { KidPtr(t, depth, i, r); } else { HoleOrNone(t, depth); HolesPtr(r, i); }
    }
    hide Ptr;
    if i == p[0] {
      forall r | Ptr(u.kids[i], r) != Ptr(KidsIn(t)[i], r)
        ensures Ptr(KidsIn(t)[i], r) == 0 && OnWay(r, p[1..])
      {
        var q := [i] + r;
        assert Ptr(u, q) != Ptr(t, q);
        assert q[1..] == r && p[..|q|][1..] == p[1..][..|r|];
      }
    } else {
      forall r
        ensures Ptr(KidsIn(t)[i], r) == Ptr(u.kids[i], r)
      {
        var q := [i] + r;
        WayHead(q, p);
      }
      SamePtrs(KidsIn(t)[i], u.kids[i], depth - 1);
    }
  }

  lemma WayHead(q: seq<nat>, p: seq<nat>)
    ensures OnWay(q, p) && q != [] ==> q[0] == p[0]
  {
    if OnWay(q, p) && q != [] { assert p[..|q|][0] == p[0]; }
  }

  lemma KidShape(t: Tree, u: Tree, depth: nat, i: nat)
    requires depth >= 1 && Shape(t, depth) && Shape(u, depth) && u.Indir? && i < FANOUT
    ensures |KidsIn(t)| == |u.kids| == FANOUT && Shape(KidsIn(t)[i], depth - 1) && Shape(u.kids[i], depth - 1)
  {
  }

  lemma HoleOrNone(t: Tree, depth: nat)
    requires depth >= 1 && Shape(t, depth)
    ensures t.Hole? || t.Indir?
  {
  }

  /** Adding pointers on the way to one of the first `k` leaves: as many fewer are missing. */
  lemma {:induction false} AlongCounts(t: Tree, u: Tree, depth: nat, p: seq<nat>, k: nat)
    requires Shape(t, depth) && Shape(u, depth) && GoodPath(p, depth) && Index(p) < k && OnlyAlong(t, u, p)
    ensures |Ms(u)| + Missing(u, depth, k) == |Ms(t)| + Missing(t, depth, k)
    decreases depth
  {
    hide KeepBelow, Ptr, OnWay, MsAll, MissingFrom, Index;
    assert Ptr(u, []) != Ptr(t, []) ==> Ptr(t, []) == 0;
    RootPtr(t, depth);
    RootPtr(u, depth);
    if depth > 0 && u.Indir? {
      var ts, i := KidsIn(t), p[0];
      KidShape(t, u, depth, i);
      forall j | 0 <= j < FANOUT && j != i ensures u.kids[j] == ts[j] { KidAlong(t, u, depth, p, j); }
      KidAlong(t, u, depth, p, i);
      assert u.kids == ts[i := u.kids[i]];
      PathBelow(p, depth, k);
      AlongCounts(ts[i], u.kids[i], depth - 1, p[1..], KeepBelow(depth, i, k));
      MissingUpdate(ts, 0, depth, k, i, u.kids[i]);
      MsUpdate(ts, i, u.kids[i]);
      SameSum(MsAll(u.kids), Ms(ts[i]), MsAll(ts), Ms(u.kids[i]));
      KidsMs(t, depth);
      KidsMs(u, depth);
    }
  }

  lemma SameSum(a: multiset<nat>, b: multiset<nat>, c: multiset<nat>, d: multiset<nat>)
    requires a + b == c + d
    ensures |a| + |b| == |c| + |d|
  {
    assert |a + b| == |c + d|;
  }

  lemma KidsMs(t: Tree, depth: nat)
    requires depth >= 1 && Shape(t, depth)
    ensures |Ms(t)| == |MsAll(KidsIn(t))| + if t.Hole? then 0 else 1
  {
    if t.Hole? { HolesMs(Holes()); }
  }

  lemma PathBelow(p: seq<nat>, depth: nat, k: nat)
    requires depth >= 1 && GoodPath(p, depth)
    ensures GoodPath(p[1..], depth - 1)
    ensures Index(p) < k <==> Index(p[1..]) < KeepBelow(depth, p[0], k)
  {
    hide Span;
    assert Index(p) == p[0] * Span(depth - 1) + Index(p[1..]);
  }

  /** Nothing is missing exactly when the first `k` leaves are all mapped. */
  lemma {:induction false} NoneMissing(t: Tree, depth: nat, k: nat)
    requires Shape(t, depth)
    ensures Missing(t, depth, k) == 0 <==> forall p :: GoodPath(p, depth) && Index(p) < k ==> At(t, p) != 0
    decreases depth, 1, 0
  {
    hide MissingFrom, Index;
    if k > 0 {
      FirstLeaf(depth);
      if depth == 0 {
        forall p | GoodPath(p, 0) ensures p == [] {}
      } else if t.Indir? {
        NoneMissingFrom(t.kids, 0, depth, k);
        forall p | GoodPath(p, depth) ensures At(t, p) == At(t.kids[p[0]], p[1..]) {}
      }
    } else {
      assert forall p :: Index(p) >= 0;
    }
  }

  function Zeros(depth: nat): seq<nat> { seq(depth, _ => 0) }

  lemma {:induction false} FirstLeaf(depth: nat)
    ensures GoodPath(Zeros(depth), depth) && Index(Zeros(depth)) == 0
  {
    if depth > 0 {
      FirstLeaf(depth - 1);
      assert Zeros(depth)[1..] == Zeros(depth - 1);
    }
  }

  lemma {:induction false} NoneMissingFrom(ts: seq<Tree>, i: nat, depth: nat, k: nat)
    requires depth >= 1 && i <= |ts| == FANOUT && forall j :: 0 <= j < FANOUT ==> Shape(ts[j], depth - 1)
    ensures MissingFrom(ts, i, depth, k) == 0 <==>
      forall p :: GoodPath(p, depth) && p[0] >= i && Index(p) < k ==> At(ts[p[0]], p[1..]) != 0
    decreases depth, 0, FANOUT - i
  {
    hide Missing, Index, KeepBelow, Shape, At;
    if i < FANOUT {
      NoneMissingFrom(ts, i + 1, depth, k);
      NoneMissing(ts[i], depth - 1, KeepBelow(depth, i, k));
      forall p | GoodPath(p, depth)
        ensures Index(p) < k <==> Index(p[1..]) < KeepBelow(depth, p[0], k)
        ensures GoodPath(p[1..], depth - 1)
      {
        PathBelow(p, depth, k);
      }
      forall q | GoodPath(q, depth - 1) && Index(q) < KeepBelow(depth, i, k)
        ensures GoodPath([i] + q, depth) && Index([i] + q) < k && ([i] + q)[1..] == q
      {
        assert ([i] + q)[1..] == q;
        PathBelow([i] + q, depth, k);
      }
    }
  }

  // ----- a whole file ---------------------------------------------------------------------

  /** How many of the first `n` blocks come after the first one of slot `s`. */
  function RoomFor(s: nat, n: nat): nat { if n > Offset(s) then n - Offset(s) else 0 }

  function MissingSlots(f: seq<Tree>, s: nat, n: nat): nat
    requires |f| == NADDR && s <= NADDR
    decreases NADDR - s
  {
    if s == NADDR then 0 else Missing(f[s], DepthOf(s), RoomFor(s, n)) + MissingSlots(f, s + 1, n)
  }

  /** The pointers, data and indirect, still to be set before the first `n` blocks are mapped. */
  function FileMissing(f: seq<Tree>, n: nat): nat
    requires |f| == NADDR
  {
    MissingSlots(f, 0, n)
  }

  lemma {:induction false} SlotsUpdate(f: seq<Tree>, s: nat, n: nat, j: nat, t: Tree)
    requires |f| == NADDR && s <= NADDR && j < NADDR
    ensures MissingSlots(f[j := t], s, n) + (if s <= j then Missing(f[j], DepthOf(j), RoomFor(j, n)) else 0)
         == MissingSlots(f, s, n) + if s <= j then Missing(t, DepthOf(j), RoomFor(j, n)) else 0
    decreases NADDR - s
  {
    hide Missing, RoomFor, DepthOf;
    if s < NADDR { SlotsUpdate(f, s + 1, n, j, t); }
  }

  lemma PlaceRoom(idx: nat, n: nat)
    requires idx < MAXBLOCKS
    ensures var c := ClassifyIndex(idx);
      c.slot < NADDR && GoodPath(c.coords, DepthOf(c.slot)) && (idx < n <==> Index(c.coords) < RoomFor(c.slot, n))
  {
    hide ClassifyIndex, Index;
    ClassifySound(idx);
  }

  /** Mapping one of the first `n` indices: each block the file gains is a pointer less to be set. */
  lemma FileCounts(f: seq<Tree>, f': seq<Tree>, idx: nat, n: nat)
    requires ForestShaped(f) && ForestShaped(f') && FileAlong(f, f', idx) && idx < n
    ensures |MsAll(f')| + FileMissing(f', n) == |MsAll(f)| + FileMissing(f, n)
  {
    hide Ptr, OnWay, Ms, MsAll, Missing, ClassifyIndex, Shape, Index;
    var c := ClassifyIndex(idx);
    forall s: nat | s < NADDR && (c.TooLarge? || s != c.slot)
      ensures f'[s] == f[s]
    {
      forall r ensures Ptr(f[s], r) == Ptr(f'[s], r) {}
      SamePtrs(f[s], f'[s], DepthOf(s));
    }
    ClassifySound(idx);
    if c.TooLarge? {
      assert f' == f;
    } else {
      var s := c.slot;
      PlaceRoom(idx, n);
      assert OnlyAlong(f[s], f'[s], c.coords);
      AlongCounts(f[s], f'[s], DepthOf(s), c.coords, RoomFor(s, n));
      assert f' == f[s := f'[s]];
      SlotsUpdate(f, 0, n, s, f'[s]);
      MsUpdate(f, s, f'[s]);
      SameSum(MsAll(f'), Ms(f[s]), MsAll(f), Ms(f'[s]));
    }
  }

  lemma {:induction false} SlotsNone(f: seq<Tree>, s: nat, n: nat)
    requires ForestShaped(f) && s <= NADDR
    ensures MissingSlots(f, s, n) == 0 <==>
      forall t: nat, p :: s <= t < NADDR && GoodPath(p, DepthOf(t)) && Index(p) < RoomFor(t, n) ==> At(f[t], p) != 0
    decreases NADDR - s
  {
    hide Missing, Index, RoomFor, Shape, At, DepthOf;
    if s < NADDR {
      SlotsNone(f, s + 1, n);
      NoneMissing(f[s], DepthOf(s), RoomFor(s, n));
    }
  }

  /** Nothing is missing exactly when the first `n` blocks, up to the triple-indirect limit,
      are all mapped. */
  lemma FileNone(f: seq<Tree>, n: nat)
    requires ForestShaped(f)
    ensures FileMissing(f, n) == 0 <==> forall i: nat :: i < n && i < MAXBLOCKS ==> FileAt(f, i) != 0
  {
    hide Missing, Index, RoomFor, Shape, At, ClassifyIndex;
    SlotsNone(f, 0, n);
    if FileMissing(f, n) == 0 {
      forall i: nat | i < n && i < MAXBLOCKS
        ensures FileAt(f, i) != 0
      {
        ClassifySound(i);
        PlaceRoom(i, n);
        assert At(f[ClassifyIndex(i).slot], ClassifyIndex(i).coords) != 0;
      }
    }
    if forall i: nat :: i < n && i < MAXBLOCKS ==> FileAt(f, i) != 0 {
      forall t: nat, p | t < NADDR && GoodPath(p, DepthOf(t)) && Index(p) < RoomFor(t, n)
        ensures At(f[t], p) != 0
      {
        ClassifyOnto(t, p);
        var i := Offset(t) + Index(p);
        PlaceRoom(i, n);
        assert FileAt(f, i) == At(f[t], p);
      }
    }
  }

  // ----- growing on the disk ------------------------------------------------------------------

  /** Growing, whether it succeeds or not, takes from the free list as many blocks as pointers
      are set; if it fails one of the indices is left unmapped. */
  lemma {:induction false} GrowCounts(d: Disk, addrs: Addrs, i: nat, n: nat, now: nat)
    requires i <= n && FileReady(d, addrs)
    ensures var r := GrowFrom(d, addrs, i, n, now);
            var f, f' := Forest(d, addrs), Forest(r.d, r.addrs);
      && FileReady(r.d, r.addrs) && FreeOk(d) && FreeOk(r.d)
      && |MsAll(f')| + FileMissing(f', n) == |MsAll(f)| + FileMissing(f, n)
      && |FreeOf(r.d)| + FileMissing(f, n) == |FreeOf(d)| + FileMissing(f', n)
      && (!r.ok ==> exists j: nat :: i <= j < n && FileAt(f', j) == 0)
    decreases n - i
  {
    hide FreeRep, FreeOf, NoDup, MsAll, NodesAll, EnsureData, FileAt, Forest, FileAlong, FileMissing;
    var f := Forest(d, addrs);
    if i < n {
      EnsureDataSound(d, addrs, i, now);
      EnsureDataAlong(d, addrs, i, now);
      var m := EnsureData(d, addrs, i, now);
      var f1 := Forest(m.d, m.addrs);
      GrownReady(d, NodesAll(f), MsAll(f), m.d, NodesAll(f1), MsAll(f1));
      ForestIsShaped(d, addrs);
      ForestIsShaped(m.d, m.addrs);
      FileCounts(f, f1, i, n);
      SameSum(MsAll(f1), multiset(FreeOf(m.d)), MsAll(f), multiset(FreeOf(d)));
      if m.ok {
        GrowCounts(m.d, m.addrs, i + 1, n, now);
      } else {
        StaysUnmapped(d, addrs, i, now);
      }
    }
  }

  lemma StaysUnmapped(d: Disk, addrs: Addrs, i: nat, now: nat)
    requires FileReady(d, addrs) && !EnsureData(d, addrs, i, now).ok
    ensures var r := EnsureData(d, addrs, i, now); FileAt(Forest(r.d, r.addrs), i) == 0
  {
    hide FileReady, FileGrown, EnsureData, FileAt;
    EnsureDataSound(d, addrs, i, now);
  }

  /** A file can be grown to `n` blocks exactly when that is within the triple-indirect limit
      and no more pointers are missing than blocks are free; the growth then takes that many. */
  lemma GrowsExactly(d: Disk, addrs: Addrs, n: nat, now: nat)
    requires FileReady(d, addrs)
    ensures var r := GrowFrom(d, addrs, 0, n, now);
            var miss := FileMissing(Forest(d, addrs), n);
      && (r.ok <==> n <= MAXBLOCKS && miss <= |FreeOf(d)|)
      && (r.ok ==> FreeOk(r.d) && |FreeOf(r.d)| == |FreeOf(d)| - miss)
  {
    hide FreeRep, FreeOf, NoDup, MsAll, NodesAll, EnsureData, FileAt, Forest, GrowFrom, FileMissing, Grown;
    GrowSound(d, addrs, 0, n, now);
    GrowCounts(d, addrs, 0, n, now);
    var r := GrowFrom(d, addrs, 0, n, now);
    ForestIsShaped(r.d, r.addrs);
    FileNone(Forest(r.d, r.addrs), n);
    if r.ok && n > MAXBLOCKS { PastLimitUnmapped(Forest(r.d, r.addrs)); }
  }

  lemma PastLimitUnmapped(f: seq<Tree>)
    requires |f| == NADDR
    ensures FileAt(f, MAXBLOCKS) == 0
  {
    ClassifySound(MAXBLOCKS);
  }

  // ----- when a failed growth leaves an empty indirect block ---------------------------------

  lemma {:induction false} MissingGrows(t: Tree, depth: nat, k: nat, l: nat)
    requires k <= l
    ensures Missing(t, depth, k) <= Missing(t, depth, l)
    decreases depth, 1, 0
  {
    hide MissingFrom;
    if k > 0 && depth > 0 { MissingFromGrows(KidsIn(t), 0, depth, k, l); }
  }

  lemma {:induction false} MissingFromGrows(ts: seq<Tree>, i: nat, depth: nat, k: nat, l: nat)
    requires depth >= 1 && k <= l
    ensures MissingFrom(ts, i, depth, k) <= MissingFrom(ts, i, depth, l)
    decreases depth, 0, |ts| - i
  {
    hide Missing;
    if i < |ts| {
      MissingGrows(ts[i], depth - 1, KeepBelow(depth, i, k), KeepBelow(depth, i, l));
      MissingFromGrows(ts, i + 1, depth, k, l);
    }
  }

  lemma {:induction false} SlotsGrow(f: seq<Tree>, s: nat, k: nat, l: nat)
    requires |f| == NADDR && s <= NADDR && k <= l
    ensures MissingSlots(f, s, k) <= MissingSlots(f, s, l)
    decreases NADDR - s
  {
    hide Missing, DepthOf;
    if s < NADDR {
      MissingGrows(f[s], DepthOf(s), RoomFor(s, k), RoomFor(s, l));
      SlotsGrow(f, s + 1, k, l);
    }
  }

  lemma FileMissingGrows(f: seq<Tree>, k: nat, l: nat)
    requires |f| == NADDR && k <= l
    ensures FileMissing(f, k) <= FileMissing(f, l)
  {
    SlotsGrow(f, 0, k, l);
  }

  /** The same blocks as before: then no pointer was added. */
  lemma NoneAdded(f: seq<Tree>, f': seq<Tree>, idx: nat)
    requires ForestShaped(f) && ForestShaped(f') && NoDup(MsAll(f')) && FileAlong(f, f', idx) && MsAll(f') == MsAll(f)
    ensures forall s: nat, r :: s < NADDR ==> Ptr(f'[s], r) == Ptr(f[s], r)
  {
    hide Ptr, OnWay, MsAll, NoDup, Ms, ClassifyIndex, Shape;
    forall s: nat, r | s < NADDR
      ensures Ptr(f'[s], r) == Ptr(f[s], r)
    {
      if Ptr(f'[s], r) != 0 {
        InFile(f', s, r);
        var t, p := Located(f, Ptr(f'[s], r));
        FilePtrsDiffer(f', s, r, t, p);
      }
    }
  }

  lemma SameForest(f: seq<Tree>, f': seq<Tree>)
    requires ForestShaped(f) && ForestShaped(f')
    ensures (forall s: nat, r :: s < NADDR ==> Ptr(f'[s], r) == Ptr(f[s], r)) ==> f' == f
  {
    hide Ptr, Shape;
    if forall s: nat, r :: s < NADDR ==> Ptr(f'[s], r) == Ptr(f[s], r) {
      forall s | 0 <= s < NADDR ensures f'[s] == f[s] { SamePtrs(f[s], f'[s], DepthOf(s)); }
    }
  }

  /** A block was gained: then some pointer was added. */
  lemma SomeAdded(f: seq<Tree>, f': seq<Tree>, idx: nat) returns (s: nat, r: seq<nat>)
    requires ForestShaped(f) && ForestShaped(f') && FileAlong(f, f', idx) && f' != f
    ensures s < NADDR && Ptr(f'[s], r) != Ptr(f[s], r)
  {
    hide Ptr, FileAlong, Shape;
    SameForest(f, f');
    s, r :| s < NADDR && Ptr(f'[s], r) != Ptr(f[s], r);
  }

  /** The last position on the way to an unmapped leaf that holds a pointer. */
  lemma {:induction false} LastOnWay(t: Tree, depth: nat, p: seq<nat>, m: nat) returns (r: seq<nat>)
    requires Shape(t, depth) && GoodPath(p, depth) && At(t, p) == 0 && m <= depth && Ptr(t, p[..m]) != 0
    ensures |r| < depth && OnWay(r, p) && |r| >= m && r[..m] == p[..m]
    ensures Ptr(t, r) != 0 && Ptr(t, r + [p[|r|]]) == 0
    decreases depth - m
  {
    hide Ptr, Shape;
    LeafPtr(t, p, depth);
    assert p[..depth] == p;
    var q := p[..m + 1];
    assert q == p[..m] + [p[m]];
    if Ptr(t, q) == 0 {
      r := p[..m];
    } else {
      r := LastOnWay(t, depth, p, m + 1);
      assert r[..m] == r[..m + 1][..m] == p[..m + 1][..m] == p[..m];
    }
  }

  lemma NextStep(r: seq<nat>, i: nat, p: seq<nat>)
    requires |r| < |p|
    ensures OnWay(r + [i], p) ==> i == p[|r|]
  {
    if OnWay(r + [i], p) { assert p[..|r| + 1][|r|] == p[|r|]; }
  }

  /** Pointers were added on the way to a leaf, and the leaf is still unmapped: then the last
      one added is an indirect block without entries. */
  lemma LastIsEmpty(t: Tree, u: Tree, depth: nat, p: seq<nat>, r0: seq<nat>) returns (r: seq<nat>)
    requires Shape(t, depth) && Shape(u, depth) && GoodPath(p, depth) && OnlyAlong(t, u, p) && At(u, p) == 0
    requires Ptr(u, r0) != Ptr(t, r0)
    ensures Inner(r, depth) && Ptr(u, r) != 0 && !HasEntry(u, r)
  {
    hide Ptr, Shape, At;
    assert OnWay(r0, p) && Ptr(t, r0) == 0;
    r := LastOnWay(u, depth, p, |r0|);
    if r != r0 { assert Below(r0, r); }
    assert Ptr(t, r) == 0 by { if Ptr(t, r) != 0 && r != r0 { PtrAbove(t, r0, r, depth); } }
    forall i: nat | i < FANOUT
      ensures Ptr(u, r + [i]) == 0
    {
      var q := r + [i];
      assert Below(r, q);
      assert Ptr(t, q) == 0 by { if Ptr(t, q) != 0 { PtrAbove(t, r, q, depth); } }
      NextStep(r, i, p);
    }
  }

  /** An index could not be mapped: the file stays tidy exactly when no block was free. */
  lemma FailedIndexTidy(d: Disk, addrs: Addrs, i: nat, now: nat)
    requires FileReady(d, addrs) && Tidy(Forest(d, addrs)) && i < MAXBLOCKS && !EnsureData(d, addrs, i, now).ok
    ensures var r := EnsureData(d, addrs, i, now);
      && FreeOk(d) && (Tidy(Forest(r.d, r.addrs)) <==> FreeOf(d) == [])
      && FileMissing(Forest(d, addrs), i + 1) > |FreeOf(d)|
  {
    hide FreeRep, FreeOf, NoDup, MsAll, NodesAll, EnsureData, FileAt, FileMissing, Ptr, HasEntry, Forest,
         FileAlong, Shape, ClassifyIndex;
    var f, r := Forest(d, addrs), EnsureData(d, addrs, i, now);
    var f' := Forest(r.d, r.addrs);
    EnsureDataSound(d, addrs, i, now);
    EnsureDataAlong(d, addrs, i, now);
    GrownReady(d, NodesAll(f), MsAll(f), r.d, NodesAll(f'), MsAll(f'));
    ForestIsShaped(d, addrs);
    ForestIsShaped(r.d, r.addrs);
    FileNoDup(r.d, r.addrs);
    FileCounts(f, f', i, i + 1);
    SameSum(MsAll(f'), multiset(FreeOf(r.d)), MsAll(f), multiset(FreeOf(d)));
    StaysUnmapped(d, addrs, i, now);
    FileNone(f', i + 1);
    if FreeOf(d) == [] {
      NothingElse(MsAll(f'), FreeOf(r.d), MsAll(f), FreeOf(d));
      NoneAdded(f, f', i);
      TidySame(f, f');
    } else {
      var s, q := SomeAdded(f, f', i);
      NowUntidy(f, f', i, s, q);
    }
  }

  lemma NothingElse(a: multiset<nat>, s: seq<nat>, b: multiset<nat>, t: seq<nat>)
    requires a + multiset(s) == b + multiset(t) && s == [] && t == []
    ensures a == b
  {
    forall x ensures a[x] == b[x] { assert (a + multiset(s))[x] == a[x] && (b + multiset(t))[x] == b[x]; }
  }

  lemma TidySame(f: seq<Tree>, f': seq<Tree>)
    requires |f| == |f'| == NADDR && Tidy(f) && forall s: nat, r :: s < NADDR ==> Ptr(f'[s], r) == Ptr(f[s], r)
    ensures Tidy(f')
  {
    hide Ptr;
    forall s: nat, p | s < NADDR && Inner(p, DepthOf(s)) && Ptr(f'[s], p) != 0
      ensures HasEntry(f'[s], p)
    {
      assert Ptr(f[s], p) != 0 && HasEntry(f[s], p);
      var i: nat :| i < FANOUT && Ptr(f[s], p + [i]) != 0;
      assert Ptr(f'[s], p + [i]) != 0;
    }
  }

  lemma NowUntidy(f: seq<Tree>, f': seq<Tree>, i: nat, s: nat, q: seq<nat>)
    requires ForestShaped(f) && ForestShaped(f') && FileAlong(f, f', i) && i < MAXBLOCKS && FileAt(f', i) == 0
    requires s < NADDR && Ptr(f'[s], q) != Ptr(f[s], q)
    ensures !Tidy(f')
  {
    hide Ptr, HasEntry, Shape, OnWay, At;
    ClassifySound(i);
    var c := ClassifyIndex(i);
    assert s == c.slot && OnlyAlong(f[s], f'[s], c.coords);
    var r := LastIsEmpty(f[s], f'[s], DepthOf(s), c.coords, q);
  }

  /** The index at which a growth stops, and whether the file is then still tidy. */
  lemma {:induction false} StopTidy(d: Disk, addrs: Addrs, i: nat, n: nat, now: nat) returns (stop: nat)
    requires i <= n <= MAXBLOCKS && FileReady(d, addrs) && Tidy(Forest(d, addrs)) && !GrowFrom(d, addrs, i, n, now).ok
    requires forall j: nat :: j < i ==> FileAt(Forest(d, addrs), j) != 0
    ensures FreeOk(d) && i <= stop < n
    ensures var r := GrowFrom(d, addrs, i, n, now);
            var f, f' := Forest(d, addrs), Forest(r.d, r.addrs);
      && FileMissing(f, stop) <= |FreeOf(d)| < FileMissing(f, stop + 1)
      && (Tidy(f') <==> FileMissing(f, stop) == |FreeOf(d)|)
    decreases n - i
  {
    hide FreeRep, FreeOf, NoDup, MsAll, NodesAll, EnsureData, FileAt, Forest, FileAlong, FileMissing, Tidy, Shape;
    var f := Forest(d, addrs);
    var m := EnsureData(d, addrs, i, now);
    EnsureDataSound(d, addrs, i, now);
    EnsureDataAlong(d, addrs, i, now);
    ForestIsShaped(d, addrs);
    FileNone(f, i);
    if m.ok {
      var f1 := Forest(m.d, m.addrs);
      GrownReady(d, NodesAll(f), MsAll(f), m.d, NodesAll(f1), MsAll(f1));
      ForestIsShaped(m.d, m.addrs);
      AlongTidies(f, f1, i);
      SameSum(MsAll(f1), multiset(FreeOf(m.d)), MsAll(f), multiset(FreeOf(d)));
      stop := StopTidy(m.d, m.addrs, i + 1, n, now);
      FileCounts(f, f1, i, stop);
      FileCounts(f, f1, i, stop + 1);
    } else {
      stop := i;
      FailedIndexTidy(d, addrs, i, now);
    }
  }

  /** A growth that runs out of space leaves a tidy file tidy exactly when the free blocks give
      out between two indices: when they are as many as the pointers missing for some shorter
      length. Otherwise the last block taken is an indirect block without entries. */
  lemma FailedGrowthTidy(d: Disk, addrs: Addrs, n: nat, now: nat)
    requires FileReady(d, addrs) && Tidy(Forest(d, addrs)) && n <= MAXBLOCKS && !GrowFrom(d, addrs, 0, n, now).ok
    ensures FreeOk(d)
    ensures var r := GrowFrom(d, addrs, 0, n, now);
      Tidy(Forest(r.d, r.addrs)) <==> exists j: nat :: j < n && FileMissing(Forest(d, addrs), j) == |FreeOf(d)|
  {
    hide FreeOf, FileReady, Tidy, GrowFrom, FileAt, MissingSlots, Forest;
    var f := Forest(d, addrs);
    var stop := StopTidy(d, addrs, 0, n, now);
    forall j: nat | j < n
      ensures j <= stop ==> FileMissing(f, j) <= FileMissing(f, stop)
      ensures j > stop ==> FileMissing(f, j) >= FileMissing(f, stop + 1)
    {
      if j <= stop { FileMissingGrows(f, j, stop); } else { FileMissingGrows(f, stop + 1, j); }
    }
  }
}
