/** A file's block map: ten direct slots and the roots of a single, a double and
    a triple indirect tree, addressed by logical block index. */
module FileMap {
  import opened Bytes
  import opened FreeList
  import opened BlockTree

  const NDIRECT := 10
  const NADDR := 13
  const MAXBLOCKS := NDIRECT + FANOUT + FANOUT * FANOUT + FANOUT * FANOUT * FANOUT

  type Addrs = a: seq<nat> | |a| == NADDR witness seq(NADDR, _ => 0)

  /** Where a logical block lives: a slot of the inode and the path below it. */
  datatype Place = Place(depth: nat, slot: nat, coords: seq<nat>) | TooLarge

  function ClassifyIndex(idx: nat): Place {
    if idx < NDIRECT then Place(0, idx, []) else
    var n := FANOUT;
    var r := idx - NDIRECT;
    if r < n then Place(1, NDIRECT, [r]) else
    var r2 := r - n;
    if r2 < n * n then Place(2, NDIRECT + 1, [r2 / n, r2 % n]) else
    var r3 := r2 - n * n;
    if r3 < n * n * n then Place(3, NDIRECT + 2, [r3 / (n * n), (r3 % (n * n)) / n, r3 % n])
    else TooLarge
  }

  function DepthOf(slot: nat): nat {
    if slot < NDIRECT then 0 else slot - NDIRECT + 1
  }

  /** The first logical index a slot covers. */
  function Offset(slot: nat): nat {
    if slot <= NDIRECT then slot
    else if slot == NDIRECT + 1 then NDIRECT + FANOUT
    else NDIRECT + FANOUT + FANOUT * FANOUT
  }

  /** The block map of an inode, read off the disk. */
  function Forest(d: Disk, addrs: Addrs): (f: seq<Tree>)
    ensures |f| == NADDR
    ensures forall s :: 0 <= s < NADDR ==> f[s] == TreeOf(d, addrs[s], DepthOf(s))
  {
    seq(NADDR, s requires 0 <= s < NADDR => TreeOf(d, addrs[s], DepthOf(s)))
  }

  /** The data block of logical index `idx`, 0 for a hole. */
  function FileAt(f: seq<Tree>, idx: nat): nat
    requires |f| == NADDR
  {
    var c := ClassifyIndex(idx);
    if c.TooLarge? then 0 else At(f[c.slot], c.coords)
  }

  lemma SpanValues()
    ensures Span(0) == 1 && Span(1) == FANOUT && Span(2) == FANOUT * FANOUT && Span(3) == FANOUT * FANOUT * FANOUT
  {
    assert Span(0) == 1;
    assert Span(1) == FANOUT;
    assert Span(2) == FANOUT * Span(1);
    assert Span(3) == FANOUT * Span(2);
  }

  lemma IndexValues(p: seq<nat>)
    requires |p| <= 3
    ensures |p| == 0 ==> Index(p) == 0
    ensures |p| == 1 ==> Index(p) == p[0]
    ensures |p| == 2 ==> Index(p) == p[0] * FANOUT + p[1]
    ensures |p| == 3 ==> Index(p) == p[0] * (FANOUT * FANOUT) + p[1] * FANOUT + p[2]
  {
    SpanValues();
    if |p| >= 1 { assert Index(p) == p[0] * Span(|p| - 1) + Index(p[1..]); }
    if |p| >= 2 { assert Index(p[1..]) == p[1] * Span(|p| - 2) + Index(p[1..][1..]); }
    if |p| >= 3 { assert Index(p[1..][1..]) == p[2] * Span(|p| - 3) + Index(p[1..][1..][1..]); }
  }

  lemma Digits(r: nat)
    ensures (r / (FANOUT * FANOUT)) * (FANOUT * FANOUT) + ((r % (FANOUT * FANOUT)) / FANOUT) * FANOUT + r % FANOUT == r
    ensures (r % (FANOUT * FANOUT)) / FANOUT < FANOUT
  {
  }

  /** Every index below the triple-indirect limit has a place, and the place is
      the position the index counts. */
  lemma ClassifySound(idx: nat)
    ensures ClassifyIndex(idx).TooLarge? <==> idx >= MAXBLOCKS
    ensures idx < MAXBLOCKS ==> var c := ClassifyIndex(idx);
      && c.slot < NADDR && c.depth == DepthOf(c.slot)
      && GoodPath(c.coords, c.depth) && Offset(c.slot) + Index(c.coords) == idx
  {
    hide Index, Span;
    if idx < MAXBLOCKS {
      IndexValues(ClassifyIndex(idx).coords);
      var r := idx - NDIRECT;
      if r >= FANOUT + FANOUT * FANOUT { Digits(r - FANOUT - FANOUT * FANOUT); }
    }
  }

  /** ... and every tree position is the place of exactly one index: the
      classification is a bijection. */
  lemma ClassifyOnto(slot: nat, p: seq<nat>)
    requires slot < NADDR && GoodPath(p, DepthOf(slot))
    ensures var idx := Offset(slot) + Index(p);
      idx < MAXBLOCKS && ClassifyIndex(idx) == Place(DepthOf(slot), slot, p)
  {
    hide Index, Span;
    IndexValues(p);
    IndexBound(p);
    SpanValues();
    var idx := Offset(slot) + Index(p);
    if |p| == 3 {
      Digits3(p[0], p[1], p[2]);
    }
    if |p| == 2 {
      Digits2(p[0], p[1]);
    }
    assert ClassifyIndex(idx).coords == p;
  }

  lemma Digits2(a: nat, b: nat)
    requires b < FANOUT
    ensures (a * FANOUT + b) / FANOUT == a && (a * FANOUT + b) % FANOUT == b
  {
  }

  lemma Digits3(a: nat, b: nat, c: nat)
    requires b < FANOUT && c < FANOUT
    ensures var r := a * (FANOUT * FANOUT) + b * FANOUT + c;
      && r / (FANOUT * FANOUT) == a
      && (r % (FANOUT * FANOUT)) / FANOUT == b
      && r % FANOUT == c
  {
  }

  lemma ClassifyInjective(i: nat, j: nat)
    requires i < MAXBLOCKS && j < MAXBLOCKS && ClassifyIndex(i) == ClassifyIndex(j)
    ensures i == j
  {
    ClassifySound(i);
    ClassifySound(j);
  }

  lemma ForestShape(d: Disk, addrs: Addrs, slot: nat)
    requires slot < NADDR
    ensures Shape(Forest(d, addrs)[slot], DepthOf(slot))
  {
    TreeShape(d, addrs[slot], DepthOf(slot));
  }

  /** In a file that uses no block twice, different indices map to different
      blocks, none of them an indirect block. */
  lemma FileBlocksDiffer(d: Disk, addrs: Addrs, i: nat, j: nat)
    requires NoDup(MsAll(Forest(d, addrs))) && i != j
    requires FileAt(Forest(d, addrs), i) != 0 && FileAt(Forest(d, addrs), j) != 0
    ensures FileAt(Forest(d, addrs), i) != FileAt(Forest(d, addrs), j)
  {
    hide MsAll, NoDup, Ms;
    var f, ci, cj := Forest(d, addrs), ClassifyIndex(i), ClassifyIndex(j);
    ClassifySound(i);
    ClassifySound(j);
    AtInMs(f[ci.slot], ci.coords);
    AtInMs(f[cj.slot], cj.coords);
    if ci.slot != cj.slot {
      KidsApart(f, ci.slot, cj.slot, FileAt(f, i));
    } else {
      MsSplit(f, ci.slot);
      SubNoDup(Ms(f[ci.slot]), MsAll(f));
      ForestShape(d, addrs, ci.slot);
      LeavesDiffer(f[ci.slot], ci.depth, ci.coords, cj.coords);
    }
  }

  lemma FileBlockIn(f: seq<Tree>, i: nat)
    requires |f| == NADDR && NoDup(MsAll(f)) && FileAt(f, i) != 0
    ensures FileAt(f, i) in MsAll(f) && FileAt(f, i) !in NodesAll(f)
  {
    hide MsAll, NoDup, Ms, NodesAll, Nodes;
    var c := ClassifyIndex(i);
    ClassifySound(i);
    var x := FileAt(f, i);
    AtInMs(f[c.slot], c.coords);
    MsSplit(f, c.slot);
    assert MsAll(f)[x] >= Ms(f[c.slot])[x];
    SubNoDup(Ms(f[c.slot]), MsAll(f));
    LeafIsNoNode(f[c.slot], c.coords);
    forall s | 0 <= s < NADDR
      ensures x !in Nodes(f[s])
    {
      if s != c.slot { KidsApart(f, c.slot, s, x); }
    }
    NodesLack(f, x);
  }

  /** A file's map depends only on its indirect blocks. */
  lemma ForestFrame(d: Disk, e: Disk, addrs: Addrs)
    requires forall x :: x in NodesAll(Forest(d, addrs)) ==> Read(e, x) == Read(d, x)
    ensures Forest(e, addrs) == Forest(d, addrs)
  {
    var f := Forest(d, addrs);
    forall s | 0 <= s < NADDR
      ensures Forest(e, addrs)[s] == f[s]
    {
      NodesKid(f, s);
      TreeFrame(d, e, addrs[s], DepthOf(s));
    }
  }
}
