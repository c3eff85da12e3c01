/** Reading a file, and the two walks over its block tree: the one that lists the
    logical blocks and the one the checker uses to mark blocks in use. */
module Walk {
  import opened Basics
  import opened Bytes
  import opened FreeList
  import opened BlockTree
  import opened FileMap

  /** Block lists hold absolute block numbers; `po` is the partition's first block. */
  const HOLE := -1

  function Abs(po: nat, b: nat): int {
    if b == 0 then HOLE else po + b
  }

  function BlocksFor(size: nat): nat {
    (size + BLOCK - 1) / BLOCK
  }

  function Holes(n: nat): (r: seq<int>)
    ensures |r| == n && forall i :: 0 <= i < n ==> r[i] == HOLE
  {
    seq(n, _ => HOLE)
  }

  // ----- the list of logical blocks -------------------------------------------

  /** Append the leaves below `bno` to `out`, up to `need` entries in all. */
  function WalkIndirect(d: Disk, po: nat, bno: nat, depth: nat, need: nat, out: seq<int>): seq<int>
    requires depth >= 1
    decreases depth, 1, 0
  {
    if |out| >= need then out
    else if bno == 0 then out + Holes(Min(Span(depth), need - |out|))
    else WalkSlots(d, po, Read(d, bno), 0, depth, need, out)
  }

  function WalkSlots(d: Disk, po: nat, blk: Block, i: nat, depth: nat, need: nat, out: seq<int>): seq<int>
    requires depth >= 1 && i <= FANOUT
    decreases depth, 0, FANOUT - i
  {
    if i == FANOUT || |out| >= need then out
    else if depth == 1 then WalkSlots(d, po, blk, i + 1, depth, need, out + [Abs(po, Entry(blk, i))])
    else WalkSlots(d, po, blk, i + 1, depth, need, WalkIndirect(d, po, Entry(blk, i), depth - 1, need, out))
  }

  function DirectBlocks(po: nat, addrs: Addrs, s: nat, need: nat, out: seq<int>): seq<int>
    requires s <= NDIRECT
    decreases NDIRECT - s
  {
    if s == NDIRECT || |out| >= need then out else DirectBlocks(po, addrs, s + 1, need, out + [Abs(po, addrs[s])])
  }

  function FileBlocks(d: Disk, po: nat, addrs: Addrs, size: nat): seq<int> {
    var need := BlocksFor(size);
    var b0 := DirectBlocks(po, addrs, 0, need, []);
    var b1 := WalkIndirect(d, po, addrs[10], 1, need, b0);
    var b2 := WalkIndirect(d, po, addrs[11], 2, need, b1);
    WalkIndirect(d, po, addrs[12], 3, need, b2)
  }

  /** The walk below one pointer: entry `|out| + Index(p)` is the leaf at path `p`. */
  ghost predicate Listed(po: nat, t: Tree, depth: nat, need: nat, out: seq<int>, r: seq<int>) {
    && |r| == (if |out| >= need then |out| else Min(need, |out| + Span(depth)))
    && out <= r
    && forall p :: GoodPath(p, depth) && |out| + Index(p) < |r| ==> r[|out| + Index(p)] == Abs(po, At(t, p))
  }

  lemma {:induction false} WalkIndirectLists(d: Disk, po: nat, bno: nat, depth: nat, need: nat, out: seq<int>)
    requires depth >= 1
    ensures Listed(po, TreeOf(d, bno, depth), depth, need, out, WalkIndirect(d, po, bno, depth, need, out))
    decreases depth, 1, 0
  {
    hide Span, Entry, Index, KidsOf;
    if |out| < need && bno != 0 {
      WalkSlotsLists(d, po, Read(d, bno), 0, depth, need, out);
      SlotsAreAll(d, po, bno, depth, need, out, WalkSlots(d, po, Read(d, bno), 0, depth, need, out));
    }
  }

  lemma SlotsAreAll(d: Disk, po: nat, bno: nat, depth: nat, need: nat, out: seq<int>, r: seq<int>)
    requires depth >= 1 && bno != 0 && |out| < need
    requires SlotsListed(d, po, Read(d, bno), 0, depth, need, out, r)
    ensures Listed(po, TreeOf(d, bno, depth), depth, need, out, r)
  {
    hide Span, Entry, LeafFrom, Index, Abs;
    SpanStep(depth);
    forall p | GoodPath(p, depth) && |out| + Index(p) < |r|
      ensures r[|out| + Index(p)] == Abs(po, At(TreeOf(d, bno, depth), p))
    {
      LeafFromZero(p);
      assert r[|out| + LeafFrom(p, 0)] == Abs(po, At(TreeOf(d, Entry(Read(d, bno), p[0]), depth - 1), p[1..]));
    }
  }

  lemma SpanStep(depth: nat)
    requires depth >= 1
    ensures Span(depth) == FANOUT * Span(depth - 1)
  {
  }

  /** Position of a leaf counted from slot `i` of its indirect block. */
  ghost function LeafFrom(p: seq<nat>, i: nat): nat
    requires p != [] && p[0] >= i
  {
    (p[0] - i) * Span(|p| - 1) + Index(p[1..])
  }

  lemma LeafFromZero(p: seq<nat>)
    requires p != []
    ensures LeafFrom(p, 0) == Index(p)
  {
  }

  lemma LeafFromStep(p: seq<nat>, i: nat)
    requires p != [] && p[0] >= i && GoodPath(p, |p|)
    ensures p[0] == i ==> LeafFrom(p, i) == Index(p[1..]) < Span(|p| - 1)
    ensures p[0] > i ==> LeafFrom(p, i) == Span(|p| - 1) + LeafFrom(p, i + 1)
  {
    hide Span, Index;
    IndexBound(p[1..]);
    if p[0] > i { MulStep(p[0] - i, Span(|p| - 1)); }
  }

  lemma MulStep(k: nat, s: nat)
    requires k > 0
    ensures k * s == s + (k - 1) * s
  {
  }

  /** Leaves below slots i and up, when each slot spans `s`. */
  function Rest(i: nat, s: nat): nat
    requires i <= FANOUT
  {
    (FANOUT - i) * s
  }

  lemma RestStep(i: nat, s: nat)
    requires i < FANOUT
    ensures Rest(i, s) == s + Rest(i + 1, s)
  {
    MulStep(FANOUT - i, s);
  }

  /** Slots i and up of an indirect block are listed from the end of `out` on. */
  ghost predicate SlotsListed(d: Disk, po: nat, blk: Block, i: nat, depth: nat, need: nat, out: seq<int>, r: seq<int>)
    requires depth >= 1 && i <= FANOUT
  {
    && |r| == (if |out| >= need then |out| else Min(need, |out| + Rest(i, Span(depth - 1))))
    && out <= r
    && forall p :: GoodPath(p, depth) && p[0] >= i && |out| + LeafFrom(p, i) < |r| ==>
         r[|out| + LeafFrom(p, i)] == Abs(po, At(TreeOf(d, Entry(blk, p[0]), depth - 1), p[1..]))
  }

  lemma {:induction false} WalkSlotsLists(d: Disk, po: nat, blk: Block, i: nat, depth: nat, need: nat, out: seq<int>)
    requires depth >= 1 && i <= FANOUT
    ensures SlotsListed(d, po, blk, i, depth, need, out, WalkSlots(d, po, blk, i, depth, need, out))
    decreases depth, 0, FANOUT - i
  {
    hide Entry, Span, LeafFrom, At, TreeOf, WalkIndirect, Index, Abs, SlotsListed, Listed;
    if i < FANOUT && |out| < need {
      var e := Entry(blk, i);
      var out1 := if depth == 1 then out + [Abs(po, e)] else WalkIndirect(d, po, e, depth - 1, need, out);
      OneLists(d, po, e, depth, need, out, out1);
      WalkSlotsLists(d, po, blk, i + 1, depth, need, out1);
      SlotListed(d, po, blk, i, depth, need, out, out1, WalkSlots(d, po, blk, i + 1, depth, need, out1));
    } else {
      NothingListed(d, po, blk, i, depth, need, out);
    }
  }

  lemma NothingListed(d: Disk, po: nat, blk: Block, i: nat, depth: nat, need: nat, out: seq<int>)
    requires depth >= 1 && (i == FANOUT || (i < FANOUT && |out| >= need))
    ensures SlotsListed(d, po, blk, i, depth, need, out, out)
  {
    hide Entry, Span, LeafFrom, At, TreeOf, Index, Abs;
  }

  lemma SlotListed(d: Disk, po: nat, blk: Block, i: nat, depth: nat, need: nat, out: seq<int>, out1: seq<int>,
                   r: seq<int>)
    requires depth >= 1 && i < FANOUT && |out| < need
    requires Listed(po, TreeOf(d, Entry(blk, i), depth - 1), depth - 1, need, out, out1)
    requires SlotsListed(d, po, blk, i + 1, depth, need, out1, r)
    ensures SlotsListed(d, po, blk, i, depth, need, out, r)
  {
    hide Entry, Span, LeafFrom, At, TreeOf, Index, Abs;
    var s := Span(depth - 1);
    hide Rest;
    RestStep(i, s);
    forall p | GoodPath(p, depth) && p[0] >= i && |out| + LeafFrom(p, i) < |r|
      ensures r[|out| + LeafFrom(p, i)] == Abs(po, At(TreeOf(d, Entry(blk, p[0]), depth - 1), p[1..]))
    {
      LeafFromStep(p, i);
      if p[0] == i {
        assert GoodPath(p[1..], depth - 1);
        assert r[|out| + LeafFrom(p, i)] == out1[|out| + LeafFrom(p, i)];
      } else {
        assert |out1| == |out| + s;
      }
    }
  }

  lemma {:induction false} OneLists(d: Disk, po: nat, e: nat, depth: nat, need: nat, out: seq<int>, out1: seq<int>)
    requires depth >= 1 && |out| < need
    requires out1 == if depth == 1 then out + [Abs(po, e)] else WalkIndirect(d, po, e, depth - 1, need, out)
    ensures Listed(po, TreeOf(d, e, depth - 1), depth - 1, need, out, out1)
    decreases depth - 1, 2, 0
  {
    if depth == 1 {
      assert Span(0) == 1;
      forall p | GoodPath(p, 0) ensures Index(p) == 0 && At(TreeOf(d, e, 0), p) == e {}
    } else {
      WalkIndirectLists(d, po, e, depth - 1, need, out);
    }
  }

  lemma {:induction false} DirectLists(po: nat, addrs: Addrs, s: nat, need: nat, out: seq<int>)
    requires s <= NDIRECT && |out| == s <= need
    requires forall i :: 0 <= i < s ==> out[i] == Abs(po, addrs[i])
    ensures var r := DirectBlocks(po, addrs, s, need, out);
      |r| == Min(need, NDIRECT) && forall i :: 0 <= i < |r| ==> r[i] == Abs(po, addrs[i])
    decreases NDIRECT - s
  {
    if s < NDIRECT && |out| < need {
      DirectLists(po, addrs, s + 1, need, out + [Abs(po, addrs[s])]);
    }
  }

  /** The depth-first walk lists exactly the blocks the index classification names:
      entry i is logical block i, for every i within the size and the
      triple-indirect limit. */
  lemma FileBlocksAgree(d: Disk, po: nat, addrs: Addrs, size: nat)
    ensures var r := FileBlocks(d, po, addrs, size);
      && |r| == Min(BlocksFor(size), MAXBLOCKS)
      && forall i: nat :: i < |r| ==> r[i] == Abs(po, FileAt(Forest(d, addrs), i))
  {
    hide WalkIndirect, Span, Abs, At, BlocksFor, Index, ClassifyIndex, DirectBlocks, TreeOf;
    var need := BlocksFor(size);
    var b0 := DirectBlocks(po, addrs, 0, need, []);
    var b1 := WalkIndirect(d, po, addrs[10], 1, need, b0);
    var b2 := WalkIndirect(d, po, addrs[11], 2, need, b1);
    var r := WalkIndirect(d, po, addrs[12], 3, need, b2);
    DirectLists(po, addrs, 0, need, []);
    WalkIndirectLists(d, po, addrs[10], 1, need, b0);
    WalkIndirectLists(d, po, addrs[11], 2, need, b1);
    WalkIndirectLists(d, po, addrs[12], 3, need, b2);
    SpanValues();
    forall i: nat | i < |r|
      ensures r[i] == Abs(po, FileAt(Forest(d, addrs), i))
    {
      Located(d, po, addrs, b0, b1, b2, r, need, i);
    }
  }

  /** Entry i of the final list was appended by the walk of the slot that holds i. */
  lemma Located(d: Disk, po: nat, addrs: Addrs, b0: seq<int>, b1: seq<int>, b2: seq<int>, r: seq<int>, need: nat,
                i: nat)
    requires |b0| == Min(need, NDIRECT) && forall k :: 0 <= k < |b0| ==> b0[k] == Abs(po, addrs[k])
    requires Listed(po, TreeOf(d, addrs[10], 1), 1, need, b0, b1)
    requires Listed(po, TreeOf(d, addrs[11], 2), 2, need, b1, b2)
    requires Listed(po, TreeOf(d, addrs[12], 3), 3, need, b2, r)
    requires i < |r|
    ensures i < MAXBLOCKS && r[i] == Abs(po, FileAt(Forest(d, addrs), i))
  {
    hide Abs, At, Index, ClassifyIndex, TreeOf, Span;
    SpanValues();
    ClassifySound(i);
    var c, f := ClassifyIndex(i), Forest(d, addrs);
    IndexBound(c.coords);
    if c.slot < NDIRECT {
      DirectAt(d, addrs, c.slot);
      ClassifyDirect(i);
    } else if c.slot == 10 {
      assert b1[|b0| + Index(c.coords)] == Abs(po, At(f[10], c.coords));
    } else if c.slot == 11 {
      assert b2[|b1| + Index(c.coords)] == Abs(po, At(f[11], c.coords));
    } else {
      assert r[|b2| + Index(c.coords)] == Abs(po, At(f[12], c.coords));
    }
  }

  lemma ClassifyDirect(i: nat)
    requires i < NDIRECT
    ensures ClassifyIndex(i).slot == i
  {
  }

  lemma DirectAt(d: Disk, addrs: Addrs, i: nat)
    requires i < NDIRECT
    ensures FileAt(Forest(d, addrs), i) == addrs[i]
  {
  }

  // ----- reading ------------------------------------------------------------------

  /** A listed block's content; a hole reads as zeroes (no listed block precedes the partition). */
  function BlockAt(d: Disk, po: nat, b: int): Block {
    if b < po then ZeroBlock() else Read(d, b - po)
  }

  function ReadBlocks(d: Disk, po: nat, blocks: seq<int>, remaining: nat): seq<byte> {
    if blocks == [] || remaining == 0 then [] else
    var take := Min(BLOCK, remaining);
    BlockAt(d, po, blocks[0])[..take] + ReadBlocks(d, po, blocks[1..], remaining - take)
  }

  function ReadFile(d: Disk, po: nat, addrs: Addrs, size: nat): seq<byte> {
    ReadBlocks(d, po, FileBlocks(d, po, addrs, size), size)
  }

  lemma {:induction false} ReadBlocksBytes(d: Disk, po: nat, blocks: seq<int>, remaining: nat)
    ensures var r := ReadBlocks(d, po, blocks, remaining);
      && |r| == Min(remaining, BLOCK * |blocks|)
      && forall k :: 0 <= k < |r| ==> r[k] == BlockAt(d, po, blocks[k / BLOCK])[k % BLOCK]
    decreases |blocks|
  {
    hide BlockAt;
    if blocks != [] && remaining != 0 {
      var take := Min(BLOCK, remaining);
      ReadBlocksBytes(d, po, blocks[1..], remaining - take);
      var head, rest := BlockAt(d, po, blocks[0])[..take], ReadBlocks(d, po, blocks[1..], remaining - take);
      forall k | 0 <= k < take + |rest|
        ensures (head + rest)[k] == BlockAt(d, po, blocks[k / BLOCK])[k % BLOCK]
      {
        if k >= take {
          assert (k - BLOCK) / BLOCK == k / BLOCK - 1 && (k - BLOCK) % BLOCK == k % BLOCK;
          assert blocks[k / BLOCK] == blocks[1..][(k - BLOCK) / BLOCK];
        }
      }
    }
  }

  /** Byte k of a file: byte k % 512 of its logical block k / 512, zero in a hole. */
  function FileByte(d: Disk, f: seq<Tree>, k: nat): byte
    requires |f| == NADDR
  {
    var b := FileAt(f, k / BLOCK);
    if b == 0 then 0 else Read(d, b)[k % BLOCK]
  }

  /** Reading returns exactly the file's bytes, up to its size or the
      triple-indirect limit. */
  lemma ReadFileBytes(d: Disk, po: nat, addrs: Addrs, size: nat)
    ensures var r := ReadFile(d, po, addrs, size);
      && |r| == Min(size, BLOCK * MAXBLOCKS)
      && forall k: nat :: k < |r| ==> r[k] == FileByte(d, Forest(d, addrs), k)
  {
    hide FileBlocks, FileAt;
    FileBlocksAgree(d, po, addrs, size);
    ReadBlocksBytes(d, po, FileBlocks(d, po, addrs, size), size);
  }

  // ----- the checker's walk ----------------------------------------------------------

  datatype Visit = Visit(rel: nat, indirect: bool)
  datatype Walked = Walked(visits: seq<Visit>, got: nat)

  function VisitIndirect(d: Disk, bno: nat, depth: nat, need: nat, got: nat): Walked
    requires depth >= 1
    decreases depth, 1, 0
  {
    if got >= need then Walked([], got)
    else if bno == 0 then Walked([], Min(need, got + Span(depth)))
    else if bno >= |d| then Walked([Visit(bno, true)], Min(need, got + Span(depth)))
    else
      var w := VisitSlots(d, Read(d, bno), 0, depth, need, got);
      Walked([Visit(bno, true)] + w.visits, w.got)
  }

  function VisitSlots(d: Disk, blk: Block, i: nat, depth: nat, need: nat, got: nat): Walked
    requires depth >= 1 && i <= FANOUT
    decreases depth, 0, FANOUT - i
  {
    if i == FANOUT || got >= need then Walked([], got) else
    var v := VisitEntry(d, Entry(blk, i), depth, need, got);
    var w := VisitSlots(d, blk, i + 1, depth, need, v.got);
    Walked(v.visits + w.visits, w.got)
  }

  function VisitEntry(d: Disk, e: nat, depth: nat, need: nat, got: nat): Walked
    requires depth >= 1
    decreases depth - 1, 2, 0
  {
    if depth == 1 then Walked(if e == 0 then [] else [Visit(e, false)], got + 1)
    else VisitIndirect(d, e, depth - 1, need, got)
  }

  function VisitDirect(addrs: Addrs, s: nat, need: nat): Walked
    requires s <= NDIRECT
    decreases NDIRECT - s
  {
    if s == NDIRECT || s >= need then Walked([], s) else
    var w := VisitDirect(addrs, s + 1, need);
    Walked((if addrs[s] == 0 then [] else [Visit(addrs[s], false)]) + w.visits, w.got)
  }

  function WalkInode(d: Disk, addrs: Addrs, size: nat): Walked {
    var need := BlocksFor(size);
    if need == 0 then Walked([], 0) else
    var w0 := VisitDirect(addrs, 0, need);
    var w1 := VisitIndirect(d, addrs[10], 1, need, w0.got);
    var w2 := VisitIndirect(d, addrs[11], 2, need, w1.got);
    var w3 := VisitIndirect(d, addrs[12], 3, need, w2.got);
    Walked(w0.visits + w1.visits + w2.visits + w3.visits, w3.got)
  }

  /** The data blocks among the visits, in order. */
  function DataOf(vs: seq<Visit>): seq<nat> {
    if vs == [] then [] else DataIn(vs[0]) + DataOf(vs[1..])
  }

  function DataIn(v: Visit): seq<nat> {
    if v.indirect then [] else [v.rel]
  }

  /** The blocks of a block list that are no holes, relative to the partition. */
  function NonHoles(po: nat, bs: seq<int>): seq<int> {
    if bs == [] then [] else NonHole(po, bs[0]) + NonHoles(po, bs[1..])
  }

  function NonHole(po: nat, b: int): seq<int> {
    if b == HOLE then [] else [b - po]
  }

  lemma {:induction false} DataOfConcat(a: seq<Visit>, b: seq<Visit>)
    ensures DataOf(a + b) == DataOf(a) + DataOf(b)
  {
    hide DataIn;
    if a == [] {
      assert a + b == b;
    } else {
      DataOfConcat(a[1..], b);
      assert (a + b)[0] == a[0] && (a + b)[1..] == a[1..] + b;
    }
  }

  lemma NonHolesStep(po: nat, bs: seq<int>)
    ensures NonHoles(po, bs) == if bs == [] then [] else NonHole(po, bs[0]) + NonHoles(po, bs[1..])
  {
  }

  lemma {:induction false} NonHolesConcat(po: nat, a: seq<int>, b: seq<int>)
    ensures NonHoles(po, a + b) == NonHoles(po, a) + NonHoles(po, b)
  {
    hide NonHole, NonHoles;
    NonHolesStep(po, a);
    if a == [] {
      assert a + b == b;
    } else {
      NonHolesStep(po, a + b);
      NonHolesConcat(po, a[1..], b);
      assert (a + b)[1..] == a[1..] + b;
      var x, y, z := NonHole(po, a[0]), NonHoles(po, a[1..]), NonHoles(po, b);
      assert x + (y + z) == (x + y) + z;
    }
  }

  lemma {:induction false} NonHolesOfHoles(po: nat, bs: seq<int>)
    requires forall i :: 0 <= i < |bs| ==> bs[i] == HOLE
    ensures NonHoles(po, bs) == []
  {
    if bs != [] { NonHolesOfHoles(po, bs[1..]); }
  }

  /** The two walks step together: the checker's counter is the length of the block
      list, and its data visits are the blocks appended that are no holes. */
  ghost predicate InStep(po: nat, out: seq<int>, r: seq<int>, w: Walked) {
    out <= r && w.got == |r| && DataOf(w.visits) == NonHoles(po, r[|out|..])
  }

  lemma InStepTrans(po: nat, out: seq<int>, r: seq<int>, r': seq<int>, w: Walked, w': Walked)
    requires InStep(po, out, r, w) && InStep(po, r, r', w')
    ensures InStep(po, out, r', Walked(w.visits + w'.visits, w'.got))
  {
    hide DataOf, NonHoles;
    DataOfConcat(w.visits, w'.visits);
    NonHolesConcat(po, r[|out|..], r'[|r|..]);
    assert r'[|out|..] == r[|out|..] + r'[|r|..];
  }

  lemma {:induction false} IndirectInStep(d: Disk, po: nat, bno: nat, depth: nat, need: nat, out: seq<int>)
    requires depth >= 1
    ensures InStep(po, out, WalkIndirect(d, po, bno, depth, need, out), VisitIndirect(d, bno, depth, need, |out|))
    decreases depth, 1, 0
  {
    hide Span;
    var r := WalkIndirect(d, po, bno, depth, need, out);
    var w := VisitIndirect(d, bno, depth, need, |out|);
    if |out| >= need {
      assert r[|out|..] == [];
    } else if bno == 0 || bno >= |d| {
      PastImage(d, po, bno, depth, need, out);
      NonHolesOfHoles(po, r[|out|..]);
      assert DataOf([Visit(bno, true)]) == DataOf([]);
    } else {
      SlotsInStep(d, po, Read(d, bno), 0, depth, need, out);
      var v := VisitSlots(d, Read(d, bno), 0, depth, need, |out|);
      assert w.visits[1..] == v.visits;
    }
  }

  /** A pointer past the end of the image stands for as many holes as a null pointer. */
  lemma PastImage(d: Disk, po: nat, bno: nat, depth: nat, need: nat, out: seq<int>)
    requires depth >= 1 && |out| < need && (bno == 0 || bno >= |d|)
    ensures var r := WalkIndirect(d, po, bno, depth, need, out);
      && out <= r && |r| == Min(need, |out| + Span(depth))
      && forall i :: 0 <= i < |r[|out|..]| ==> r[|out|..][i] == HOLE
  {
    hide Span, WalkSlots;
    if bno != 0 {
      ZeroSlots(d, po, 0, depth, need, out);
      SpanStep(depth);
    }
  }

  lemma {:induction false} ZeroSlots(d: Disk, po: nat, i: nat, depth: nat, need: nat, out: seq<int>)
    requires depth >= 1 && i <= FANOUT && |out| <= need
    ensures var r := WalkSlots(d, po, ZeroBlock(), i, depth, need, out);
      && out <= r && |r| == Min(need, |out| + Rest(i, Span(depth - 1)))
      && forall k :: |out| <= k < |r| ==> r[k] == HOLE
    decreases FANOUT - i
  {
    hide Entry;
    ZeroEntries();
    var s := Span(depth - 1);
    if i < FANOUT && |out| < need {
      hide Rest;
      RestStep(i, s);
      ZeroSlots(d, po, i + 1, depth, need, if depth == 1 then out + [HOLE] else out + Holes(Min(s, need - |out|)));
    }
  }

  lemma OneInStep(po: nat, e: nat, out: seq<int>)
    ensures InStep(po, out, out + [Abs(po, e)], Walked(if e == 0 then [] else [Visit(e, false)], |out| + 1))
  {
    var bs := (out + [Abs(po, e)])[|out|..];
    assert bs == [Abs(po, e)];
    assert NonHoles(po, bs) == NonHole(po, bs[0]) + NonHoles(po, []);
    assert DataOf([Visit(e, false)]) == [e] + DataOf([]);
  }

  lemma {:induction false} SlotsInStep(d: Disk, po: nat, blk: Block, i: nat, depth: nat, need: nat, out: seq<int>)
    requires depth >= 1 && i <= FANOUT
    ensures InStep(po, out, WalkSlots(d, po, blk, i, depth, need, out), VisitSlots(d, blk, i, depth, need, |out|))
    decreases depth, 0, FANOUT - i
  {
    hide Entry, WalkIndirect, VisitIndirect, Abs, DataOf, NonHoles;
    if i < FANOUT && |out| < need {
      var e := Entry(blk, i);
      var out1 := if depth == 1 then out + [Abs(po, e)] else WalkIndirect(d, po, e, depth - 1, need, out);
      if depth == 1 { OneInStep(po, e, out); } else { IndirectInStep(d, po, e, depth - 1, need, out); }
      SlotsInStep(d, po, blk, i + 1, depth, need, out1);
      InStepTrans(po, out, out1, WalkSlots(d, po, blk, i + 1, depth, need, out1),
                  VisitEntry(d, e, depth, need, |out|), VisitSlots(d, blk, i + 1, depth, need, |out1|));
    } else {
      NothingInStep(po, out);
    }
  }

  lemma NothingInStep(po: nat, out: seq<int>)
    ensures InStep(po, out, out, Walked([], |out|))
  {
    assert out[|out|..] == [];
  }

  lemma {:induction false} DirectInStep(po: nat, addrs: Addrs, s: nat, need: nat, out: seq<int>)
    requires s <= NDIRECT && |out| == s
    ensures InStep(po, out, DirectBlocks(po, addrs, s, need, out), VisitDirect(addrs, s, need))
    decreases NDIRECT - s
  {
    var r := DirectBlocks(po, addrs, s, need, out);
    if s < NDIRECT && s < need {
      var out1 := out + [Abs(po, addrs[s])];
      DirectInStep(po, addrs, s + 1, need, out1);
      var v := Walked(if addrs[s] == 0 then [] else [Visit(addrs[s], false)], s + 1);
      OneInStep(po, addrs[s], out);
      InStepTrans(po, out, out1, r, v, VisitDirect(addrs, s + 1, need));
    } else {
      assert r[|out|..] == [];
    }
  }

  /** On any image the checker's walk marks as data exactly the blocks the file
      lists that are no holes, in the same order, and its position counter ends at
      the length of that list. */
  lemma WalksAgree(d: Disk, po: nat, addrs: Addrs, size: nat)
    ensures var bs := FileBlocks(d, po, addrs, size);
            var w := WalkInode(d, addrs, size);
      w.got == |bs| && DataOf(w.visits) == NonHoles(po, bs)
  {
    hide WalkIndirect, VisitIndirect, DirectBlocks, VisitDirect, BlocksFor;
    var need := BlocksFor(size);
    var b0 := DirectBlocks(po, addrs, 0, need, []);
    var b1 := WalkIndirect(d, po, addrs[10], 1, need, b0);
    var b2 := WalkIndirect(d, po, addrs[11], 2, need, b1);
    var b3 := WalkIndirect(d, po, addrs[12], 3, need, b2);
    var w0 := VisitDirect(addrs, 0, need);
    DirectInStep(po, addrs, 0, need, []);
    IndirectInStep(d, po, addrs[10], 1, need, b0);
    IndirectInStep(d, po, addrs[11], 2, need, b1);
    IndirectInStep(d, po, addrs[12], 3, need, b2);
    var w1 := VisitIndirect(d, addrs[10], 1, need, |b0|);
    var w2 := VisitIndirect(d, addrs[11], 2, need, |b1|);
    var w3 := VisitIndirect(d, addrs[12], 3, need, |b2|);
    InStepTrans(po, [], b0, b1, w0, w1);
    InStepTrans(po, [], b1, b2, Walked(w0.visits + w1.visits, w1.got), w2);
    InStepTrans(po, [], b2, b3, Walked(w0.visits + w1.visits + w2.visits, w2.got), w3);
    assert b3[0..] == b3;
    if need == 0 {
      FileBlocksAgree(d, po, addrs, size);
      assert b3 == [];
    }
  }

  // ----- what the walks depend on ------------------------------------------------------

  /** Both walks look only at the indirect blocks the checker visits. */
  ghost predicate SameVisited(d: Disk, e: Disk, vs: seq<Visit>) {
    |e| == |d| && forall v :: v in vs && v.indirect ==> Read(e, v.rel) == Read(d, v.rel)
  }

  lemma {:induction false} IndirectFrame(d: Disk, e: Disk, po: nat, bno: nat, depth: nat, need: nat, out: seq<int>)
    requires depth >= 1 && SameVisited(d, e, VisitIndirect(d, bno, depth, need, |out|).visits)
    ensures WalkIndirect(e, po, bno, depth, need, out) == WalkIndirect(d, po, bno, depth, need, out)
    ensures VisitIndirect(e, bno, depth, need, |out|) == VisitIndirect(d, bno, depth, need, |out|)
    decreases depth, 1, 0
  {
    hide Span;
    if |out| < need && bno != 0 {
      if bno >= |d| {
        SlotsZeroFrame(d, e, po, 0, depth, need, out);
      } else {
        var w := VisitSlots(d, Read(d, bno), 0, depth, need, |out|);
        assert Visit(bno, true) in VisitIndirect(d, bno, depth, need, |out|).visits;
        assert forall v :: v in w.visits ==> v in VisitIndirect(d, bno, depth, need, |out|).visits;
        SlotsFrame(d, e, po, Read(d, bno), 0, depth, need, out);
      }
    }
  }

  lemma {:induction false} SlotsZeroFrame(d: Disk, e: Disk, po: nat, i: nat, depth: nat, need: nat, out: seq<int>)
    requires depth >= 1 && i <= FANOUT
    ensures WalkSlots(e, po, ZeroBlock(), i, depth, need, out) == WalkSlots(d, po, ZeroBlock(), i, depth, need, out)
    decreases FANOUT - i
  {
    hide Entry, Span;
    ZeroEntries();
    if i < FANOUT && |out| < need {
      SlotsZeroFrame(d, e, po, i + 1, depth, need,
                     if depth == 1 then out + [Abs(po, 0)] else WalkIndirect(d, po, 0, depth - 1, need, out));
    }
  }

  lemma {:induction false} SlotsFrame(d: Disk, e: Disk, po: nat, blk: Block, i: nat, depth: nat, need: nat,
                                      out: seq<int>)
    requires depth >= 1 && i <= FANOUT && SameVisited(d, e, VisitSlots(d, blk, i, depth, need, |out|).visits)
    ensures WalkSlots(e, po, blk, i, depth, need, out) == WalkSlots(d, po, blk, i, depth, need, out)
    ensures VisitSlots(e, blk, i, depth, need, |out|) == VisitSlots(d, blk, i, depth, need, |out|)
    decreases depth, 0, FANOUT - i
  {
    hide Entry, WalkIndirect, VisitIndirect, Abs;
    if i < FANOUT && |out| < need {
      var x := Entry(blk, i);
      var v := VisitEntry(d, x, depth, need, |out|);
      var w := VisitSlots(d, blk, i + 1, depth, need, v.got);
      assert VisitSlots(d, blk, i, depth, need, |out|).visits == v.visits + w.visits;
      var out1 := if depth == 1 then out + [Abs(po, x)] else WalkIndirect(d, po, x, depth - 1, need, out);
      if depth > 1 {
        IndirectInStep(d, po, x, depth - 1, need, out);
        IndirectFrame(d, e, po, x, depth - 1, need, out);
      }
      SlotsFrame(d, e, po, blk, i + 1, depth, need, out1);
    }
  }

  lemma {:induction false} InDataOf(vs: seq<Visit>, x: nat)
    requires x in DataOf(vs)
    ensures Visit(x, false) in vs
  {
    if vs[0] != Visit(x, false) { InDataOf(vs[1..], x); }
  }

  lemma {:induction false} InNonHoles(po: nat, bs: seq<int>, i: nat)
    requires i < |bs| && bs[i] != HOLE
    ensures bs[i] - po in NonHoles(po, bs)
    decreases |bs|
  {
    if i > 0 { InNonHoles(po, bs[1..], i - 1); }
  }

  /** If every block the checker visits is unchanged, so are both walks and the
      file's content. */
  lemma VisitedFrame(d: Disk, e: Disk, po: nat, addrs: Addrs, size: nat)
    requires |e| == |d| && forall v :: v in WalkInode(d, addrs, size).visits ==> Read(e, v.rel) == Read(d, v.rel)
    ensures WalkInode(e, addrs, size) == WalkInode(d, addrs, size)
    ensures ReadFile(e, po, addrs, size) == ReadFile(d, po, addrs, size)
  {
    hide WalkIndirect, VisitIndirect, DirectBlocks, VisitDirect, BlocksFor, DataOf, NonHoles;
    var need := BlocksFor(size);
    var bs := FileBlocks(d, po, addrs, size);
    if need == 0 {
      BlocksForZero(size);
    } else {
      var b0 := DirectBlocks(po, addrs, 0, need, []);
      var b1 := WalkIndirect(d, po, addrs[10], 1, need, b0);
      var b2 := WalkIndirect(d, po, addrs[11], 2, need, b1);
      var w0 := VisitDirect(addrs, 0, need);
      DirectInStep(po, addrs, 0, need, []);
      IndirectInStep(d, po, addrs[10], 1, need, b0);
      IndirectInStep(d, po, addrs[11], 2, need, b1);
      var w1 := VisitIndirect(d, addrs[10], 1, need, |b0|);
      var w2 := VisitIndirect(d, addrs[11], 2, need, |b1|);
      var w3 := VisitIndirect(d, addrs[12], 3, need, |b2|);
      assert WalkInode(d, addrs, size).visits == w0.visits + w1.visits + w2.visits + w3.visits;
      IndirectFrame(d, e, po, addrs[10], 1, need, b0);
      IndirectFrame(d, e, po, addrs[11], 2, need, b1);
      IndirectFrame(d, e, po, addrs[12], 3, need, b2);
      WalksAgree(d, po, addrs, size);
      forall i | 0 <= i < |bs|
        ensures BlockAt(e, po, bs[i]) == BlockAt(d, po, bs[i])
      {
        if bs[i] >= po {
          InNonHoles(po, bs, i);
          InDataOf(WalkInode(d, addrs, size).visits, bs[i] - po);
        }
      }
      SameBlocks(d, e, po, bs, size);
    }
  }

  lemma BlocksForZero(size: nat)
    requires BlocksFor(size) == 0
    ensures size == 0
  {
  }

  lemma {:induction false} SameBlocks(d: Disk, e: Disk, po: nat, bs: seq<int>, remaining: nat)
    requires forall i :: 0 <= i < |bs| ==> BlockAt(e, po, bs[i]) == BlockAt(d, po, bs[i])
    ensures ReadBlocks(e, po, bs, remaining) == ReadBlocks(d, po, bs, remaining)
    decreases |bs|
  {
    hide BlockAt;
    if bs != [] && remaining != 0 {
      SameBlocks(d, e, po, bs[1..], remaining - Min(BLOCK, remaining));
    }
  }
}
