/** What the checker's walk visits, position by position: every pointer of the file whose
    first leaf lies within the size, once each, a block before what is below it and
    the rest from left to right. */
module WalkExact {
  import opened Basics
  import opened Bytes
  import opened FreeList
  import opened BlockTree
  import opened FileMap
  import opened Walk
  import opened CutExact

  // ----- the order of a walk ------------------------------------------------------------

  /** `p` comes before `q`: it lies above it, or to the left where they part. */
  ghost predicate Before(p: seq<nat>, q: seq<nat>) {
    q != [] && (p == [] || p[0] < q[0] || (p[0] == q[0] && Before(p[1..], q[1..])))
  }

  ghost predicate Ordered(ps: seq<seq<nat>>) {
    forall i, j :: 0 <= i < j < |ps| ==> Before(ps[i], ps[j])
  }

  lemma {:induction false} NotBeforeItself(p: seq<nat>)
    ensures !Before(p, p)
  {
    if p != [] { NotBeforeItself(p[1..]); }
  }

  /** The positions below slot `i`, from those below its subtree. */
  function Prefix(i: nat, qs: seq<seq<nat>>): (ps: seq<seq<nat>>)
    ensures |ps| == |qs| && forall k :: 0 <= k < |qs| ==> ps[k] == [i] + qs[k] && ps[k] != []
  {
    seq(|qs|, k requires 0 <= k < |qs| => [i] + qs[k])
  }

  lemma PrefixOrdered(i: nat, qs: seq<seq<nat>>)
    requires Ordered(qs)
    ensures Ordered(Prefix(i, qs))
  {
    var ps := Prefix(i, qs);
    forall a, b | 0 <= a < b < |ps|
      ensures Before(ps[a], ps[b])
    {
      assert ps[a][1..] == qs[a] && ps[b][1..] == qs[b];
    }
  }

  /** Two ordered lists, the first all to the left of the second. */
  lemma JoinOrdered(ps: seq<seq<nat>>, qs: seq<seq<nat>>)
    requires Ordered(ps) && Ordered(qs)
    requires forall p, q :: p in ps && q in qs ==> p != [] && q != [] && p[0] < q[0]
    ensures Ordered(ps + qs)
  {
    var rs := ps + qs;
    forall a, b | 0 <= a < b < |rs|
      ensures Before(rs[a], rs[b])
    {
      if a < |ps| <= b { assert rs[a] in ps && rs[b] in qs; }
    }
  }

  // ----- below one pointer ------------------------------------------------------------------

  /** The visits `vs` are those of the positions `ps`: all positions with a pointer and a
      first leaf among the next `room`, in order. */
  ghost predicate Listing(t: Tree, depth: nat, room: int, vs: seq<Visit>, ps: seq<seq<nat>>) {
    && |ps| == |vs| && Ordered(ps)
    && (forall k :: 0 <= k < |ps| ==> VisitOf(t, depth, ps[k], vs[k]) && Start(ps[k], depth) < room)
    && (forall p :: Pos(p, depth) && Ptr(t, p) != 0 && Start(p, depth) < room ==> p in ps)
  }

  /** `v` is the visit of the pointer at position `p`. */
  ghost predicate VisitOf(t: Tree, depth: nat, p: seq<nat>, v: Visit) {
    Pos(p, depth) && Ptr(t, p) == v.rel != 0 && (v.indirect <==> |p| < depth)
  }

  /** The same below slots `i` and up of an indirect block, the room counted from slot `i`. */
  ghost predicate ListingFrom(ts: seq<Tree>, i: nat, depth: nat, room: int, vs: seq<Visit>, ps: seq<seq<nat>>)
    requires |ts| == FANOUT && depth >= 1
  {
    && |ps| == |vs| && Ordered(ps)
    && (forall k :: 0 <= k < |ps| ==> SlotVisit(ts, i, depth, room, ps[k], vs[k]))
    && (forall p :: InSlots(ts, i, depth, room, p) ==> p in ps)
  }

  ghost predicate SlotVisit(ts: seq<Tree>, i: nat, depth: nat, room: int, p: seq<nat>, v: Visit)
    requires |ts| == FANOUT && depth >= 1
  {
    && p != [] && i <= p[0] < FANOUT && VisitOf(ts[p[0]], depth - 1, p[1..], v)
    && SlotStart(i, p, depth) < room
  }

  ghost predicate InSlots(ts: seq<Tree>, i: nat, depth: nat, room: int, p: seq<nat>)
    requires |ts| == FANOUT && depth >= 1
  {
    && p != [] && i <= p[0] < FANOUT && Pos(p[1..], depth - 1) && Ptr(ts[p[0]], p[1..]) != 0
    && SlotStart(i, p, depth) < room
  }

  function SlotStart(i: nat, p: seq<nat>, depth: nat): int
    requires depth >= 1 && p != [] && |p| <= depth
  {
    (p[0] - i) * Span(depth - 1) + Start(p[1..], depth - 1)
  }

  lemma SlotStartStep(i: nat, p: seq<nat>, depth: nat)
    requires depth >= 1 && p != [] && Pos(p[1..], depth - 1) && p[0] >= i
    ensures SlotStart(i, p, depth) >= 0
    ensures p[0] == i ==> SlotStart(i, p, depth) == Start(p[1..], depth - 1)
    ensures p[0] > i ==> SlotStart(i, p, depth) == Span(depth - 1) + SlotStart(i + 1, p, depth)
    ensures p[0] > i ==> SlotStart(i + 1, p, depth) >= 0
  {
    hide Span, Start;
    StartEnd(p[1..], depth - 1);
    var s := Span(depth - 1);
    if p[0] > i {
      MulStep(p[0] - i, s);
      TimesUp(0, p[0] - i - 1, s);
    } else {
      assert (p[0] - i) * s == 0;
    }
  }

  /** The position counter after one entry. */
  lemma GotAfter(d: Disk, x: nat, depth: nat, need: nat, got: nat)
    requires depth >= 1 && got < need
    ensures VisitEntry(d, x, depth, need, got).got == Min(need, got + Span(depth - 1))
  {
    if depth == 1 {
      assert Span(0) == 1;
    } else {
      IndirectInStep(d, 0, x, depth - 1, need, Holes(got));
      WalkIndirectLists(d, 0, x, depth - 1, need, Holes(got));
    }
  }

  lemma {:induction false} IndirectListing(d: Disk, bno: nat, depth: nat, need: nat, got: nat)
    returns (ps: seq<seq<nat>>)
    requires depth >= 1
    ensures Listing(TreeOf(d, bno, depth), depth, need - got, VisitIndirect(d, bno, depth, need, got).visits, ps)
    decreases depth, 1, 0
  {
    hide Span, Start, Entry, Listing, ListingFrom, KidsOf;
    var t := TreeOf(d, bno, depth);
    if got >= need || bno == 0 {
      ps := [];
      NoListing(t, depth, need - got);
    } else if bno >= |d| {
      ps := [[]];
      RootListing(d, bno, depth, need - got);
    } else {
      var qs := SlotsListing(d, Read(d, bno), 0, depth, need, got);
      ps := [[]] + qs;
      NodeListing(d, bno, depth, need - got, VisitSlots(d, Read(d, bno), 0, depth, need, got).visits, qs);
    }
  }

  lemma NoListing(t: Tree, depth: nat, room: int)
    requires room <= 0 || t.Hole?
    ensures Listing(t, depth, room, [], [])
  {
    hide Start, End;
    forall p | Pos(p, depth)
      ensures Start(p, depth) >= 0
    {
      StartEnd(p, depth);
    }
  }

  lemma RootListing(d: Disk, bno: nat, depth: nat, room: int)
    requires depth >= 1 && bno != 0 && bno >= |d| && room > 0
    ensures Listing(TreeOf(d, bno, depth), depth, room, [Visit(bno, true)], [[]])
  {
    var t := TreeOf(d, bno, depth);
    hide Entry;
    ZeroEntries();
    forall p | p != [] ensures Ptr(t, p) == 0 { NodePos(d, bno, depth, p); }
    var ps: seq<seq<nat>> := [[]];
    assert ps[0] == [];
  }

  /** A position below an indirect block is one below the entry of its first slot. */
  lemma NodePos(d: Disk, bno: nat, depth: nat, p: seq<nat>)
    requires depth >= 1 && bno != 0 && p != []
    ensures var ts := KidsOf(d, Read(d, bno), depth - 1);
      && Ptr(TreeOf(d, bno, depth), p) == (if p[0] < FANOUT then Ptr(ts[p[0]], p[1..]) else 0)
      && (Pos(p, depth) <==> p[0] < FANOUT && Pos(p[1..], depth - 1))
      && (Pos(p, depth) ==> Start(p, depth) == SlotStart(0, p, depth))
  {
    hide Span, Entry;
    if p[0] < FANOUT && Pos(p[1..], depth - 1) {
      assert p == [p[0]] + p[1..];
    }
  }

  lemma RootPos(d: Disk, bno: nat, depth: nat)
    requires depth >= 1 && bno != 0
    ensures Ptr(TreeOf(d, bno, depth), []) == bno && Start([], depth) == 0 && Pos([], depth)
  {
  }

  lemma NodeListing(d: Disk, bno: nat, depth: nat, room: int, vs: seq<Visit>, qs: seq<seq<nat>>)
    requires depth >= 1 && bno != 0 && room > 0
    requires ListingFrom(KidsOf(d, Read(d, bno), depth - 1), 0, depth, room, vs, qs)
    ensures Listing(TreeOf(d, bno, depth), depth, room, [Visit(bno, true)] + vs, [[]] + qs)
  {
    hide Span, Entry, KidsOf, TreeOf, Ptr, Start, SlotStart;
    var t, ts := TreeOf(d, bno, depth), KidsOf(d, Read(d, bno), depth - 1);
    var ps, ws := [[]] + qs, [Visit(bno, true)] + vs;
    assert Ordered(ps) by { RootFirst(qs); }
    RootPos(d, bno, depth);
    forall k | 0 <= k < |ps|
      ensures VisitOf(t, depth, ps[k], ws[k]) && Start(ps[k], depth) < room
    {
      if k > 0 {
        assert ps[k] == qs[k - 1] && ws[k] == vs[k - 1];
        assert SlotVisit(ts, 0, depth, room, qs[k - 1], vs[k - 1]);
        NodePos(d, bno, depth, ps[k]);
      }
    }
    forall p | Pos(p, depth) && Ptr(t, p) != 0 && Start(p, depth) < room
      ensures p in ps
    {
      if p == [] {
        assert ps[0] == p;
      } else {
        NodePos(d, bno, depth, p);
        assert InSlots(ts, 0, depth, room, p);
        assert p in qs;
      }
    }
  }

  lemma RootFirst(qs: seq<seq<nat>>)
    requires Ordered(qs) && forall k :: 0 <= k < |qs| ==> qs[k] != []
    ensures Ordered([[]] + qs)
  {
    var ps := [[]] + qs;
    forall a, b | 0 <= a < b < |ps|
      ensures Before(ps[a], ps[b])
    {
      assert ps[b] == qs[b - 1];
      if a > 0 { assert ps[a] == qs[a - 1]; }
    }
  }

  lemma {:induction false} SlotsListing(d: Disk, blk: Block, i: nat, depth: nat, need: nat, got: nat)
    returns (ps: seq<seq<nat>>)
    requires depth >= 1 && i <= FANOUT
    ensures ListingFrom(KidsOf(d, blk, depth - 1), i, depth, need - got,
        VisitSlots(d, blk, i, depth, need, got).visits, ps)
    decreases depth, 0, FANOUT - i
  {
    hide Span, Start, Entry, Listing, ListingFrom, KidsOf, VisitEntry;
    var ts := KidsOf(d, blk, depth - 1);
    if i == FANOUT || got >= need {
      ps := [];
      NoSlots(ts, i, depth, need - got);
    } else {
      var v := VisitEntry(d, Entry(blk, i), depth, need, got);
      var qs := EntryListing(d, Entry(blk, i), depth, need, got);
      var rs := SlotsListing(d, blk, i + 1, depth, need, v.got);
      GotAfter(d, Entry(blk, i), depth, need, got);
      ps := Prefix(i, qs) + rs;
      JoinSlots(ts, i, depth, need - got, need - v.got, v.visits, qs,
          VisitSlots(d, blk, i + 1, depth, need, v.got).visits, rs);
    }
  }

  lemma NoSlots(ts: seq<Tree>, i: nat, depth: nat, room: int)
    requires |ts| == FANOUT && depth >= 1 && (i == FANOUT || room <= 0)
    ensures ListingFrom(ts, i, depth, room, [], [])
  {
    hide SlotStart;
    forall p | InSlots(ts, i, depth, room, p)
      ensures false
    {
      SlotStartStep(i, p, depth);
    }
  }

  lemma {:induction false} EntryListing(d: Disk, e: nat, depth: nat, need: nat, got: nat) returns (ps: seq<seq<nat>>)
    requires depth >= 1 && got < need
    ensures Listing(TreeOf(d, e, depth - 1), depth - 1, need - got, VisitEntry(d, e, depth, need, got).visits, ps)
    decreases depth - 1, 2, 0
  {
    if depth > 1 {
      ps := IndirectListing(d, e, depth - 1, need, got);
    } else if e == 0 {
      ps := [];
    } else {
      ps := [[]];
      LeafListing(e, need - got);
    }
  }

  lemma LeafListing(e: nat, room: int)
    requires e != 0 && room > 0
    ensures Listing(Data(e), 0, room, [Visit(e, false)], [[]])
  {
    forall p | Pos(p, 0)
      ensures p in [[]]
    {
      assert p == [];
    }
  }

  /** The positions below one slot, then those of the slots after it. */
  lemma JoinSlots(ts: seq<Tree>, i: nat, depth: nat, room: int, left: int, vs: seq<Visit>, qs: seq<seq<nat>>,
                  ws: seq<Visit>, rs: seq<seq<nat>>)
    requires |ts| == FANOUT && depth >= 1 && i < FANOUT && room > 0
    requires left == if room <= Span(depth - 1) then 0 else room - Span(depth - 1)
    requires Listing(ts[i], depth - 1, room, vs, qs) && ListingFrom(ts, i + 1, depth, left, ws, rs)
    ensures ListingFrom(ts, i, depth, room, vs + ws, Prefix(i, qs) + rs)
  {
    hide Span, Start, SlotStart, Before;
    var ps := Prefix(i, qs) + rs;
    forall p, q | p in Prefix(i, qs) && q in rs ensures p != [] && q != [] && p[0] < q[0] {}
    PrefixOrdered(i, qs);
    JoinOrdered(Prefix(i, qs), rs);
    forall k | 0 <= k < |ps|
      ensures SlotVisit(ts, i, depth, room, ps[k], (vs + ws)[k])
    {
      if k < |qs| {
        assert ps[k][1..] == qs[k];
        SlotStartStep(i, ps[k], depth);
      } else {
        assert ps[k] == rs[k - |qs|] && SlotVisit(ts, i + 1, depth, left, rs[k - |qs|], ws[k - |qs|]);
        SlotStartStep(i, ps[k], depth);
      }
    }
    forall p | InSlots(ts, i, depth, room, p)
      ensures p in ps
    {
      SlotStartStep(i, p, depth);
      if p[0] == i {
        var k :| 0 <= k < |qs| && qs[k] == p[1..];
        assert ps[k] == [i] + p[1..] == p;
      } else {
        assert InSlots(ts, i + 1, depth, left, p);
      }
    }
  }

  /** On any image, past-image pointers included, the checker marks as indirect
      exactly the indirect blocks whose first leaf lies within the size bound. */
  lemma VisitsReachedNodes(d: Disk, bno: nat, depth: nat, need: nat, got: nat, b: nat)
    requires depth >= 1
    ensures Visit(b, true) in VisitIndirect(d, bno, depth, need, got).visits
       <==> b != 0 && exists q :: Inner(q, depth) && got + Start(q, depth) < need && Ptr(TreeOf(d, bno, depth), q) == b
  {
    hide Start, VisitIndirect, Ptr, Before;
    var ps := IndirectListing(d, bno, depth, need, got);
    var vs := VisitIndirect(d, bno, depth, need, got).visits;
    if Visit(b, true) in vs {
      var k :| 0 <= k < |vs| && vs[k] == Visit(b, true);
      assert VisitOf(TreeOf(d, bno, depth), depth, ps[k], vs[k]);
    }
    if q :| b != 0 && Inner(q, depth) && got + Start(q, depth) < need && Ptr(TreeOf(d, bno, depth), q) == b {
      InnerPos(q, depth);
      var k :| 0 <= k < |ps| && ps[k] == q;
      assert VisitOf(TreeOf(d, bno, depth), depth, ps[k], vs[k]);
      assert vs[k] == Visit(b, true);
    }
  }

  // ----- a whole inode ------------------------------------------------------------------------

  /** The visits `vs` are those of the positions `ps` of a file, each a slot of the inode and
      a position below it: all with a pointer and a first logical block below `need`. */
  ghost predicate FileListing(f: seq<Tree>, need: nat, vs: seq<Visit>, ps: seq<seq<nat>>)
    requires |f| == NADDR
  {
    SlotRange(f, 0, NADDR, need, vs, ps)
  }

  /** The same for the slots from `lo` up to `hi`. */
  ghost predicate SlotRange(f: seq<Tree>, lo: nat, hi: nat, need: nat, vs: seq<Visit>, ps: seq<seq<nat>>)
    requires |f| == NADDR && lo <= hi <= NADDR
  {
    && |ps| == |vs| && Ordered(ps)
    && (forall k :: 0 <= k < |ps| ==> FileVisit(f, lo, hi, need, ps[k], vs[k]))
    && (forall s: nat, p {:trigger Ptr(f[s], p)} ::
          lo <= s < hi && Pos(p, DepthOf(s)) && Ptr(f[s], p) != 0 && Offset(s) + Start(p, DepthOf(s)) < need ==>
            [s] + p in ps)
  }

  ghost predicate FileVisit(f: seq<Tree>, lo: nat, hi: nat, need: nat, p: seq<nat>, v: Visit)
    requires |f| == NADDR && lo <= hi <= NADDR
  {
    && p != [] && lo <= p[0] < hi && VisitOf(f[p[0]], DepthOf(p[0]), p[1..], v)
    && Offset(p[0]) + Start(p[1..], DepthOf(p[0])) < need
  }

  lemma JoinRanges(f: seq<Tree>, lo: nat, mid: nat, hi: nat, need: nat, vs: seq<Visit>, ps: seq<seq<nat>>,
                   ws: seq<Visit>, qs: seq<seq<nat>>)
    requires |f| == NADDR && lo <= mid <= hi <= NADDR
    requires SlotRange(f, lo, mid, need, vs, ps) && SlotRange(f, mid, hi, need, ws, qs)
    ensures SlotRange(f, lo, hi, need, vs + ws, ps + qs)
  {
    hide Start, Before, VisitOf, Ptr;
    JoinOrdered(ps, qs);
    forall k | 0 <= k < |ps + qs|
      ensures FileVisit(f, lo, hi, need, (ps + qs)[k], (vs + ws)[k])
    {
      if k < |ps| { assert FileVisit(f, lo, mid, need, ps[k], vs[k]); }
      else { assert FileVisit(f, mid, hi, need, qs[k - |ps|], ws[k - |ps|]); }
    }
  }

  /** The walk below one slot, given how many blocks of the file come before it. */
  lemma OneSlot(f: seq<Tree>, s: nat, need: nat, vs: seq<Visit>, qs: seq<seq<nat>>)
    requires |f| == NADDR && s < NADDR
    requires Listing(f[s], DepthOf(s), need - Min(need, Offset(s)), vs, qs)
    ensures SlotRange(f, s, s + 1, need, vs, Prefix(s, qs))
  {
    hide Start, Before, Ptr, Offset;
    var ps := Prefix(s, qs);
    PrefixOrdered(s, qs);
    forall k | 0 <= k < |ps|
      ensures FileVisit(f, s, s + 1, need, ps[k], vs[k])
    {
      assert ps[k][1..] == qs[k];
    }
    forall p | Pos(p, DepthOf(s)) && Ptr(f[s], p) != 0 && Offset(s) + Start(p, DepthOf(s)) < need
      ensures [s] + p in ps
    {
      StartEnd(p, DepthOf(s));
      var k :| 0 <= k < |qs| && qs[k] == p;
      assert ps[k] == [s] + p;
    }
  }

  lemma NoRange(f: seq<Tree>, s: nat, need: nat)
    requires |f| == NADDR && s <= NDIRECT && (s == NDIRECT || s >= need)
    ensures SlotRange(f, s, NDIRECT, need, [], [])
  {
    hide Start;
    forall t: nat, p | s <= t < NDIRECT && Pos(p, DepthOf(t)) ensures Start(p,
        DepthOf(t)) >= 0 { StartEnd(p, DepthOf(t)); }
  }

  lemma {:induction false} DirectListing(f: seq<Tree>, addrs: Addrs, s: nat, need: nat) returns (ps: seq<seq<nat>>)
    requires |f| == NADDR && s <= NDIRECT
    requires forall j :: 0 <= j < NDIRECT ==> f[j] == if addrs[j] == 0 then Hole else Data(addrs[j])
    ensures SlotRange(f, s, NDIRECT, need, VisitDirect(addrs, s, need).visits, ps)
    decreases NDIRECT - s
  {
    hide SlotRange, Listing;
    if s == NDIRECT || s >= need {
      ps := [];
      NoRange(f, s, need);
    } else {
      var qs := DirectListing(f, addrs, s + 1, need);
      var b := addrs[s];
      var rs: seq<seq<nat>> := if b == 0 then [] else [[]];
      if b == 0 { NoListing(f[s], 0, need - s); } else { LeafListing(b, need - s); }
      var vs := if b == 0 then [] else [Visit(b, false)];
      OneSlot(f, s, need, vs, rs);
      JoinRanges(f, s, s + 1, NDIRECT, need, vs, Prefix(s, rs), VisitDirect(addrs, s + 1, need).visits, qs);
      ps := Prefix(s, rs) + qs;
    }
  }

  lemma {:induction false} DirectGot(addrs: Addrs, s: nat, need: nat)
    requires s <= NDIRECT && s <= need
    ensures VisitDirect(addrs, s, need).got == Min(need, NDIRECT)
    decreases NDIRECT - s
  {
    if s < NDIRECT && s < need { DirectGot(addrs, s + 1, need); }
  }

  lemma IndirectGot(d: Disk, bno: nat, depth: nat, need: nat, got: nat)
    requires depth >= 1 && got <= need
    ensures VisitIndirect(d, bno, depth, need, got).got == Min(need, got + Span(depth))
  {
    if got < need { GotAfter(d, bno, depth + 1, need, got); }
  }

  /** On any image the walk of an inode visits exactly the pointers, at every depth, whose
      first logical block lies within the size: each position once, in depth-first order. */
  lemma WalkListing(d: Disk, addrs: Addrs, size: nat) returns (ps: seq<seq<nat>>)
    ensures FileListing(Forest(d, addrs), BlocksFor(size), WalkInode(d, addrs, size).visits, ps)
  {
    hide VisitIndirect, VisitDirect, BlocksFor, SlotRange, Listing, Span;
    var f, need := Forest(d, addrs), BlocksFor(size);
    if need == 0 {
      ps := [];
      EmptyWalk(f);
    } else {
      SpanValues();
      var w0 := VisitDirect(addrs, 0, need);
      var w1 := VisitIndirect(d, addrs[10], 1, need, w0.got);
      var w2 := VisitIndirect(d, addrs[11], 2, need, w1.got);
      var w3 := VisitIndirect(d, addrs[12], 3, need, w2.got);
      DirectGot(addrs, 0, need);
      IndirectGot(d, addrs[10], 1, need, w0.got);
      IndirectGot(d, addrs[11], 2, need, w1.got);
      var p0 := DirectListing(f, addrs, 0, need);
      var p1 := IndirectListing(d, addrs[10], 1, need, w0.got);
      var p2 := IndirectListing(d, addrs[11], 2, need, w1.got);
      var p3 := IndirectListing(d, addrs[12], 3, need, w2.got);
      OneSlot(f, 10, need, w1.visits, p1);
      OneSlot(f, 11, need, w2.visits, p2);
      OneSlot(f, 12, need, w3.visits, p3);
      JoinRanges(f, 0, 10, 11, need, w0.visits, p0, w1.visits, Prefix(10, p1));
      JoinRanges(f, 0, 11, 12, need, w0.visits + w1.visits, p0 + Prefix(10, p1), w2.visits, Prefix(11, p2));
      JoinRanges(f, 0, 12, 13, need, w0.visits + w1.visits + w2.visits, p0 + Prefix(10, p1) + Prefix(11, p2),
                 w3.visits, Prefix(12, p3));
      ps := p0 + Prefix(10, p1) + Prefix(11, p2) + Prefix(12, p3);
    }
  }

  lemma EmptyWalk(f: seq<Tree>)
    requires |f| == NADDR
    ensures FileListing(f, 0, [], [])
  {
    hide Start;
    forall t: nat, p | t < NADDR && Pos(p, DepthOf(t)) ensures Start(p, DepthOf(t)) >= 0 { StartEnd(p, DepthOf(t)); }
  }

  // ----- a file without shared blocks --------------------------------------------------------

  /** No block of a file without repeated blocks is visited twice, whatever its size says. */
  lemma WalkOnce(d: Disk, addrs: Addrs, size: nat)
    requires NoDup(MsAll(Forest(d, addrs)))
    ensures var vs := WalkInode(d, addrs, size).visits;
      && (forall i, j :: 0 <= i < j < |vs| ==> vs[i].rel != vs[j].rel)
      && (forall v :: v in vs ==> v.rel in MsAll(Forest(d, addrs)))
  {
    hide WalkInode, BlocksFor, Before, Ptr, Start, MsAll, NoDup, Forest;
    var f, vs := Forest(d, addrs), WalkInode(d, addrs, size).visits;
    var ps := WalkListing(d, addrs, size);
    forall k | 0 <= k < |vs|
      ensures vs[k].rel in MsAll(f)
    {
      assert FileVisit(f, 0, NADDR, BlocksFor(size), ps[k], vs[k]);
      InFile(f, ps[k][0], ps[k][1..]);
    }
    forall i, j | 0 <= i < j < |vs|
      ensures vs[i].rel != vs[j].rel
    {
      assert FileVisit(f, 0, NADDR, BlocksFor(size), ps[i], vs[i]);
      assert FileVisit(f, 0, NADDR, BlocksFor(size), ps[j], vs[j]);
      FilePtrsDiffer(f, ps[i][0], ps[i][1..], ps[j][0], ps[j][1..]);
      NotBeforeItself(ps[i]);
      assert ps[i] == [ps[i][0]] + ps[i][1..] && ps[j] == [ps[j][0]] + ps[j][1..];
    }
  }
}
