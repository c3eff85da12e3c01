/** The block tree hanging off one inode slot, read off the disk as a value. */
module BlockTree {
  import opened Bytes
  import opened FreeList

  /** What a block pointer leads to: nothing, a data block, or an indirect block. */
  datatype Tree = Hole | Data(b: nat) | Indir(b: nat, kids: seq<Tree>)

  function TreeOf(d: Disk, b: nat, depth: nat): Tree
    decreases depth, 0
  {
    if b == 0 then Hole
    else if depth == 0 then Data(b)
    else Indir(b, KidsOf(d, Read(d, b), depth - 1))
  }

  /** The subtrees an indirect block's content points at. */
  function KidsOf(d: Disk, blk: Block, depth: nat): (r: seq<Tree>)
    ensures |r| == FANOUT
    ensures forall i :: 0 <= i < FANOUT ==> r[i] == TreeOf(d, Entry(blk, i), depth)
    decreases depth, 1
  {
    seq(FANOUT, i requires 0 <= i < FANOUT => TreeOf(d, Entry(blk, i), depth))
  }

  // ----- positions ----------------------------------------------------------

  /** Leaves below an indirect block of the given depth. */
  function Span(depth: nat): (r: nat)
    ensures r > 0
  {
    if depth == 0 then 1 else FANOUT * Span(depth - 1)
  }

  ghost predicate GoodPath(p: seq<nat>, depth: nat) {
    |p| == depth && forall i :: 0 <= i < |p| ==> p[i] < FANOUT
  }

  /** Position of a leaf in depth-first order. */
  function Index(p: seq<nat>): nat {
    if p == [] then 0 else p[0] * Span(|p| - 1) + Index(p[1..])
  }

  /** The data block at a path, 0 when the path meets a hole. */
  function At(t: Tree, p: seq<nat>): nat {
    match t
    case Hole => 0
    case Data(b) => b
    case Indir(b, kids) => if p == [] || p[0] >= |kids| then 0 else At(kids[p[0]], p[1..])
  }

  /** The pointer at any position, of an indirect or a data block; 0 if there is none. */
  function Ptr(t: Tree, p: seq<nat>): nat {
    match t
    case Hole => 0
    case Data(b) => if p == [] then b else 0
    case Indir(b, kids) => if p == [] then b else if p[0] < |kids| then Ptr(kids[p[0]], p[1..]) else 0
  }

  /** A position in a tree of the given depth: the root, an inner one or a leaf. */
  ghost predicate Pos(p: seq<nat>, depth: nat) {
    |p| <= depth && forall i :: 0 <= i < |p| ==> p[i] < FANOUT
  }

  /** A position above the leaves. */
  ghost predicate Inner(q: seq<nat>, depth: nat) {
    |q| < depth && forall i :: 0 <= i < |q| ==> q[i] < FANOUT
  }

  /** The first leaf below a position, and the one after the last. */
  function Start(p: seq<nat>, depth: nat): nat
    requires |p| <= depth
  {
    if p == [] then 0 else p[0] * Span(depth - 1) + Start(p[1..], depth - 1)
  }

  function End(p: seq<nat>, depth: nat): nat
    requires |p| <= depth
  {
    Start(p, depth) + Span(depth - |p|)
  }

  lemma SlotBound(k: nat, span: nat, r: nat)
    requires k < FANOUT && r < span
    ensures k * span + r < FANOUT * span
  {
    assert (k + 1) * span <= FANOUT * span;
  }

  lemma {:induction false} IndexBound(p: seq<nat>)
    requires GoodPath(p, |p|)
    ensures Index(p) < Span(|p|)
  {
    if p != [] {
      IndexBound(p[1..]);
      SlotBound(p[0], Span(|p| - 1), Index(p[1..]));
    }
  }

  // ----- the blocks of a tree -------------------------------------------------

  ghost function Ms(t: Tree): multiset<nat>
    decreases t, 0
  {
    match t
    case Hole => multiset{}
    case Data(b) => multiset{b}
    case Indir(b, kids) => multiset{b} + MsAll(kids)
  }

  ghost function MsAll(ts: seq<Tree>): multiset<nat>
    decreases ts, 0
  {
    if ts == [] then multiset{} else Ms(ts[0]) + MsAll(ts[1..])
  }

  /** The indirect blocks only. */
  ghost function Nodes(t: Tree): set<nat>
    decreases t, 0
  {
    match t
    case Hole => {}
    case Data(b) => {}
    case Indir(b, kids) => {b} + NodesAll(kids)
  }

  ghost function NodesAll(ts: seq<Tree>): set<nat>
    decreases ts, 0
  {
    if ts == [] then {} else Nodes(ts[0]) + NodesAll(ts[1..])
  }

  ghost predicate NoDup(m: multiset<nat>) {
    forall x :: m[x] <= 1
  }

  ghost predicate Between(m: multiset<nat>, lo: nat, hi: nat) {
    forall x :: x in m ==> lo <= x < hi
  }

  ghost predicate HolesBefore(ts: seq<Tree>, n: nat) {
    forall i :: 0 <= i < n && i < |ts| ==> ts[i].Hole?
  }

  ghost predicate AllHoles(ts: seq<Tree>) {
    HolesBefore(ts, |ts|)
  }

  lemma SubNoDup(m: multiset<nat>, n: multiset<nat>)
    requires m <= n && NoDup(n)
    ensures NoDup(m)
  {
    forall x ensures m[x] <= 1 { assert m[x] <= n[x]; }
  }

  /** Two parts of a duplicate-free whole share nothing. */
  lemma Apart(m: multiset<nat>, n: multiset<nat>, x: nat)
    requires NoDup(m + n) && x in m
    ensures x !in n
  {
    assert (m + n)[x] == m[x] + n[x];
  }

  lemma Exchange(n: multiset<nat>, a: multiset<nat>, a': multiset<nat>, k: multiset<nat>, k': multiset<nat>,
                 f: multiset<nat>, f': multiset<nat>)
    requires a' + k == a + k' && k' + f' == k + f
    ensures n + a' + f' == n + a + f
  {
    forall x
      ensures (n + a' + f')[x] == (n + a + f)[x]
    {
      assert (a' + k)[x] == (a + k')[x];
      assert (k' + f')[x] == (k + f)[x];
    }
  }

  lemma {:induction false} MsSplit(ts: seq<Tree>, i: nat)
    requires i < |ts|
    ensures MsAll(ts) == MsAll(ts[i := Hole]) + Ms(ts[i])
    ensures Ms(ts[i]) <= MsAll(ts)
    decreases |ts|
  {
    var us := ts[i := Hole];
    if i == 0 {
      assert us[1..] == ts[1..];
    } else {
      MsSplit(ts[1..], i - 1);
      assert us[1..] == ts[1..][i - 1 := Hole];
    }
  }

  /** Exchanging one subtree exchanges its blocks. */
  lemma MsUpdate(ts: seq<Tree>, i: nat, t: Tree)
    requires i < |ts|
    ensures MsAll(ts[i := t]) + Ms(ts[i]) == MsAll(ts) + Ms(t)
  {
    hide MsAll, Ms;
    MsSplit(ts, i);
    MsSplit(ts[i := t], i);
    assert ts[i := t][i := Hole] == ts[i := Hole];
  }

  lemma MsApart(ts: seq<Tree>, i: nat, j: nat)
    requires i < |ts| && j < |ts| && i != j
    ensures Ms(ts[i]) + Ms(ts[j]) <= MsAll(ts)
  {
    hide MsAll;
    MsSplit(ts, i);
    MsSplit(ts[i := Hole], j);
  }

  lemma {:induction false} NodesKid(ts: seq<Tree>, i: nat)
    requires i < |ts|
    ensures Nodes(ts[i]) <= NodesAll(ts)
    decreases |ts|
  {
    if i > 0 { NodesKid(ts[1..], i - 1); }
  }

  lemma {:induction false} NodesFrom(ts: seq<Tree>, x: nat) returns (i: nat)
    requires x in NodesAll(ts)
    ensures i < |ts| && x in Nodes(ts[i])
    decreases |ts|
  {
    if x in Nodes(ts[0]) { return 0; }
    i := NodesFrom(ts[1..], x);
    i := i + 1;
  }

  lemma NodesUpdate(ts: seq<Tree>, i: nat, t: Tree)
    requires i < |ts|
    ensures NodesAll(ts[i := t]) <= NodesAll(ts) + Nodes(t) && Nodes(ts[i]) <= NodesAll(ts)
  {
    hide Nodes, NodesAll;
    NodesKid(ts, i);
    forall x | x in NodesAll(ts[i := t])
      ensures x in NodesAll(ts) + Nodes(t)
    {
      var j := NodesFrom(ts[i := t], x);
      NodesKid(ts, j);
    }
  }

  lemma NodesLack(ts: seq<Tree>, x: nat)
    requires forall i :: 0 <= i < |ts| ==> x !in Nodes(ts[i])
    ensures x !in NodesAll(ts)
  {
    hide Nodes, NodesAll;
    if x in NodesAll(ts) { var i := NodesFrom(ts, x); }
  }

  lemma {:induction false} NodesInMs(t: Tree, x: nat)
    requires x in Nodes(t)
    ensures x in Ms(t)
    decreases t
  {
    if t.Indir? && x != t.b {
      var i := NodesFrom(t.kids, x);
      NodesInMs(t.kids[i], x);
      MsSplit(t.kids, i);
    }
  }

  lemma NotBelow(ts: seq<Tree>, i: nat, x: nat)
    requires i < |ts| && x !in MsAll(ts)
    ensures x !in Ms(ts[i]) && x !in Nodes(ts[i])
  {
    hide MsAll, Ms, Nodes;
    MsSplit(ts, i);
    if x in Nodes(ts[i]) { NodesInMs(ts[i], x); }
  }

  /** Duplicate-free siblings share no block. */
  lemma KidsApart(ts: seq<Tree>, i: nat, j: nat, x: nat)
    requires i < |ts| && j < |ts| && i != j && NoDup(MsAll(ts)) && x in Ms(ts[i])
    ensures x !in Ms(ts[j]) && x !in Nodes(ts[j])
  {
    hide MsAll, Ms, Nodes;
    MsApart(ts, i, j);
    SubNoDup(Ms(ts[i]) + Ms(ts[j]), MsAll(ts));
    Apart(Ms(ts[i]), Ms(ts[j]), x);
    if x in Nodes(ts[j]) { NodesInMs(ts[j], x); }
  }

  lemma {:induction false} HolesMs(ts: seq<Tree>)
    requires AllHoles(ts)
    ensures MsAll(ts) == multiset{} && NodesAll(ts) == {}
    decreases |ts|
  {
    if ts != [] { HolesMs(ts[1..]); }
  }

  lemma {:induction false} AtInMs(t: Tree, p: seq<nat>)
    requires At(t, p) != 0
    ensures At(t, p) in Ms(t)
    decreases t
  {
    if t.Indir? {
      AtInMs(t.kids[p[0]], p[1..]);
      MsSplit(t.kids, p[0]);
    }
  }

  /** In a tree without repeated blocks a data block is no indirect block. */
  lemma {:induction false} LeafIsNoNode(t: Tree, p: seq<nat>)
    requires At(t, p) != 0 && NoDup(Ms(t))
    ensures At(t, p) !in Nodes(t)
    decreases t
  {
    hide MsAll, NodesAll, NoDup;
    if t.Indir? {
      var k, x := p[0], At(t, p);
      MsSplit(t.kids, k);
      SubNoDup(MsAll(t.kids), Ms(t));
      SubNoDup(Ms(t.kids[k]), MsAll(t.kids));
      AtInMs(t.kids[k], p[1..]);
      LeafIsNoNode(t.kids[k], p[1..]);
      Apart(multiset{t.b}, MsAll(t.kids), t.b);
      forall i | 0 <= i < |t.kids|
        ensures x !in Nodes(t.kids[i])
      {
        if i != k { KidsApart(t.kids, k, i, x); }
      }
      NodesLack(t.kids, x);
    }
  }

  /** ... and different positions hold different data blocks. */
  lemma {:induction false} LeavesDiffer(t: Tree, depth: nat, p: seq<nat>, q: seq<nat>)
    requires GoodPath(p, depth) && GoodPath(q, depth) && p != q
    requires At(t, p) != 0 && At(t, q) != 0 && NoDup(Ms(t))
    requires Shape(t, depth)
    ensures At(t, p) != At(t, q)
    decreases t
  {
    if t.Indir? {
      var i, j, m := p[0], q[0], MsAll(t.kids);
      assert p == [i] + p[1..] && q == [j] + q[1..];
      MsSplit(t.kids, i);
      SubNoDup(m, Ms(t));
      SubNoDup(Ms(t.kids[i]), m);
      if i != j {
        AtInMs(t.kids[i], p[1..]);
        AtInMs(t.kids[j], q[1..]);
        KidsApart(t.kids, i, j, At(t, p));
      } else {
        LeavesDiffer(t.kids[i], depth - 1, p[1..], q[1..]);
      }
    }
  }

  /** Data blocks sit exactly at depth 0, below full-width indirect blocks. */
  ghost predicate Shape(t: Tree, depth: nat) {
    match t
    case Hole => true
    case Data(b) => depth == 0 && b != 0
    case Indir(b, kids) => depth > 0 && b != 0 && |kids| == FANOUT && forall i :: 0 <= i < FANOUT ==>
        Shape(kids[i], depth - 1)
  }

  lemma {:induction false} TreeShape(d: Disk, b: nat, depth: nat)
    ensures Shape(TreeOf(d, b, depth), depth)
    ensures TreeOf(d, b, depth).Hole? <==> b == 0
    ensures b != 0 ==> b in Ms(TreeOf(d, b, depth)) && (depth > 0 ==> b in Nodes(TreeOf(d, b, depth)))
    decreases depth
  {
    hide Entry, Read;
    if b != 0 && depth > 0 {
      forall i | 0 <= i < FANOUT
        ensures Shape(TreeOf(d, Entry(Read(d, b), i), depth - 1), depth - 1)
      {
        TreeShape(d, Entry(Read(d, b), i), depth - 1);
      }
    }
  }

  // ----- framing ----------------------------------------------------------------

  /** A tree depends only on its indirect blocks. */
  lemma {:induction false} TreeFrame(d: Disk, e: Disk, b: nat, depth: nat)
    requires forall x :: x in Nodes(TreeOf(d, b, depth)) ==> Read(e, x) == Read(d, x)
    ensures TreeOf(e, b, depth) == TreeOf(d, b, depth)
    decreases depth, 0
  {
    if b != 0 && depth > 0 {
      TreeShape(d, b, depth);
      KidsFrame(d, e, Read(d, b), depth - 1);
    }
  }

  lemma {:induction false} KidsFrame(d: Disk, e: Disk, blk: Block, depth: nat)
    requires forall x :: x in NodesAll(KidsOf(d, blk, depth)) ==> Read(e, x) == Read(d, x)
    ensures KidsOf(e, blk, depth) == KidsOf(d, blk, depth)
    decreases depth, 1
  {
    var ks := KidsOf(d, blk, depth);
    forall i | 0 <= i < FANOUT
      ensures KidsOf(e, blk, depth)[i] == ks[i]
    {
      NodesKid(ks, i);
      TreeFrame(d, e, Entry(blk, i), depth);
    }
  }

  /** When an operation changes only the subtree below one entry, and perhaps that
      entry, the list of subtrees changes only there. */
  lemma KidReplaced(d: Disk, e: Disk, blk: Block, blk': Block, depth: nat, k: nat)
    requires k < FANOUT
    requires forall j: nat :: j < FANOUT && j != k ==> Entry(blk', j) == Entry(blk, j)
    requires forall j: nat, x :: j < FANOUT && j != k && x in Nodes(KidsOf(d, blk, depth)[j]) ==>
        Read(e, x) == Read(d, x)
    ensures KidsOf(e, blk', depth) == KidsOf(d, blk, depth)[k := TreeOf(e, Entry(blk', k), depth)]
  {
    hide Entry;
    var ks := KidsOf(d, blk, depth);
    forall j: nat | j < FANOUT && j != k
      ensures KidsOf(e, blk', depth)[j] == ks[j]
    {
      TreeFrame(d, e, Entry(blk, j), depth);
    }
  }
}
