/** The free-block list: a 64-entry cache in the superblock whose entry 0 names
    a chain block holding the next 64 entries, and so on down.

    Block numbers are relative to the partition: a `Disk` is the partition's
    view of the image, from its first block to the end of the image. */
module FreeList {
  import opened Bytes

  type Disk = seq<Block>

  const SUPER := 1
  const NICFREE := 64

  const SB_ISIZE := 0
  const SB_FSIZE := 2
  const SB_NFREE := 6
  const SB_FREE := 8
  const SB_NINODE := 264
  const SB_FLOCK := 466
  const SB_ILOCK := 467
  const SB_FMOD := 468
  const SB_TIME := 470
  const SB_TFREE := 474
  const SB_TINODE := 478

  const FBLK_NFREE := 0
  const FBLK_FREE := 2

  /** Reading past the end of the image yields zeroes. */
  function Read(d: Disk, b: nat): Block {
    if b < |d| then d[b] else ZeroBlock()
  }

  /** A write past the end of the image is refused; callers that care test the range first. */
  function Write(d: Disk, b: nat, blk: Block): (r: Disk)
    ensures |r| == |d|
  {
    if b < |d| then d[b := blk] else d
  }

  // ----- field access -----------------------------------------------------

  function Isize(sb: Block): nat { Get16(sb, SB_ISIZE) }
  function Fsize(sb: Block): nat { Get32(sb, SB_FSIZE) }
  function Nfree(sb: Block): int { S16(Get16(sb, SB_NFREE)) }
  function Tfree(sb: Block): nat { Get32(sb, SB_TFREE) }
  function ChainNfree(fblk: Block): int { S16(Get16(fblk, FBLK_NFREE)) }

  /** The 64 consecutive 32-bit entries that start at `off`. */
  function Words(b: Block, off: nat): (r: seq<nat>)
    requires off + 4 * NICFREE <= BLOCK
    ensures |r| == NICFREE
    ensures forall i :: 0 <= i < NICFREE ==> r[i] == Get32(b, off + 4 * i)
  {
    seq(NICFREE, i requires 0 <= i < NICFREE => Get32(b, off + 4 * i))
  }

  lemma WordsSame(a: Block, b: Block)
    requires forall k :: SB_FREE <= k < SB_FREE + 4 * NICFREE ==> a[k] == b[k]
    ensures Words(a, SB_FREE) == Words(b, SB_FREE)
  {
    forall i | 0 <= i < NICFREE
      ensures Words(a, SB_FREE)[i] == Words(b, SB_FREE)[i]
    {
      Get32Same(a, b, SB_FREE + 4 * i);
    }
  }

  /** The superblock fields the block allocator uses. */
  datatype SbView = SbView(isize: nat, fsize: nat, nfree: int, free: seq<nat>, tfree: nat)

  function View(sb: Block): SbView {
    SbView(Isize(sb), Fsize(sb), Nfree(sb), Words(sb, SB_FREE), Tfree(sb))
  }

  /** The modified flag and time stamp every superblock update sets. */
  function Touch(sb: Block, now: nat): (r: Block)
    ensures View(r) == View(sb)
  {
    var r := Set32(sb[SB_FMOD := 1], SB_TIME, now);
    WordsSame(r, sb);
    r
  }

  function SetNfree(sb: Block, n: nat): (r: Block)
    requires n < 0x8000
    ensures View(r) == View(sb).(nfree := n)
  {
    var r := Set16(sb, SB_NFREE, n);
    WordsSame(r, sb);
    r
  }

  function SetTfree(sb: Block, n: nat): (r: Block)
    ensures View(r) == View(sb).(tfree := n % 0x1_0000_0000)
  {
    var r := Set32(sb, SB_TFREE, n);
    WordsSame(r, sb);
    r
  }

  function SetFree(sb: Block, i: nat, b: nat): (r: Block)
    requires i < NICFREE && b < 0x1_0000_0000
    ensures View(r) == View(sb).(free := Words(sb, SB_FREE)[i := b])
  {
    var r := Set32(sb, SB_FREE + 4 * i, b);
    assert Words(r, SB_FREE) == Words(sb, SB_FREE)[i := b];
    r
  }

  /** Refill the cache from a chain block. */
  function LoadFree(sb: Block, fblk: Block): (r: Block)
    ensures View(r) == View(sb).(free := Words(fblk, FBLK_FREE))
  {
    var r := sb[..SB_FREE] + fblk[FBLK_FREE..FBLK_FREE + 4 * NICFREE] + sb[SB_FREE + 4 * NICFREE..];
    assert Words(r, SB_FREE) == Words(fblk, FBLK_FREE);
    r
  }

  /** A full cache spilled into a chain block. */
  function Spill(sb: Block): (r: Block)
    ensures ChainNfree(r) == NICFREE && Words(r, FBLK_FREE) == Words(sb, SB_FREE)
  {
    var z := Set16(ZeroBlock(), FBLK_NFREE, NICFREE);
    var r := z[..FBLK_FREE] + sb[SB_FREE..SB_FREE + 4 * NICFREE] + z[FBLK_FREE + 4 * NICFREE..];
    assert Words(r, FBLK_FREE) == Words(sb, SB_FREE);
    assert r[0] == z[0] && r[1] == z[1];
    r
  }

  // ----- the two operations -----------------------------------------------

  datatype AllocResult = AllocResult(d: Disk, ok: bool, b: nat)

  /** Pop one block; `ok` is false where the source raises. */
  function AllocBlock(d: Disk, now: nat): AllocResult {
    var sb := Read(d, SUPER);
    if Nfree(sb) <= 0 || SB_FREE + 4 * Nfree(sb) > BLOCK then AllocResult(d, false, 0) else
    var nfree := Nfree(sb) - 1;
    var b := Get32(sb, SB_FREE + 4 * nfree);
    if b == 0 then AllocResult(Write(d, SUPER, SetNfree(sb, 0)), false, 0) else
    var fblk := Read(d, b);
    if nfree == 0 && (b < Isize(sb) || b >= Fsize(sb)) then AllocResult(d, false, 0)
    else if nfree == 0 && (ChainNfree(fblk) < 0 || ChainNfree(fblk) > NICFREE) then AllocResult(d, false, 0)
    else if b < Isize(sb) || b >= Fsize(sb) then AllocResult(d, false, 0) else
    var sb1 := if nfree == 0 then SetNfree(LoadFree(sb, fblk), ChainNfree(fblk)) else SetNfree(sb, nfree);
    var sb2 := if Tfree(sb1) > 0 then SetTfree(sb1, Tfree(sb1) - 1) else sb1;
    AllocResult(Write(d, SUPER, Touch(sb2, now)), true, b)
  }

  datatype FreeResult = FreeResult(d: Disk, ok: bool)

  /** Push block `b`; a full cache is first spilled into `b` itself. */
  function FreeBlock(d: Disk, b: nat, now: nat): FreeResult {
    var sb := Read(d, SUPER);
    if b == 0 || b < Isize(sb) || b >= Fsize(sb) then FreeResult(d, false)
    else if Nfree(sb) < 0 || Nfree(sb) > NICFREE then FreeResult(d, false)
    else if Nfree(sb) == NICFREE && b >= |d| then FreeResult(d, false) else
    var full := Nfree(sb) == NICFREE;
    var d1 := if full then Write(d, b, Spill(sb)) else d;
    var n := if full then 0 else Nfree(sb);
    var sb1 := SetNfree(SetFree(sb, n, b), n + 1);
    var sb2 := SetTfree(sb1, Tfree(sb1) + 1);
    FreeResult(Write(d1, SUPER, Touch(sb2, now)), true)
  }

  // ----- the stack the list stands for -------------------------------------

  /** What a cache comes down to for the next pop: its count and its top entry, 0 if it has none. */
  datatype Rest = Rest(n: int, top: nat)

  function RestOf(n: int, f: seq<nat>): Rest
    requires |f| == NICFREE
  {
    Rest(n, if 1 <= n <= NICFREE then f[n - 1] else 0)
  }

  /** The cache a chain block is loaded into. */
  function ChainRest(blk: Block): Rest { RestOf(ChainNfree(blk), Words(blk, FBLK_FREE)) }

  function CacheRest(sb: Block): Rest { RestOf(Nfree(sb), Words(sb, SB_FREE)) }

  /** The two regular ends of a list: no entry, or the zero entry that marks the end of space. */
  predicate Ended(r: Rest) { 0 <= r.n <= NICFREE && r.top == 0 }

  /** Popping from a cache holding `f[..n]` yields `L`, front first. The content
      of a bottom block that is a chain pointer is not looked at. */
  ghost predicate Chain(d: Disk, n: int, f: seq<nat>, L: seq<nat>)
    requires |f| == NICFREE
    decreases |L|
  {
    if L == [] then Ended(RestOf(n, f))
    else
      && 1 <= n <= NICFREE
      && f[n - 1] == L[0]
      && if n > 1 then Chain(d, n - 1, f, L[1..])
         else |L| == 1 || Chain(d, ChainNfree(Read(d, L[0])), Words(Read(d, L[0]), FBLK_FREE), L[1..])
  }

  /** What the cache comes down to when `L` has been popped. */
  ghost function Left(d: Disk, n: int, f: seq<nat>, L: seq<nat>): Rest
    requires |f| == NICFREE
    decreases |L|
  {
    if L == [] then RestOf(n, f)
    else if n > 1 then Left(d, n - 1, f, L[1..])
    else Left(d, ChainNfree(Read(d, L[0])), Words(Read(d, L[0]), FBLK_FREE), L[1..])
  }

  lemma LeftOne(d: Disk, n: int, f: seq<nat>, L: seq<nat>)
    requires |f| == NICFREE && |L| == 1 && n <= 1
    ensures Left(d, n, f, L) == ChainRest(Read(d, L[0]))
  {
    assert L[1..] == [];
  }

  ghost function LeftBy(d: Disk, L: seq<nat>): Rest {
    var sb := Read(d, SUPER);
    Left(d, Nfree(sb), Words(sb, SB_FREE), L)
  }

  ghost predicate Distinct(L: seq<nat>) {
    forall i, j :: 0 <= i < j < |L| ==> L[i] != L[j]
  }

  ghost predicate Within(L: seq<nat>, lo: nat, hi: nat) {
    forall i :: 0 <= i < |L| ==> lo <= L[i] < hi
  }

  /** A plausible superblock whose data area lies inside the image. */
  ghost predicate Geometry(d: Disk) {
    && SUPER < |d|
    && 2 <= Isize(d[SUPER]) < Fsize(d[SUPER]) <= |d|
  }

  /** The list on disk pops `L`, but what its bottom block holds is unconstrained. */
  ghost predicate OpenList(d: Disk, L: seq<nat>) {
    && Geometry(d)
    && Within(L, Isize(d[SUPER]), Fsize(d[SUPER]))
    && Distinct(L)
    && Tfree(d[SUPER]) == |L|
    && Chain(d, Nfree(d[SUPER]), Words(d[SUPER], SB_FREE), L)
  }

  /** The list on disk stands for exactly the stack `L`, and ends regularly. */
  ghost predicate FreeRep(d: Disk, L: seq<nat>) {
    OpenList(d, L) && Ended(LeftBy(d, L))
  }

  ghost predicate FreeOk(d: Disk) {
    exists L :: FreeRep(d, L)
  }

  /** The stack of free blocks, top first. */
  ghost function FreeOf(d: Disk): seq<nat>
    requires FreeOk(d)
  {
    var L :| FreeRep(d, L); L
  }

  lemma {:induction false} ChainUnique(d: Disk, n: int, f: seq<nat>, L: seq<nat>, M: seq<nat>)
    requires |f| == NICFREE && Chain(d, n, f, L) && Chain(d, n, f, M) && |L| == |M|
    ensures L == M
    decreases |L|
  {
    if L != [] {
      assert L[0] == M[0];
      if n > 1 {
        ChainUnique(d, n - 1, f, L[1..], M[1..]);
      } else if |L| > 1 {
        var c := Read(d, L[0]);
        ChainUnique(d, ChainNfree(c), Words(c, FBLK_FREE), L[1..], M[1..]);
      }
      assert L == [L[0]] + L[1..] && M == [M[0]] + M[1..];
    }
  }

  /** The disk determines the list it pops, as long as its free total says. */
  lemma ListUnique(d: Disk, L: seq<nat>, M: seq<nat>)
    requires OpenList(d, L) && OpenList(d, M)
    ensures L == M
  {
    ChainUnique(d, Nfree(d[SUPER]), Words(d[SUPER], SB_FREE), L, M);
  }

  /** So a list is well formed exactly when the disk's is. */
  lemma FreeOfIs(d: Disk, L: seq<nat>)
    requires OpenList(d, L)
    ensures FreeOk(d) <==> FreeRep(d, L)
    ensures FreeRep(d, L) ==> FreeOf(d) == L
  {
    hide Chain, LeftBy, Ended;
    if M :| FreeRep(d, M) { ListUnique(d, L, M); }
    if FreeOk(d) { ListUnique(d, L, FreeOf(d)); }
  }

  /** Two disks that agree on the chain's blocks pop the same list. */
  lemma {:induction false} ChainFrame(d: Disk, e: Disk, n: int, f: seq<nat>, g: seq<nat>, L: seq<nat>)
    requires |f| == |g| == NICFREE && Chain(d, n, f, L)
    requires forall i :: 0 <= i < n <= NICFREE ==> f[i] == g[i]
    requires forall i :: 0 <= i < |L| ==> Read(d, L[i]) == Read(e, L[i])
    ensures Chain(e, n, g, L) && Left(e, n, g, L) == Left(d, n, f, L)
    decreases |L|
  {
    if L != [] {
      var c := Read(d, L[0]);
      if n > 1 {
        ChainFrame(d, e, n - 1, f, g, L[1..]);
      } else if |L| > 1 {
        ChainFrame(d, e, ChainNfree(c), Words(c, FBLK_FREE), Words(c, FBLK_FREE), L[1..]);
      } else {
        LeftOne(d, n, f, L);
        LeftOne(e, n, g, L);
      }
    }
  }

  /** Nothing outside the superblock and the free blocks themselves can disturb the list. */
  lemma FreeFrame(d: Disk, e: Disk)
    requires FreeOk(d) && |e| == |d| && d[SUPER] == e[SUPER]
    requires forall b :: b in FreeOf(d) ==> Read(d, b) == Read(e, b)
    ensures FreeOk(e) && FreeOf(e) == FreeOf(d)
  {
    var L := FreeOf(d);
    ChainFrame(d, e, Nfree(d[SUPER]), Words(d[SUPER], SB_FREE), Words(d[SUPER], SB_FREE), L);
    assert FreeRep(e, L);
    FreeOfIs(e, L);
  }

  lemma {:induction false} DistinctCount(L: seq<nat>, lo: nat, hi: nat)
    requires Distinct(L) && Within(L, lo, hi) && lo <= hi
    ensures |L| <= hi - lo
    decreases hi
  {
    if L != [] {
      assert lo <= L[0] < hi;
      if i :| 0 <= i < |L| && L[i] == hi - 1 {
        DistinctCount(L[..i] + L[i + 1..], lo, hi - 1);
      } else {
        DistinctCount(L, lo, hi - 1);
      }
    }
  }

  /** The superblock after a successful pop. */
  ghost function PoppedView(v: SbView, c: Block): SbView {
    var w := if v.nfree == 1 then v.(free := Words(c, FBLK_FREE), nfree := ChainNfree(c)) else v.(nfree := v.nfree - 1);
    w.(tfree := if v.tfree > 0 then v.tfree - 1 else 0)
  }

  lemma AllocView(d: Disk, now: nat)
    requires Geometry(d) && 1 <= Nfree(d[SUPER]) <= NICFREE
    requires var b := Words(d[SUPER], SB_FREE)[Nfree(d[SUPER]) - 1];
      && Isize(d[SUPER]) <= b < Fsize(d[SUPER])
      && (Nfree(d[SUPER]) == 1 ==> 0 <= ChainNfree(Read(d, b)) <= NICFREE)
    ensures var b := Words(d[SUPER], SB_FREE)[Nfree(d[SUPER]) - 1];
      var r := AllocBlock(d, now);
      && r.ok && r.b == b && |r.d| == |d| && r.d == d[SUPER := r.d[SUPER]]
      && View(r.d[SUPER]) == PoppedView(View(d[SUPER]), Read(d, b))
  {
    hide Get16, Get32, Words, Touch, SetNfree, SetTfree, SetFree, LoadFree;
  }

  /** Allocation pops the stack, and touches nothing but the superblock. It
      fails exactly when the stack is empty; then the list stays empty, and the
      superblock changes only to drop the zero entry of a list that ends in one. */
  lemma AllocPops(d: Disk, now: nat)
    requires FreeOk(d)
    ensures var r := AllocBlock(d, now); var L := FreeOf(d);
      && |r.d| == |d| && r.d == d[SUPER := r.d[SUPER]]
      && Isize(r.d[SUPER]) == Isize(d[SUPER]) && Fsize(r.d[SUPER]) == Fsize(d[SUPER])
      && FreeOk(r.d)
      && (r.ok <==> L != []) && r.b == (if L == [] then 0 else L[0])
      && FreeOf(r.d) == (if L == [] then [] else L[1..])
      && (L == [] ==> View(r.d[SUPER]) == View(d[SUPER]).(nfree := 0))
  {
    hide Get16, Get32, Words, AllocBlock, Chain, Ended, View;
    var L := FreeOf(d);
    if L != [] {
      if |L| == 1 && Nfree(d[SUPER]) == 1 {
        LeftOne(d, 1, Words(d[SUPER], SB_FREE), L);
        EndedCount(ChainRest(Read(d, L[0])));
      }
      PopStack(d, now, L);
      FreeOfIs(AllocBlock(d, now).d, L[1..]);
    } else {
      EmptyPop(d, now);
      FreeOfIs(AllocBlock(d, now).d, []);
    }
  }

  lemma EndedCount(r: Rest)
    requires Ended(r)
    ensures 0 <= r.n <= NICFREE
  {
  }

  lemma EmptyPop(d: Disk, now: nat)
    requires FreeRep(d, [])
    ensures var r := AllocBlock(d, now);
      && !r.ok && r.b == 0 && |r.d| == |d| && r.d == d[SUPER := r.d[SUPER]]
      && View(r.d[SUPER]) == View(d[SUPER]).(nfree := 0)
      && Isize(r.d[SUPER]) == Isize(d[SUPER]) && Fsize(r.d[SUPER]) == Fsize(d[SUPER])
      && FreeRep(r.d, [])
  {
    hide Get16, Get32, Words, SetNfree;
  }

  /** One pop. Only when the block popped is a chain pointer is its content looked at,
      and then its count must be one a cache can hold. */
  lemma PopStack(d: Disk, now: nat, L: seq<nat>)
    requires L != [] && OpenList(d, L)
    requires |L| == 1 && Nfree(d[SUPER]) == 1 ==> 0 <= ChainNfree(Read(d, L[0])) <= NICFREE
    ensures var r := AllocBlock(d, now);
      && r.ok && r.b == L[0]
      && |r.d| == |d| && r.d == d[SUPER := r.d[SUPER]]
      && Isize(r.d[SUPER]) == Isize(d[SUPER]) && Fsize(r.d[SUPER]) == Fsize(d[SUPER])
      && Tfree(r.d[SUPER]) == |L| - 1 && 0 <= Nfree(r.d[SUPER]) <= NICFREE
      && LeftBy(r.d, L[1..]) == LeftBy(d, L)
      && (|L| > 1 || Ended(LeftBy(d, L)) ==> OpenList(r.d, L[1..]))
  {
    hide Get16, Get32, Words, AllocBlock;
    var v, c := View(d[SUPER]), Read(d, L[0]);
    assert Words(d[SUPER], SB_FREE)[v.nfree - 1] == L[0];
    if v.nfree > 1 {
      assert Chain(d, v.nfree - 1, v.free, L[1..]);
    } else if |L| > 1 {
      assert Chain(d, ChainNfree(c), Words(c, FBLK_FREE), L[1..]);
      NonEmptyCount(d, ChainNfree(c), Words(c, FBLK_FREE), L[1..]);
    }
    AllocView(d, now);
    var e := AllocBlock(d, now).d;
    var w := View(e[SUPER]);
    forall i | 0 <= i < |L[1..]|
      ensures Read(d, L[1..][i]) == Read(e, L[1..][i])
    {
      assert L[1..][i] == L[i + 1];
    }
    if v.nfree > 1 {
      ChainFrame(d, e, v.nfree - 1, v.free, w.free, L[1..]);
    } else if |L| > 1 {
      ChainFrame(d, e, ChainNfree(c), Words(c, FBLK_FREE), w.free, L[1..]);
    } else {
      LeftOne(d, v.nfree, v.free, L);
      assert L[1..] == [];
    }
  }

  lemma NonEmptyCount(d: Disk, n: int, f: seq<nat>, L: seq<nat>)
    requires |f| == NICFREE && L != [] && Chain(d, n, f, L)
    ensures 1 <= n <= NICFREE
  {
  }

  /** The superblock after a push. */
  ghost function PushedView(v: SbView, b: nat): SbView
    requires 0 <= v.nfree <= NICFREE == |v.free|
  {
    var n := if v.nfree == NICFREE then 0 else v.nfree;
    v.(free := v.free[n := b], nfree := n + 1, tfree := (v.tfree + 1) % 0x1_0000_0000)
  }

  lemma FreeView(d: Disk, b: nat, now: nat)
    requires Geometry(d) && 0 <= Nfree(d[SUPER]) <= NICFREE
    requires Isize(d[SUPER]) <= b < Fsize(d[SUPER])
    ensures var r := FreeBlock(d, b, now);
      && r.ok && |r.d| == |d|
      && (forall x :: 0 <= x < |d| && x != SUPER && x != b ==> r.d[x] == d[x])
      && r.d[b] == (if Nfree(d[SUPER]) == NICFREE then Spill(d[SUPER]) else d[b])
      && View(r.d[SUPER]) == PushedView(View(d[SUPER]), b)
  {
    hide Get16, Get32, Words, Touch, SetNfree, SetTfree, SetFree, Spill;
  }

  /** Freeing pushes: the block becomes the next one popped. Nothing but the
      superblock and the freed block itself is written. What the list comes down to
      stays the same, except that a block freed onto a list with no entry at all
      becomes the bottom link without being written. */
  lemma PushStack(d: Disk, b: nat, now: nat, L: seq<nat>)
    requires OpenList(d, L) && Isize(d[SUPER]) <= b < Fsize(d[SUPER]) && b !in L
    ensures var r := FreeBlock(d, b, now);
      && r.ok && |r.d| == |d|
      && (forall x :: 0 <= x < |d| && x != SUPER && x != b ==> r.d[x] == d[x])
      && Isize(r.d[SUPER]) == Isize(d[SUPER]) && Fsize(r.d[SUPER]) == Fsize(d[SUPER])
      && OpenList(r.d, [b] + L)
      && LeftBy(r.d, [b] + L) == (if Nfree(d[SUPER]) == 0 then ChainRest(d[b]) else LeftBy(d, L))
      && r.d[b] == (if Nfree(d[SUPER]) == NICFREE then Spill(d[SUPER]) else d[b])
      && Nfree(r.d[SUPER]) == (if Nfree(d[SUPER]) == NICFREE then 1 else Nfree(d[SUPER]) + 1)
  {
    hide Get16, Get32, Words, FreeBlock, Spill;
    var v := View(d[SUPER]);
    FreeView(d, b, now);
    var e, M := FreeBlock(d, b, now).d, [b] + L;
    var w := View(e[SUPER]);
    assert M[1..] == L;
    DistinctCount(L, v.isize, v.fsize);
    assert Within(M, v.isize, v.fsize) && Distinct(M);
    forall i | 0 <= i < |L|
      ensures Read(d, L[i]) == Read(e, L[i])
    {
      assert L[i] in L;
    }
    if v.nfree == NICFREE {
      ChainFrame(d, e, NICFREE, v.free, Words(e[b], FBLK_FREE), L);
    } else {
      ChainFrame(d, e, v.nfree, v.free, w.free, L);
    }
    assert Chain(e, w.nfree, w.free, M);
    assert Left(e, w.nfree, w.free, M)
        == if w.nfree > 1 then Left(e, w.nfree - 1, w.free, L)
            else Left(e, ChainNfree(e[b]), Words(e[b], FBLK_FREE), L);
  }

  /** Freeing onto a well-formed list pushes. The list is well formed again exactly
      when it had an entry (a block, or the zero that ends it), or the freed block
      itself holds a cache that ends there. */
  lemma FreePushes(d: Disk, b: nat, now: nat)
    requires FreeOk(d) && Isize(d[SUPER]) <= b < Fsize(d[SUPER]) && b !in FreeOf(d)
    ensures var r := FreeBlock(d, b, now);
      && r.ok && |r.d| == |d|
      && (forall x :: 0 <= x < |d| && x != SUPER && x != b ==> r.d[x] == d[x])
      && Isize(r.d[SUPER]) == Isize(d[SUPER]) && Fsize(r.d[SUPER]) == Fsize(d[SUPER])
      && OpenList(r.d, [b] + FreeOf(d))
      && (FreeOk(r.d) <==> Nfree(d[SUPER]) != 0 || Ended(ChainRest(d[b])))
      && (FreeOk(r.d) ==> FreeOf(r.d) == [b] + FreeOf(d))
  {
    hide Get16, Get32, Words, FreeBlock, Chain, Ended;
    var L, r := FreeOf(d), FreeBlock(d, b, now);
    PushStack(d, b, now, L);
    FreeOfIs(r.d, [b] + L);
  }

  /** Popping a freshly pushed block gives it back and restores the stack. */
  lemma FreeThenAlloc(d: Disk, b: nat, now: nat)
    requires FreeOk(d) && Isize(d[SUPER]) <= b < Fsize(d[SUPER]) && b !in FreeOf(d)
    requires Nfree(d[SUPER]) != 0 || Ended(ChainRest(d[b]))
    ensures var r := AllocBlock(FreeBlock(d, b, now).d, now);
      r.ok && r.b == b && FreeOk(r.d) && FreeOf(r.d) == FreeOf(d) && Tfree(r.d[SUPER]) == |FreeOf(d)|
  {
    hide Get16, Get32, Words, FreeBlock, AllocBlock, Chain, Ended;
    FreePushes(d, b, now);
    AllocPops(FreeBlock(d, b, now).d, now);
    assert ([b] + FreeOf(d))[1..] == FreeOf(d);
    var e := AllocBlock(FreeBlock(d, b, now).d, now).d;
    assert FreeRep(e, FreeOf(e));
  }

  // ----- the same by behaviour ----------------------------------------------------

  /** Successive allocations, at any times, return exactly `L` in order and are then refused. */
  ghost predicate Yields(d: Disk, L: seq<nat>, times: nat -> nat, k: nat)
    decreases |L|
  {
    var r := AllocBlock(d, times(k));
    if L == [] then !r.ok else r.ok && r.b == L[0] && Yields(r.d, L[1..], times, k + 1)
  }

  /** An allocation from a cache that comes down to `r` is refused: there is no entry, it is
      the zero entry, it lies outside the data area, or it is a chain pointer to a block
      whose count no cache can hold. */
  predicate Refuses(d: Disk, lo: nat, hi: nat, r: Rest) {
    r.top == 0 || r.top < lo || r.top >= hi || (r.n == 1 && !(0 <= ChainNfree(Read(d, r.top)) <= NICFREE))
  }

  /** A cache that comes down to `r` can be loaded, and the next allocation is refused. */
  predicate Stops(d: Disk, lo: nat, hi: nat, r: Rest) {
    0 <= r.n <= NICFREE && Refuses(d, lo, hi, r)
  }

  lemma AllocRefused(d: Disk, now: nat)
    requires Geometry(d) && 0 <= Nfree(d[SUPER]) <= NICFREE
    ensures AllocBlock(d, now).ok <==> !Refuses(d, Isize(d[SUPER]), Fsize(d[SUPER]), CacheRest(d[SUPER]))
  {
    hide Get16, Get32, Words, Touch, SetNfree, SetTfree, LoadFree;
    var n := Nfree(d[SUPER]);
    if n > 0 { assert Words(d[SUPER], SB_FREE)[n - 1] == Get32(d[SUPER], SB_FREE + 4 * (n - 1)); }
  }

  /** A list that pops `L` behaves as that stack exactly when what it comes down to, once
      `L` is popped, can be loaded and refuses the next allocation. */
  lemma {:induction false} OpenYields(d: Disk, L: seq<nat>, times: nat -> nat, k: nat)
    requires OpenList(d, L)
    ensures Yields(d, L, times, k) <==> Stops(d, Isize(d[SUPER]), Fsize(d[SUPER]), LeftBy(d, L))
    decreases |L|
  {
    hide Get16, Get32, Words, AllocBlock, Chain, Left, Refuses;
    var sb, now := d[SUPER], times(k);
    if L == [] {
      EmptyRest(d);
      AllocRefused(d, now);
    } else if |L| == 1 && Nfree(sb) == 1 && !(0 <= ChainNfree(Read(d, L[0])) <= NICFREE) {
      BadChainRefused(d, now, L);
    } else {
      PopStack(d, now, L);
      var e := AllocBlock(d, now).d;
      StopsFrame(d, e, LeftBy(d, L));
      if |L| > 1 {
        OpenYields(e, L[1..], times, k + 1);
      } else {
        assert L[1..] == [];
        AllocRefused(e, times(k + 1));
        EmptyRest(e);
      }
    }
  }

  lemma EmptyRest(d: Disk)
    requires Geometry(d)
    ensures LeftBy(d, []) == CacheRest(d[SUPER]) && CacheRest(d[SUPER]).n == Nfree(d[SUPER])
    ensures OpenList(d, []) ==> 0 <= Nfree(d[SUPER]) <= NICFREE
  {
  }

  lemma BadChainRefused(d: Disk, now: nat, L: seq<nat>)
    requires OpenList(d, L) && |L| == 1 && Nfree(d[SUPER]) == 1 && !(0 <= ChainNfree(Read(d, L[0])) <= NICFREE)
    ensures !AllocBlock(d, now).ok && LeftBy(d, L).n == ChainNfree(Read(d, L[0]))
  {
    hide Get16, Get32, Words, AllocBlock;
    AllocRefused(d, now);
    LeftOne(d, 1, Words(d[SUPER], SB_FREE), L);
  }

  lemma StopsFrame(d: Disk, e: Disk, r: Rest)
    requires Geometry(d) && |e| == |d| && e == d[SUPER := e[SUPER]]
    ensures Stops(e, Isize(d[SUPER]), Fsize(d[SUPER]), r) == Stops(d, Isize(d[SUPER]), Fsize(d[SUPER]), r)
  {
    hide Get16, Get32;
  }

  /** A well-formed list behaves as its stack. */
  lemma ListYields(d: Disk, times: nat -> nat, k: nat)
    requires FreeOk(d)
    ensures Yields(d, FreeOf(d), times, k)
  {
    hide Get16, Get32, Words, Chain, Left, Yields;
    OpenYields(d, FreeOf(d), times, k);
  }

  /** Freeing is a push, as seen by whoever allocates next, exactly when the list had an
      entry, or the freed block itself reads as a cache that can be loaded and refuses:
      its count is 0, or its top entry is 0, outside the data area, or a chain pointer to
      a block with an impossible count. */
  lemma FreeBehaves(d: Disk, b: nat, now: nat, times: nat -> nat, k: nat)
    requires FreeOk(d) && Isize(d[SUPER]) <= b < Fsize(d[SUPER]) && b !in FreeOf(d)
    ensures Yields(FreeBlock(d, b, now).d, [b] + FreeOf(d), times, k)
       <==> Nfree(d[SUPER]) != 0 || Stops(d, Isize(d[SUPER]), Fsize(d[SUPER]), ChainRest(d[b]))
  {
    hide Get16, Get32, Words, FreeBlock, Left, Yields, Stops, ChainRest, Spill;
    var L, e := FreeOf(d), FreeBlock(d, b, now).d;
    PushStack(d, b, now, L);
    OpenYields(e, [b] + L, times, k);
    var lo, hi := Isize(d[SUPER]), Fsize(d[SUPER]);
    if Nfree(d[SUPER]) == 0 {
      assert L == [];
      assert e == d[SUPER := e[SUPER]];
      StopsFrame(d, e, ChainRest(d[b]));
    } else {
      EndedStops(e, lo, hi, LeftBy(d, L));
    }
  }

  lemma EndedStops(d: Disk, lo: nat, hi: nat, r: Rest)
    requires Ended(r)
    ensures Stops(d, lo, hi, r)
  {
  }

  /** A block whose content looks like a one-entry chain naming itself. */
  function SelfLink(b: nat): Block
    requires b < 0x1_0000_0000
  {
    Set32(Set16(ZeroBlock(), FBLK_NFREE, 1), FBLK_FREE, b)
  }

  /** What goes wrong otherwise: freed onto a list with no entry, a data block with such
      content is handed out twice in a row. */
  lemma BadBottomAllocatedTwice(d: Disk, b: nat, now: nat)
    requires FreeOk(d) && Nfree(d[SUPER]) == 0
    requires Isize(d[SUPER]) <= b < Fsize(d[SUPER]) && d[b] == SelfLink(b)
    ensures var r1 := AllocBlock(FreeBlock(d, b, now).d, now);
      var r2 := AllocBlock(r1.d, now);
      r1.ok && r2.ok && r1.b == b && r2.b == b
  {
    hide FreeBlock, AllocBlock, Get16, Get32, Words, Spill;
    assert FreeRep(d, FreeOf(d)) && FreeOf(d) == [];
    PushStack(d, b, now, []);
    var e := FreeBlock(d, b, now).d;
    assert [b] + [] == [b] && OpenList(e, [b]);
    SelfLinkReads(b);
    AllocView(e, now);
    AllocView(AllocBlock(e, now).d, now);
  }

  lemma SelfLinkReads(b: nat)
    requires b < 0x1_0000_0000
    ensures ChainNfree(SelfLink(b)) == 1 && Words(SelfLink(b), FBLK_FREE)[0] == b
  {
  }
}
