/** The offline checker: scan the inode table for the blocks in use, and rebuild the
    free list from the blocks nobody claims. */
module Fsck {
  import opened Basics
  import opened Bytes
  import opened FreeList
  import opened InodeTable
  import Layout
  import W = Walk

  /** One block pointer of one inode, as the walk meets it. */
  datatype Claim = Claim(ino: nat, rel: nat)

  /** The checker's accounting while it scans. */
  datatype Scan = Scan(isize: nat, fsize: nat, owner: map<nat, nat>, usedBlocks: nat,
                       crossLinked: map<nat, seq<nat>>, outOfRange: map<nat, seq<nat>>)

  function VisitBlock(s: Scan, c: Claim): Scan {
    if c.rel < s.isize || c.rel >= s.fsize then
      var prev := if c.ino in s.outOfRange then s.outOfRange[c.ino] else [];
      s.(outOfRange := s.outOfRange[c.ino := prev + [c.rel]])
    else if c.rel in s.owner then
      var prev := if c.rel in s.crossLinked then s.crossLinked[c.rel] else [s.owner[c.rel]];
      s.(crossLinked := s.crossLinked[c.rel := prev + [c.ino]])
    else s.(owner := s.owner[c.rel := c.ino], usedBlocks := s.usedBlocks + 1)
  }

  function VisitClaims(s: Scan, cs: seq<Claim>): Scan {
    if cs == [] then s else VisitBlock(VisitClaims(s, cs[..|cs| - 1]), cs[|cs| - 1])
  }

  /** Only regular files and directories own blocks. */
  function ClaimsOf(d: Disk, ino: nat): seq<Claim> {
    var st := Stat(d, ino);
    if st.Some? && (st.value.IsFile() || st.value.IsDir()) then
      ClaimList(ino, W.WalkInode(d, st.value.addrs, st.value.size).visits)
    else []
  }

  function ClaimList(ino: nat, vs: seq<W.Visit>): (r: seq<Claim>)
    ensures |r| == |vs| && forall i :: 0 <= i < |vs| ==> r[i] == Claim(ino, vs[i].rel)
  {
    seq(|vs|, i requires 0 <= i < |vs| => Claim(ino, vs[i].rel))
  }

  lemma NoClaims(s: Scan)
    ensures VisitClaims(s, []) == s
  {
  }

  /** The claims of inodes 1 .. n, in table order. */
  function Claims(d: Disk, n: nat): seq<Claim> {
    if n == 0 then [] else Claims(d, n - 1) + ClaimsOf(d, n)
  }

  function FreeInodes(d: Disk, n: nat): nat {
    if n == 0 then 0 else FreeInodes(d, n - 1) + if Stat(d, n).None? then 1 else 0
  }

  function InodeCount(sb: Block): nat {
    if Isize(sb) < 2 then 0 else (Isize(sb) - 2) * PER_BLOCK
  }

  predicate Plausible(sb: Block) {
    2 <= Isize(sb) < Fsize(sb)
  }

  function StartScan(sb: Block): Scan {
    Scan(Isize(sb), Fsize(sb), map[], 0, map[], map[])
  }

  datatype Report = Report(scan: Scan, freeInodes: nat, freeBlocks: int)

  /** The report of the scan; none where the source raises, on an implausible superblock. */
  function CheckBlocks(d: Disk): Option<Report> {
    var sb := Read(d, SUPER);
    if !Plausible(sb) then None else
    var s := VisitClaims(StartScan(sb), Claims(d, InodeCount(sb)));
    Some(Report(s, FreeInodes(d, InodeCount(sb)), Fsize(sb) - Isize(sb) - s.usedBlocks))
  }

  // ----- what the report says ------------------------------------------------------

  /** The inodes that claim block `b`, in order of the claims. */
  ghost function Claimants(cs: seq<Claim>, b: nat): seq<nat> {
    if cs == [] then []
    else Claimants(cs[..|cs| - 1], b) + if cs[|cs| - 1].rel == b then [cs[|cs| - 1].ino] else []
  }

  /** The out-of-range pointers of inode `ino`, in order. */
  ghost function Strays(cs: seq<Claim>, ino: nat, lo: nat, hi: nat): seq<nat> {
    if cs == [] then []
    else
      var c := cs[|cs| - 1];
      Strays(cs[..|cs| - 1], ino, lo, hi) + if c.ino == ino && !(lo <= c.rel < hi) then [c.rel] else []
  }

  ghost predicate OwnersExact(s: Scan, cs: seq<Claim>) {
    && (forall b :: b in s.owner <==> s.isize <= b < s.fsize && Claimants(cs, b) != [])
    && (forall b :: b in s.owner ==> s.owner[b] == Claimants(cs, b)[0])
    && s.usedBlocks == |s.owner|
  }

  ghost predicate CrossLinksExact(s: Scan, cs: seq<Claim>) {
    && (forall b :: b in s.crossLinked <==> s.isize <= b < s.fsize && |Claimants(cs, b)| >= 2)
    && (forall b :: b in s.crossLinked ==> s.crossLinked[b] == Claimants(cs, b))
  }

  ghost predicate StraysExact(s: Scan, cs: seq<Claim>) {
    && (forall i :: i in s.outOfRange <==> Strays(cs, i, s.isize, s.fsize) != [])
    && (forall i :: i in s.outOfRange ==> s.outOfRange[i] == Strays(cs, i, s.isize, s.fsize))
  }

  ghost predicate Accounts(s: Scan, cs: seq<Claim>) {
    OwnersExact(s, cs) && CrossLinksExact(s, cs) && StraysExact(s, cs)
  }

  lemma Snoc(cs: seq<Claim>, c: Claim, b: nat, lo: nat, hi: nat)
    ensures Claimants(cs + [c], b) == Claimants(cs, b) + if c.rel == b then [c.ino] else []
    ensures Strays(cs + [c], b, lo, hi)
         == Strays(cs, b, lo, hi) + if c.ino == b && !(lo <= c.rel < hi) then [c.rel] else []
  {
    var ds := cs + [c];
    assert ds[..|ds| - 1] == cs && ds[|ds| - 1] == c;
  }

  lemma VisitAccounts(s: Scan, cs: seq<Claim>, c: Claim)
    requires Accounts(s, cs)
    ensures Accounts(VisitBlock(s, c), cs + [c])
  {
    VisitOwners(s, cs, c);
    VisitCrossLinks(s, cs, c);
    VisitStrays(s, cs, c);
  }

  lemma VisitOwners(s: Scan, cs: seq<Claim>, c: Claim)
    requires OwnersExact(s, cs)
    ensures OwnersExact(VisitBlock(s, c), cs + [c])
  {
    hide Claimants, Strays;
    forall b: nat
      ensures Claimants(cs + [c], b) == Claimants(cs, b) + if c.rel == b then [c.ino] else []
    {
      Snoc(cs, c, b, 0, 0);
    }
  }

  lemma VisitCrossLinks(s: Scan, cs: seq<Claim>, c: Claim)
    requires OwnersExact(s, cs) && CrossLinksExact(s, cs)
    ensures CrossLinksExact(VisitBlock(s, c), cs + [c])
  {
    hide Claimants, Strays;
    forall b: nat
      ensures Claimants(cs + [c], b) == Claimants(cs, b) + if c.rel == b then [c.ino] else []
    {
      Snoc(cs, c, b, 0, 0);
    }
    var b := c.rel;
    if b in s.owner && b !in s.crossLinked {
      assert |Claimants(cs, b)| == 1;
      assert Claimants(cs, b) == [s.owner[b]];
    }
  }

  lemma VisitStrays(s: Scan, cs: seq<Claim>, c: Claim)
    requires StraysExact(s, cs)
    ensures StraysExact(VisitBlock(s, c), cs + [c])
  {
    hide Claimants, Strays;
    forall i: nat
      ensures Strays(cs + [c], i, s.isize, s.fsize)
           == Strays(cs, i, s.isize, s.fsize) + if c.ino == i && !(s.isize <= c.rel < s.fsize) then [c.rel] else []
    {
      Snoc(cs, c, i, s.isize, s.fsize);
    }
  }

  lemma {:induction false} ScanAccounts(s: Scan, cs: seq<Claim>)
    requires Accounts(s, [])
    ensures Accounts(VisitClaims(s, cs), cs)
    ensures VisitClaims(s, cs).isize == s.isize && VisitClaims(s, cs).fsize == s.fsize
    decreases |cs|
  {
    hide Accounts;
    if cs != [] {
      var ds := cs[..|cs| - 1];
      ScanAccounts(s, ds);
      VisitAccounts(VisitClaims(s, ds), ds, cs[|cs| - 1]);
      assert cs == ds + [cs[|cs| - 1]];
    }
  }

  /** The claims the scan of this disk meets. */
  ghost function AllClaims(d: Disk): seq<Claim> {
    Claims(d, InodeCount(Read(d, SUPER)))
  }

  /** The data-area blocks some file or directory refers to. */
  function UsedBlocks(d: Disk): set<nat> {
    var sb := Read(d, SUPER);
    InRange(Claims(d, InodeCount(sb)), Isize(sb), Fsize(sb))
  }

  /** The blocks of [lo, hi) that some claim names. */
  function InRange(cs: seq<Claim>, lo: nat, hi: nat): set<nat> {
    set c | c in cs && lo <= c.rel < hi :: c.rel
  }

  lemma InRangeConcat(a: seq<Claim>, b: seq<Claim>, lo: nat, hi: nat)
    ensures InRange(a + b, lo, hi) == InRange(a, lo, hi) + InRange(b, lo, hi)
  {
    forall x | x in InRange(a, lo, hi) + InRange(b, lo, hi)
      ensures x in InRange(a + b, lo, hi)
    {
      if x in InRange(a, lo, hi) {
        var c :| c in a && lo <= c.rel < hi && c.rel == x;
        assert c in a + b;
      } else {
        var c :| c in b && lo <= c.rel < hi && c.rel == x;
        assert c in a + b;
      }
    }
  }

  lemma InRangeNone(lo: nat, hi: nat)
    ensures InRange([], lo, hi) == {}
  {
  }

  lemma InRangeOne(c: Claim, lo: nat, hi: nat)
    ensures InRange([c], lo, hi) == if lo <= c.rel < hi then {c.rel} else {}
  {
    assert c in [c];
  }

  lemma {:induction false} ClaimantsOf(cs: seq<Claim>, b: nat)
    ensures Claimants(cs, b) != [] <==> exists c :: c in cs && c.rel == b
  {
    if cs != [] {
      ClaimantsOf(cs[..|cs| - 1], b);
      assert cs == cs[..|cs| - 1] + [cs[|cs| - 1]];
    }
  }

  /** The inode numbers of the table whose record is free. */
  function FreeSlots(d: Disk): set<nat> {
    set i: nat | 1 <= i <= (Isize(Read(d, SUPER)) - 2) * 8 && Stat(d, i).None?
  }

  lemma {:induction false} FreeCounted(d: Disk, n: nat)
    ensures FreeInodes(d, n) == |set i: nat | 1 <= i <= n && Stat(d, i).None?|
    decreases n
  {
    hide Stat;
    var s := set i: nat | 1 <= i <= n && Stat(d, i).None?;
    if n == 0 {
      assert s == {};
    } else {
      FreeCounted(d, n - 1);
      var t := set i: nat | 1 <= i <= n - 1 && Stat(d, i).None?;
      assert s == if Stat(d, n).None? then t + {n} else t;
    }
  }

  /** The walk of inode `ino`, a file or a directory, meets block `b`. */
  ghost predicate Meets(d: Disk, ino: nat, b: nat) {
    var st := Stat(d, ino);
    && st.Some? && (st.value.IsFile() || st.value.IsDir())
    && exists v :: v in W.WalkInode(d, st.value.addrs, st.value.size).visits && v.rel == b
  }

  lemma ClaimsMeet(d: Disk, ino: nat, c: Claim)
    ensures c in ClaimsOf(d, ino) <==> c.ino == ino && Meets(d, ino, c.rel)
  {
    hide Stat, W.WalkInode;
    var st := Stat(d, ino);
    if st.Some? && (st.value.IsFile() || st.value.IsDir()) {
      var vs := W.WalkInode(d, st.value.addrs, st.value.size).visits;
      if c.ino == ino && exists v :: v in vs && v.rel == c.rel {
        var i :| 0 <= i < |vs| && vs[i].rel == c.rel;
        assert ClaimList(ino, vs)[i] == c;
      }
    }
  }

  /** The claims are exactly those of the files and directories of the table. */
  lemma {:induction false} ClaimsExact(d: Disk, n: nat, c: Claim)
    ensures c in Claims(d, n) <==> 1 <= c.ino <= n && Meets(d, c.ino, c.rel)
    decreases n
  {
    hide ClaimsOf, Meets;
    if n > 0 {
      ClaimsExact(d, n - 1, c);
      ClaimsMeet(d, n, c);
    }
  }

  /** A block is in use exactly when it is in the data area and some file or directory of the
      inode table meets it. */
  lemma UsedExactly(d: Disk, b: nat)
    requires Plausible(Read(d, SUPER))
    ensures var lo, hi := Isize(Read(d, SUPER)), Fsize(Read(d, SUPER));
      b in UsedBlocks(d) <==> lo <= b < hi && exists ino: nat :: 1 <= ino <= (lo - 2) * 8 && Meets(d, ino, b)
  {
    hide Claims, Meets, Isize, Fsize;
    var lo, hi := Isize(Read(d, SUPER)), Fsize(Read(d, SUPER));
    var cs := AllClaims(d);
    if b in UsedBlocks(d) {
      var c :| c in cs && c.rel == b;
      ClaimsExact(d, InodeCount(Read(d, SUPER)), c);
    }
    if lo <= b < hi && exists ino: nat :: 1 <= ino <= (lo - 2) * 8 && Meets(d, ino, b) {
      var ino: nat :| 1 <= ino <= (lo - 2) * 8 && Meets(d, ino, b);
      ClaimsExact(d, InodeCount(Read(d, SUPER)), Claim(ino, b));
      assert Claim(ino, b) in cs;
    }
  }

  /** There is a report exactly when the superblock is plausible, and it is exact: a block is
      cross-linked when at least two claims name it, and is listed with all its claimants in
      order; every out-of-range pointer is listed under its inode; the used count is the number
      of distinct data-area blocks claimed, and the free inodes are the free records of the table. */
  lemma CheckExact(d: Disk)
    ensures CheckBlocks(d).Some? <==> 2 <= Isize(Read(d, SUPER)) < Fsize(Read(d, SUPER))
    ensures CheckBlocks(d).Some? ==> var r := CheckBlocks(d).value;
      && Accounts(r.scan, AllClaims(d))
      && r.scan.isize == Isize(Read(d, SUPER)) && r.scan.fsize == Fsize(Read(d, SUPER))
      && r.scan.owner.Keys == UsedBlocks(d) && r.scan.usedBlocks == |UsedBlocks(d)|
      && r.freeBlocks == Fsize(Read(d, SUPER)) - Isize(Read(d, SUPER)) - |UsedBlocks(d)|
      && r.freeInodes == |FreeSlots(d)|
  {
    hide Claims, Isize, Fsize, Stat;
    FreeCounted(d, InodeCount(Read(d, SUPER)));
    var sb, cs := Read(d, SUPER), AllClaims(d);
    ScanAccounts(StartScan(sb), cs);
    var s := VisitClaims(StartScan(sb), cs);
    forall b
      ensures b in s.owner <==> b in UsedBlocks(d)
    {
      ClaimantsOf(cs, b);
    }
    assert s.owner.Keys == UsedBlocks(d);
    assert |s.owner| == |s.owner.Keys|;
  }

  // ----- rebuilding the free list ------------------------------------------------------

  /** The superblock with an empty free list and an invalidated inode cache. */
  function ResetSuper(sb: Block, freeInodes: nat, now: nat): (r: Block)
    ensures View(r).nfree == 0 && View(r).tfree == 0
    ensures View(r).isize == View(sb).isize && View(r).fsize == View(sb).fsize
  {
    var a := ClearFree(SetNfree(sb, 0));
    var b := SetTfree(a, 0);
    var c := Set16(Set16(b, SB_NINODE, 0), SB_TINODE, freeInodes % 0x10000);
    Touch(c[SB_FLOCK := 0][SB_ILOCK := 0], now)
  }

  function ClearFree(sb: Block): (r: Block)
    ensures View(r) == View(sb).(free := seq(NICFREE, _ => 0))
  {
    var z := ZeroBlock();
    var r := sb[..SB_FREE] + z[SB_FREE..SB_FREE + 4 * NICFREE] + sb[SB_FREE + 4 * NICFREE..];
    assert Words(r, SB_FREE) == seq(NICFREE, _ => 0);
    r
  }

  datatype Freed = Freed(d: Disk, ok: bool)

  /** Free every unused block below `b`, from the highest down to `lo`. */
  function FreeDown(d: Disk, b: nat, lo: nat, used: set<nat>, now: nat): Freed
    requires lo <= b
    decreases b
  {
    if b == lo then Freed(d, true)
    else if b - 1 in used then FreeDown(d, b - 1, lo, used, now)
    else
      var r := FreeBlock(d, b - 1, now);
      if r.ok then FreeDown(r.d, b - 1, lo, used, now) else Freed(r.d, false)
  }

  datatype Rebuilt = Rebuilt(d: Disk, ok: bool, report: Option<Report>)

  function Rebuild(d: Disk, now: nat): Rebuilt {
    var sb := Read(d, SUPER);
    var rep := CheckBlocks(d);
    if rep.None? then Rebuilt(d, false, None) else
    var d1 := Write(d, SUPER, ResetSuper(sb, rep.value.freeInodes, now));
    var f := FreeDown(d1, Fsize(sb), Isize(sb), UsedBlocks(d), now);
    Rebuilt(f.d, f.ok, rep)
  }

  /** The blocks of [lo, hi) not in `used`, in ascending order. */
  function Unused(used: set<nat>, lo: nat, hi: nat): seq<nat>
    decreases hi - lo
  {
    if lo >= hi then [] else (if lo in used then [] else [lo]) + Unused(used, lo + 1, hi)
  }

  lemma {:induction false} UnusedExact(used: set<nat>, lo: nat, hi: nat)
    ensures var L := Unused(used, lo, hi);
      && Distinct(L) && Within(L, lo, hi)
      && (forall x :: x in L <==> lo <= x < hi && x !in used)
      && (forall i, j :: 0 <= i < j < |L| ==> L[i] < L[j])
    decreases hi - lo
  {
    if lo < hi {
      UnusedExact(used, lo + 1, hi);
      var L, M := Unused(used, lo, hi), Unused(used, lo + 1, hi);
      if lo !in used {
        assert L == [lo] + M;
        forall i, j | 0 <= i < j < |L| ensures L[i] < L[j] { if i == 0 { assert L[j] in M; } }
      }
    }
  }

  lemma {:induction false} UnusedCount(used: set<nat>, lo: nat, hi: nat)
    requires lo <= hi && forall x :: x in used ==> lo <= x < hi
    ensures |Unused(used, lo, hi)| == hi - lo - |used|
    decreases hi - lo
  {
    if lo == hi {
      assert used == {};
    } else {
      var rest := used - {lo};
      UnusedCount(rest, lo + 1, hi);
      UnusedSame(used, rest, lo + 1, hi);
      if lo in used { assert |used| == |rest| + 1; } else { assert used == rest; }
    }
  }

  lemma {:induction false} UnusedSame(u: set<nat>, v: set<nat>, lo: nat, hi: nat)
    requires forall x :: lo <= x < hi ==> (x in u <==> x in v)
    ensures Unused(u, lo, hi) == Unused(v, lo, hi)
    decreases hi - lo
  {
    if lo < hi { UnusedSame(u, v, lo + 1, hi); }
  }

  /** Everything but the superblock and the unused blocks of [lo, hi) is as before. */
  ghost predicate OnlyUnusedWritten(d: Disk, e: Disk, used: set<nat>, lo: nat, hi: nat) {
    && |e| == |d|
    && (forall x: nat :: x != SUPER && (x < lo || x >= hi || x in used) ==> Read(e, x) == Read(d, x))
    && Isize(Read(e, SUPER)) == Isize(Read(d, SUPER)) && Fsize(Read(e, SUPER)) == Fsize(Read(d, SUPER))
  }

  /** The entries a cache holds after `k` pushes onto nothing, spilling whenever it is full. */
  function CacheCount(k: nat): nat {
    if k == 0 then 0 else (k - 1) % NICFREE + 1
  }

  /** Unused block `x` is pushed onto a full cache, and so gets the spilled entries. */
  predicate Spilled(used: set<nat>, x: nat, hi: nat) {
    var k := |Unused(used, x + 1, hi)|;
    x !in used && k > 0 && k % NICFREE == 0
  }

  /** What pushing leaves in the unused blocks of [lo, b): a full chain block where a
      spill went, and the old content everywhere else. */
  ghost predicate SpillsOnly(d: Disk, e: Disk, used: set<nat>, lo: nat, b: nat, hi: nat) {
    forall x: nat :: lo <= x < b && x !in used ==>
      if Spilled(used, x, hi) then ChainNfree(Read(e, x)) == NICFREE else Read(e, x) == Read(d, x)
  }

  /** What the list comes down to when the unused blocks of [lo, b) are pushed on top of
      those of [b, hi). */
  ghost function BottomRest(d: Disk, used: set<nat>, lo: nat, b: nat, hi: nat): Rest {
    var L := Unused(used, lo, hi);
    if Unused(used, b, hi) == [] && L != [] then ChainRest(Read(d, L[|L| - 1])) else LeftBy(d, Unused(used, b, hi))
  }

  lemma {:induction false} FreeDownSound(d: Disk, b: nat, lo: nat, used: set<nat>, now: nat)
    requires Geometry(d) && lo == Isize(d[SUPER]) && lo <= b <= Fsize(d[SUPER])
    requires OpenList(d, Unused(used, b, Fsize(d[SUPER])))
    requires Nfree(d[SUPER]) == CacheCount(|Unused(used, b, Fsize(d[SUPER]))|)
    ensures var r := FreeDown(d, b, lo, used, now);
            var hi := Fsize(d[SUPER]);
      && r.ok && OpenList(r.d, Unused(used, lo, hi)) && OnlyUnusedWritten(d, r.d, used, lo, b)
      && SpillsOnly(d, r.d, used, lo, b, hi)
      && LeftBy(r.d, Unused(used, lo, hi)) == BottomRest(d, used, lo, b, hi)
    decreases b
  {
    hide OpenList, FreeBlock, Isize, Fsize, Nfree, Unused, CacheCount, LeftBy, ChainRest, SpillsOnly,
         BottomRest, Spilled;
    var hi := Fsize(d[SUPER]);
    if b > lo && b - 1 !in used {
      PushUnused(d, b, lo, used, now);
      var e := FreeBlock(d, b - 1, now).d;
      FreeDownSound(e, b - 1, lo, used, now);
      var r := FreeDown(e, b - 1, lo, used, now);
      assert FreeDown(d, b, lo, used, now) == r;
      SpillStep(d, e, r.d, used, lo, b, hi);
      RestStep(d, e, used, lo, b, hi);
    } else if b > lo {
      UsedStep(used, b, hi);
      FreeDownSound(d, b - 1, lo, used, now);
      SkipStep(d, FreeDown(d, b - 1, lo, used, now).d, used, lo, b, hi);
    } else {
      NothingPushed(d, used, lo, hi);
    }
  }

  lemma NothingPushed(d: Disk, used: set<nat>, lo: nat, hi: nat)
    ensures SpillsOnly(d, d, used, lo, lo, hi) && BottomRest(d, used, lo, lo, hi) == LeftBy(d, Unused(used, lo, hi))
  {
  }

  lemma SkipStep(d: Disk, e: Disk, used: set<nat>, lo: nat, b: nat, hi: nat)
    requires lo < b <= hi && b - 1 in used && SpillsOnly(d, e, used, lo, b - 1, hi)
    ensures SpillsOnly(d, e, used, lo, b, hi) && BottomRest(d, used, lo, b, hi) == BottomRest(d, used, lo, b - 1, hi)
  {
    hide Spilled, ChainNfree, ChainRest, LeftBy;
    UsedStep(used, b, hi);
  }

  lemma SpillStep(d: Disk, e: Disk, f: Disk, used: set<nat>, lo: nat, b: nat, hi: nat)
    requires SUPER < lo < b <= hi && b - 1 !in used
    requires SpillsOnly(e, f, used, lo, b - 1, hi) && OnlyUnusedWritten(e, f, used, lo, b - 1)
    requires forall x: nat :: x != SUPER && x != b - 1 ==> Read(e, x) == Read(d, x)
    requires if Spilled(used, b - 1, hi) then ChainNfree(Read(e, b - 1)) == NICFREE
             else Read(e, b - 1) == Read(d, b - 1)
    ensures SpillsOnly(d, f, used, lo, b, hi)
  {
    hide Spilled, ChainNfree, Isize, Fsize, Read;
  }

  lemma RestStep(d: Disk, e: Disk, used: set<nat>, lo: nat, b: nat, hi: nat)
    requires lo < b <= hi && b - 1 !in used
    requires forall x: nat :: x != SUPER && x != b - 1 ==> Read(e, x) == Read(d, x)
    requires var L := Unused(used, b, hi);
      LeftBy(e, [b - 1] + L) == if L == [] then ChainRest(Read(d, b - 1)) else LeftBy(d, L)
    ensures BottomRest(d, used, lo, b, hi) == BottomRest(e, used, lo, b - 1, hi)
  {
    hide LeftBy, ChainRest, Unused;
    FreshStep(used, b, hi);
    BottomLater(used, lo, b - 1, hi);
  }

  lemma UsedStep(used: set<nat>, b: nat, hi: nat)
    requires 0 < b <= hi && b - 1 in used
    ensures Unused(used, b - 1, hi) == Unused(used, b, hi)
  {
  }

  lemma FreshStep(used: set<nat>, b: nat, hi: nat)
    requires 0 < b <= hi && b - 1 !in used
    ensures Unused(used, b - 1, hi) == [b - 1] + Unused(used, b, hi)
  {
  }

  lemma CountStep(k: nat)
    ensures CacheCount(k) == 0 <==> k == 0
    ensures CacheCount(k) == NICFREE <==> k > 0 && k % NICFREE == 0
    ensures CacheCount(k + 1) == if CacheCount(k) == NICFREE then 1 else CacheCount(k) + 1
  {
    if k > 0 {
      var q, r := (k - 1) / NICFREE, (k - 1) % NICFREE;
      assert k == NICFREE * q + r + 1;
      if r == NICFREE - 1 { assert k == NICFREE * (q + 1); }
    }
  }

  /** One push of the rebuild. */
  lemma PushUnused(d: Disk, b: nat, lo: nat, used: set<nat>, now: nat)
    requires Geometry(d) && lo == Isize(d[SUPER]) && lo < b <= Fsize(d[SUPER]) && b - 1 !in used
    requires OpenList(d, Unused(used, b, Fsize(d[SUPER])))
    requires Nfree(d[SUPER]) == CacheCount(|Unused(used, b, Fsize(d[SUPER]))|)
    ensures var r := FreeBlock(d, b - 1, now);
            var hi := Fsize(d[SUPER]);
            var L := Unused(used, b, hi);
      && r.ok && |r.d| == |d| && Unused(used, b - 1, hi) == [b - 1] + L
      && OpenList(r.d, [b - 1] + L) && Geometry(r.d)
      && Isize(r.d[SUPER]) == Isize(d[SUPER]) && Fsize(r.d[SUPER]) == Fsize(d[SUPER])
      && Nfree(r.d[SUPER]) == CacheCount(|L| + 1)
      && (forall x: nat :: x != SUPER && x != b - 1 ==> Read(r.d, x) == Read(d, x))
      && (if Spilled(used, b - 1, hi) then ChainNfree(Read(r.d, b - 1)) == NICFREE
          else Read(r.d, b - 1) == Read(d, b - 1))
      && LeftBy(r.d, [b - 1] + L) == if L == [] then ChainRest(Read(d, b - 1)) else LeftBy(d, L)
  {
    hide Chain, FreeBlock, Get16, Get32, CacheCount, Spill, LeftBy, ChainRest, Unused, ChainNfree, Nfree;
    FreshStep(used, b, Fsize(d[SUPER]));
    UnusedExact(used, b, Fsize(d[SUPER]));
    CountStep(|Unused(used, b, Fsize(d[SUPER]))|);
    PushStack(d, b - 1, now, Unused(used, b, Fsize(d[SUPER])));
  }

  /** The bottom of the finished list is the bottom of what was pushed first. */
  lemma {:induction false} BottomLater(used: set<nat>, lo: nat, b: nat, hi: nat)
    requires lo <= b
    ensures var L, M := Unused(used, b, hi), Unused(used, lo, hi);
      L != [] ==> M != [] && M[|M| - 1] == L[|L| - 1]
    decreases b - lo
  {
    if lo < b && lo < hi {
      BottomLater(used, lo + 1, b, hi);
    }
  }

  /** The rebuilt list behaves as the stack `L` of unused blocks: judged on the image before
      the rebuild, its bottom block reads as a cache that can be loaded and whose top entry
      alloc_block refuses. A chain pointer to a block that gets spilled entries is not refused. */
  predicate BottomStops(d: Disk, used: set<nat>, lo: nat, hi: nat) {
    var L := Unused(used, lo, hi);
    L == [] ||
    var r := ChainRest(Read(d, L[|L| - 1]));
    && 0 <= r.n <= NICFREE
    && (r.top == 0 || r.top < lo || r.top >= hi
        || (r.n == 1 && !Spilled(used, r.top, hi) && !(0 <= ChainNfree(Read(d, r.top)) <= NICFREE)))
  }

  /** The same for a well-formed list: no entry left, or the zero entry. */
  predicate BottomEnds(d: Disk, used: set<nat>, lo: nat, hi: nat) {
    var L := Unused(used, lo, hi);
    L == [] || Ended(ChainRest(Read(d, L[|L| - 1])))
  }

  /** Rebuilding never fails on a plausible partition that lies inside the image.
      Afterwards the free list pops exactly the data-area blocks no file or directory
      refers to, each once, in ascending order; the total and the report agree with it;
      and nothing but the superblock and those blocks is written. */
  lemma RebuildSound(d: Disk, now: nat)
    requires Geometry(d)
    ensures var r := Rebuild(d, now);
            var lo, hi := Isize(d[SUPER]), Fsize(d[SUPER]);
            var L := Unused(UsedBlocks(d), lo, hi);
      && r.ok && OpenList(r.d, L) && OnlyUnusedWritten(d, r.d, UsedBlocks(d), lo, hi)
      && SpillsOnly(d, r.d, UsedBlocks(d), lo, hi, hi)
      && LeftBy(r.d, L) == (if L == [] then Rest(0, 0) else ChainRest(Read(d, L[|L| - 1])))
      && r.report.Some? && Tfree(r.d[SUPER]) == |L| == r.report.value.freeBlocks
  {
    hide Isize, Fsize, ResetSuper, UsedBlocks, FreeDown, Unused, CheckBlocks, Chain, Tfree, Nfree, ChainRest,
         SpillsOnly, LeftBy;
    var sb, rep, used := d[SUPER], CheckBlocks(d), UsedBlocks(d);
    var lo, hi := Isize(sb), Fsize(sb);
    CheckExact(d);
    UsedWithin(d);
    UnusedCount(used, lo, hi);
    AfterReset(d, rep.value.freeInodes, now, used);
    var d1 := Write(d, SUPER, ResetSuper(sb, rep.value.freeInodes, now));
    FreeDownSound(d1, hi, lo, used, now);
    BottomUnused(used, lo, hi);
    SpillsFrom(d, d1, FreeDown(d1, hi, lo, used, now).d, used, lo, hi);
  }

  /** On an implausible superblock a rebuild is refused and writes nothing. */
  lemma RebuildRefused(d: Disk, now: nat)
    ensures !(2 <= Isize(Read(d, SUPER)) < Fsize(Read(d, SUPER))) ==> Rebuild(d, now) == Rebuilt(d, false, None)
  {
    hide FreeDown, ResetSuper, UsedBlocks;
    CheckExact(d);
  }

  lemma BottomUnused(used: set<nat>, lo: nat, hi: nat)
    ensures var L := Unused(used, lo, hi); L != [] ==> lo <= L[|L| - 1] < hi && L[|L| - 1] !in used
  {
    hide Unused;
    UnusedExact(used, lo, hi);
    var L := Unused(used, lo, hi);
    if L != [] { assert L[|L| - 1] in L; }
  }

  lemma SpillsFrom(d: Disk, d1: Disk, e: Disk, used: set<nat>, lo: nat, hi: nat)
    requires SUPER < lo && SpillsOnly(d1, e, used, lo, hi, hi)
    requires forall x: nat :: x != SUPER ==> Read(d1, x) == Read(d, x)
    ensures SpillsOnly(d, e, used, lo, hi, hi)
  {
    hide Spilled, ChainNfree, Read;
  }

  /** When the rebuilt list is a free list in full: it is well formed exactly when the
      highest unused block ends it, and successive allocations return exactly the unused
      blocks and are then refused exactly when that block stops them. */
  lemma RebuildBehaves(d: Disk, now: nat, times: nat -> nat, k: nat)
    requires Geometry(d)
    ensures var e := Rebuild(d, now).d;
            var used, lo, hi := UsedBlocks(d), Isize(d[SUPER]), Fsize(d[SUPER]);
      && (FreeOk(e) <==> BottomEnds(d, used, lo, hi))
      && (FreeOk(e) ==> FreeOf(e) == Unused(used, lo, hi))
      && (Yields(e, Unused(used, lo, hi), times, k) <==> BottomStops(d, used, lo, hi))
  {
    hide Get16, Get32, Rebuild, UsedBlocks, Unused, Chain, Left, LeftBy, Yields, ChainRest, Spilled, ChainNfree, Words;
    RebuildSound(d, now);
    var used, lo, hi := UsedBlocks(d), Isize(d[SUPER]), Fsize(d[SUPER]);
    var e, L := Rebuild(d, now).d, Unused(used, lo, hi);
    FreeOfIs(e, L);
    OpenYields(e, L, times, k);
    if L != [] {
      var r := ChainRest(Read(d, L[|L| - 1]));
      SpillRefuses(d, e, used, lo, hi, r);
    }
  }

  /** Whether the last cache refuses, judged before the rebuild. */
  lemma SpillRefuses(d: Disk, e: Disk, used: set<nat>, lo: nat, hi: nat, r: Rest)
    requires SUPER < lo && OnlyUnusedWritten(d, e, used, lo, hi) && SpillsOnly(d, e, used, lo, hi, hi)
    ensures Refuses(e, lo, hi, r) <==>
      (r.top == 0 || r.top < lo || r.top >= hi
       || (r.n == 1 && !Spilled(used, r.top, hi) && !(0 <= ChainNfree(Read(d, r.top)) <= NICFREE)))
  {
    hide ChainNfree, Read, Isize, Fsize, Unused;
  }

  /** The reset leaves an empty list. */
  lemma AfterReset(d: Disk, freeInodes: nat, now: nat, used: set<nat>)
    requires Geometry(d)
    ensures var e := Write(d, SUPER, ResetSuper(d[SUPER], freeInodes, now));
            var hi := Fsize(d[SUPER]);
      && Geometry(e) && Isize(e[SUPER]) == Isize(d[SUPER]) && Fsize(e[SUPER]) == hi
      && Unused(used, hi, hi) == [] && OpenList(e, []) && Nfree(e[SUPER]) == 0 && LeftBy(e, []) == Rest(0, 0)
      && forall x: nat :: x != SUPER ==> Read(e, x) == Read(d, x)
  {
    hide ResetSuper, Get16, Get32;
    EmptyList(Write(d, SUPER, ResetSuper(d[SUPER], freeInodes, now)));
  }

  lemma UsedWithin(d: Disk)
    ensures forall x :: x in UsedBlocks(d) ==> Isize(Read(d, SUPER)) <= x < Fsize(Read(d, SUPER))
  {
  }

  lemma EmptyList(d: Disk)
    requires Geometry(d) && Nfree(d[SUPER]) == 0 && Tfree(d[SUPER]) == 0
    ensures OpenList(d, [])
  {
  }

  // ----- the superblock after a rebuild -------------------------------------------------------

  /** The modified flag and the time are set. */
  predicate Stamped(sb: Block, now: nat) { sb[468] == 1 && Layout.Long(sb, 470) == now % 0x1_0000_0000 }

  ghost predicate KeptFrom(a: Block, b: Block) { forall k :: 0 <= k < BLOCK && Layout.Kept(k) ==> b[k] == a[k] }

  lemma {:induction false} FreeDownKeeps(d: Disk, b: nat, lo: nat, used: set<nat>, now: nat)
    requires SUPER < |d| && lo <= b && Isize(d[SUPER]) >= 2 && Stamped(d[SUPER], now)
    ensures var e := FreeDown(d, b, lo, used, now).d;
      |e| == |d| && KeptFrom(d[SUPER], e[SUPER]) && Stamped(e[SUPER], now)
    decreases b
  {
    hide FreeBlock, Layout.Long, Isize;
    if b > lo && b - 1 !in used {
      Layout.FreeUpdates(d, b - 1, now);
      var r := FreeBlock(d, b - 1, now);
      KeptIsize(d[SUPER], r.d[SUPER]);
      if r.ok { FreeDownKeeps(r.d, b - 1, lo, used, now); }
    } else if b > lo {
      FreeDownKeeps(d, b - 1, lo, used, now);
    }
  }

  lemma KeptIsize(a: Block, b: Block)
    requires KeptFrom(a, b)
    ensures Isize(b) == Isize(a)
  {
    assert Layout.Kept(0) && Layout.Kept(1);
  }

  lemma KeptCounts()
    ensures forall k :: k in {264, 265, 466, 467, 478, 479} ==> Layout.Kept(k)
  {
  }

  /** Bytes a rebuild leaves as they are: none of the allocator's fields, nor the free-inode counts
      and the lock bytes. */
  predicate Spared(k: nat) {
    Layout.Kept(k) && !(264 <= k < 266) && !(466 <= k < 468) && !(478 <= k < 480)
  }

  lemma ResetBytes(sb: Block, freeInodes: nat, now: nat)
    ensures var r := ResetSuper(sb, freeInodes, now);
      && Layout.Word(r, 264) == 0 && Layout.Word(r, 478) == freeInodes % 0x1_0000 && r[466] == 0 && r[467] == 0
      && Stamped(r, now) && forall k :: 0 <= k < BLOCK && Spared(k) ==> r[k] == sb[k]
  {
    hide Get16, Get32, Layout.Long, Touch, Words, View;
    var a := ClearFree(SetNfree(sb, 0));
    var b := SetTfree(a, 0);
    var c1 := Set16(b, SB_NINODE, 0);
    var c2 := Set16(c1, SB_TINODE, freeInodes % 0x10000);
    var c := c2[SB_FLOCK := 0][SB_ILOCK := 0];
    Layout.Touches(c, now);
    Layout.SameFields(c1, 264);
    Layout.SameFields(c2, 478);
    var r := Touch(c, now);
    KeptCounts();
    assert r[264] == c1[264] && r[265] == c1[265] && r[478] == c2[478] && r[479] == c2[479];
  }

  /** After a rebuild the superblock says how many inodes are free, modulo 2^16, has an empty inode
      cache and both locks clear, and is stamped; everything else but the free list is as before. */
  lemma RebuiltSuper(d: Disk, now: nat)
    requires Geometry(d)
    ensures var e := Rebuild(d, now).d;
      && |e| == |d|
      && Layout.Word(e[SUPER], 478) == |FreeSlots(d)| % 0x1_0000 && Layout.Word(e[SUPER], 264) == 0
      && e[SUPER][466] == 0 && e[SUPER][467] == 0 && Stamped(e[SUPER], now)
      && forall k :: 0 <= k < BLOCK && Spared(k) ==> e[SUPER][k] == d[SUPER][k]
  {
    hide ResetSuper, CheckBlocks, FreeDown, UsedBlocks, FreeSlots, Isize, Fsize, Layout.Long;
    CheckExact(d);
    var sb, rep := d[SUPER], CheckBlocks(d);
    ResetBytes(sb, rep.value.freeInodes, now);
    AfterReset(d, rep.value.freeInodes, now, {});
    var d1 := Write(d, SUPER, ResetSuper(sb, rep.value.freeInodes, now));
    FreeDownKeeps(d1, Fsize(sb), Isize(sb), UsedBlocks(d), now);
    var e := Rebuild(d, now).d;
    assert e == FreeDown(d1, Fsize(sb), Isize(sb), UsedBlocks(d), now).d;
    KeptCounts();
  }

  // ----- files survive ---------------------------------------------------------------------

  lemma {:induction false} ClaimsInclude(d: Disk, n: nat, ino: nat, v: W.Visit)
    requires 1 <= ino <= n && Stat(d, ino).Some? && (Stat(d, ino).value.IsFile() || Stat(d, ino).value.IsDir())
    requires v in W.WalkInode(d, Stat(d, ino).value.addrs, Stat(d, ino).value.size).visits
    ensures Claim(ino, v.rel) in Claims(d, n)
    decreases n
  {
    hide Stat, W.WalkInode;
    if ino == n {
      var vs := W.WalkInode(d, Stat(d, ino).value.addrs, Stat(d, ino).value.size).visits;
      var i :| 0 <= i < |vs| && vs[i] == v;
      assert ClaimsOf(d, n)[i] == Claim(ino, v.rel);
      assert Claim(ino, v.rel) in ClaimsOf(d, n);
    } else {
      ClaimsInclude(d, n - 1, ino, v);
    }
  }

  /** A rebuild changes no inode, and every file or directory whose pointers are all
      in range reads back byte for byte as before. */
  lemma RebuildKeepsFiles(d: Disk, po: nat, now: nat, ino: nat)
    requires Geometry(d) && 1 <= ino <= InodeCount(d[SUPER])
    ensures var e := Rebuild(d, now).d;
      && Stat(e, ino) == Stat(d, ino)
      && (Stat(d, ino).Some? && (Stat(d, ino).value.IsFile() || Stat(d, ino).value.IsDir()) ==>
            var i := Stat(d, ino).value;
            (forall v :: v in W.WalkInode(d, i.addrs, i.size).visits ==> Isize(d[SUPER]) <= v.rel < Fsize(d[SUPER])) ==>
              && W.ReadFile(e, po, i.addrs, i.size) == W.ReadFile(d, po, i.addrs, i.size)
              && W.WalkInode(e, i.addrs, i.size) == W.WalkInode(d, i.addrs, i.size))
  {
    hide Get16, Get32, Stat, Rebuild, W.WalkInode, W.ReadFile;
    RebuildSound(d, now);
    var e := Rebuild(d, now).d;
    assert BlockOf(ino) < Isize(d[SUPER]) && BlockOf(ino) != SUPER;
    StatFrame(d, e, ino);
    if Stat(d, ino).Some? {
      var i := Stat(d, ino).value;
      if (i.IsFile() || i.IsDir())
         && forall v :: v in W.WalkInode(d, i.addrs, i.size).visits ==> Isize(d[SUPER]) <= v.rel < Fsize(d[SUPER]) {
        forall v | v in W.WalkInode(d, i.addrs, i.size).visits
          ensures Read(e, v.rel) == Read(d, v.rel)
        {
          ClaimsInclude(d, InodeCount(d[SUPER]), ino, v);
          assert v.rel in UsedBlocks(d);
        }
        W.VisitedFrame(d, e, po, i.addrs, i.size);
      }
    }
  }

  // ----- allocation after a rebuild ----------------------------------------------------------

  datatype Allocated = Allocated(d: Disk, blocks: seq<nat>)

  /** `k` successive allocations, as long as they succeed. */
  function AllocMany(d: Disk, k: nat, now: nat): Allocated
    decreases k
  {
    if k == 0 then Allocated(d, []) else
    var a := AllocBlock(d, now);
    if !a.ok then Allocated(a.d, []) else
    var r := AllocMany(a.d, k - 1, now);
    Allocated(r.d, [a.b] + r.blocks)
  }

  /** Allocations from an open list pop it in order; only the last needs more, that what
      is left can be loaded. */
  lemma {:induction false} AllocManyPops(d: Disk, L: seq<nat>, k: nat, now: nat)
    requires OpenList(d, L) && k <= |L|
    ensures AllocMany(d, k, now).blocks == if k < |L| || 0 <= LeftBy(d, L).n <= NICFREE then L[..k] else L[..k - 1]
    decreases k
  {
    hide OpenList, LeftBy, AllocBlock, AllocMany, Get16, Get32;
    OpenInside(d, L);
    if k == 0 {
      assert L[..k] == [] && AllocMany(d, k, now).blocks == [] by { NoneAllocated(d, now); }
      if L == [] { EmptyRest(d); }
    } else {
      OneAllocated(d, k, now);
      if |L| == 1 && Nfree(d[SUPER]) == 1 && !(0 <= ChainNfree(Read(d, L[0])) <= NICFREE) {
        BadChainRefused(d, now, L);
      } else {
        PopStack(d, now, L);
        PopPrefix(L, k);
        if |L| > 1 {
          AllocManyPops(AllocBlock(d, now).d, L[1..], k - 1, now);
        } else {
          LastCount(d, now, L);
          NoneAllocated(AllocBlock(d, now).d, now);
        }
      }
    }
  }

  lemma OpenInside(d: Disk, L: seq<nat>)
    requires OpenList(d, L)
    ensures Geometry(d)
  {
  }

  lemma NoneAllocated(d: Disk, now: nat)
    ensures AllocMany(d, 0, now).blocks == []
  {
  }

  lemma OneAllocated(d: Disk, k: nat, now: nat)
    requires k > 0
    ensures var a := AllocBlock(d, now);
      AllocMany(d, k, now).blocks == if a.ok then [a.b] + AllocMany(a.d, k - 1, now).blocks else []
  {
    hide AllocBlock;
  }

  lemma PopPrefix(L: seq<nat>, k: nat)
    requires 1 <= k <= |L|
    ensures L[..k] == [L[0]] + L[1..][..k - 1]
    ensures k >= 2 ==> L[..k - 1] == [L[0]] + L[1..][..k - 2]
  {
  }

  lemma LastCount(d: Disk, now: nat, L: seq<nat>)
    requires OpenList(d, L) && |L| == 1
    requires Nfree(d[SUPER]) == 1 ==> 0 <= ChainNfree(Read(d, L[0])) <= NICFREE
    ensures 0 <= LeftBy(d, L).n <= NICFREE
  {
    hide Get16, Get32, Words;
    var n, f := Nfree(d[SUPER]), Words(d[SUPER], SB_FREE);
    if n > 1 { assert L[1..] == [] && Left(d, n - 1, f, []) == RestOf(n - 1, f); } else { LeftOne(d, n, f, L); }
  }

  /** After a rebuild successive allocations hand out the unused blocks in ascending
      order. All are handed out exactly when the count word of the last, as it was before
      the rebuild, is one a cache can hold; otherwise that one block stays behind. */
  lemma AllocAfterRebuild(d: Disk, k: nat, now: nat)
    requires Geometry(d)
    requires k <= |Unused(UsedBlocks(d), Isize(d[SUPER]), Fsize(d[SUPER]))|
    ensures var L := Unused(UsedBlocks(d), Isize(d[SUPER]), Fsize(d[SUPER]));
      && AllocMany(Rebuild(d, now).d, k, now).blocks ==
           (if k < |L| || L == [] || 0 <= ChainNfree(Read(d, L[|L| - 1])) <= NICFREE then L[..k] else L[..k - 1])
      && forall i, j :: 0 <= i < j < k ==> L[i] < L[j]
  {
    hide Chain, Get16, Get32, Words, Rebuild, UsedBlocks, AllocMany, LeftBy, SpillsOnly, Unused;
    RebuildSound(d, now);
    var L := Unused(UsedBlocks(d), Isize(d[SUPER]), Fsize(d[SUPER]));
    UnusedExact(UsedBlocks(d), Isize(d[SUPER]), Fsize(d[SUPER]));
    AllocManyPops(Rebuild(d, now).d, L, k, now);
  }
}
