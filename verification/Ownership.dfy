/** Runs of operations on several open files of one partition: every data block
    belongs to one file's tree or to the free list, always and exactly once. */
module Ownership {
  import opened Basics
  import opened Bytes
  import opened FreeList
  import opened BlockTree
  import opened FileMap
  import opened Prune
  import opened Grow
  import opened Shrink
  import opened OpenGrow
  import opened InodeTable
  import opened FileIo
  import W = Walk

  /** An inode as the program holds it in memory. */
  datatype OpenFile = OpenFile(ino: nat, inode: Inode)

  datatype World = World(d: Disk, files: seq<OpenFile>)

  ghost function Owned(d: Disk, files: seq<OpenFile>): multiset<nat> {
    if files == [] then multiset{} else MsAll(Forest(d, files[0].inode.addrs)) + Owned(d, files[1..])
  }

  ghost predicate ExactlyOnce(m: multiset<nat>, lo: nat, hi: nat) {
    forall x :: m[x] == if lo <= x < hi then 1 else 0
  }

  /** The invariant: each block of the data area is owned exactly once. */
  ghost predicate Sound(w: World) {
    && FreeOk(w.d)
    && (forall i :: 0 <= i < |w.files| ==> InTable(w.d, w.files[i].ino))
    && (forall i, j :: 0 <= i < j < |w.files| ==> w.files[i].ino != w.files[j].ino)
    && ExactlyOnce(Owned(w.d, w.files) + multiset(FreeOf(w.d)), Isize(w.d[SUPER]), Fsize(w.d[SUPER]))
  }

  // ----- operations -------------------------------------------------------------------

  datatype Op =
    | GrowTo(i: nat, n: nat)
    | ShrinkTo(i: nat, n: nat)
    | Replace(i: nat, data: seq<byte>)

  function Step(w: World, op: Op, now: nat): World {
    if op.i >= |w.files| then w else
    var f := w.files[op.i];
    match op
    case GrowTo(_, n) =>
      var r := GrowFrom(w.d, f.inode.addrs, 0, n, now);
      World(r.d, w.files[op.i := f.(inode := f.inode.(addrs := r.addrs))])
    case ShrinkTo(_, n) =>
      var r := ShrinkFrom(w.d, f.inode.addrs, 0, n, now);
      World(r.d, w.files[op.i := f.(inode := f.inode.(addrs := r.addrs))])
    case Replace(_, data) =>
      if f.ino < 1 then w else
      var r := WriteFile(w.d, f.ino, f.inode, data, now);
      World(r.d, w.files[op.i := f.(inode := r.inode)])
  }

  /** Cuts may start: nothing is to be freed, or the free list has an entry, or the first
      block that would be freed holds a cache that ends there. */
  ghost predicate Allowed(w: World, op: Op)
    requires FreeOk(w.d)
  {
    op.i < |w.files| ==>
      var f := w.files[op.i];
      match op
      case GrowTo(_, _) => true
      case ShrinkTo(_, n) => CanFree(w.d, FreedForest(Forest(w.d, f.inode.addrs), 0, n))
      case Replace(_, data) => f.inode.IsFile() ==> CanResize(w.d, f.inode, W.BlocksFor(|data|))
  }

  // ----- one file among many -----------------------------------------------------------

  lemma {:induction false} OwnedSplit(d: Disk, files: seq<OpenFile>, i: nat)
    requires i < |files|
    ensures Owned(d, files) == MsAll(Forest(d, files[i].inode.addrs)) + Owned(d, files[..i] + files[i + 1..])
    decreases |files|
  {
    hide Forest, MsAll;
    var rest := files[..i] + files[i + 1..];
    if i == 0 {
      assert rest == files[1..];
    } else {
      OwnedSplit(d, files[1..], i - 1);
      assert rest[1..] == files[1..][..i - 1] + files[1..][i..];
    }
  }

  lemma {:induction false} OwnedFrame(d: Disk, e: Disk, files: seq<OpenFile>)
    requires forall x :: x in Owned(d, files) ==> Read(e, x) == Read(d, x)
    ensures Owned(e, files) == Owned(d, files)
    ensures forall i :: 0 <= i < |files| ==> Forest(e, files[i].inode.addrs) == Forest(d, files[i].inode.addrs)
  {
    hide Forest, MsAll, NodesAll;
    if files != [] {
      var f := Forest(d, files[0].inode.addrs);
      NodesAllInMs(f);
      ForestFrame(d, e, files[0].inode.addrs);
      OwnedFrame(d, e, files[1..]);
    }
  }

  lemma ForestMine(w: World, i: nat)
    requires Sound(w) && i < |w.files|
    ensures FileReady(w.d, w.files[i].inode.addrs) && InTable(w.d, w.files[i].ino)
  {
    hide FreeRep, Forest, MsAll;
    var m := MsAll(Forest(w.d, w.files[i].inode.addrs));
    OwnedSplit(w.d, w.files, i);
    forall x
      ensures (m + multiset(FreeOf(w.d)))[x] <= 1 && (x in m ==> Isize(w.d[SUPER]) <= x < Fsize(w.d[SUPER]))
    {
      assert (Owned(w.d, w.files) + multiset(FreeOf(w.d)))[x] >= (m + multiset(FreeOf(w.d)))[x];
    }
  }

  lemma SameTotal(m: multiset<nat>, f: multiset<nat>, m': multiset<nat>, f': multiset<nat>, o: multiset<nat>)
    requires m' + f' == m + f
    ensures (m' + o) + f' == (m + o) + f
  {
    assert (m' + o) + f' == (m' + f') + o;
    assert (m + o) + f == (m + f) + o;
  }

  /** A step on one file keeps the invariant, and every other file keeps its inode,
      its block map and its content. */
  lemma StepFramesOthers(w: World, i: nat, e: Disk, addrs': Addrs, inode': Inode)
    requires Sound(w) && i < |w.files| && inode'.addrs == addrs'
    requires w.files[i].ino >= 1 && FileStep(w.d, w.files[i].inode.addrs, e, addrs', w.files[i].ino)
    ensures var w' := World(e, w.files[i := w.files[i].(inode := inode')]);
      && Sound(w')
      && forall j :: 0 <= j < |w.files| && j != i ==> Untouched(w, w', j)
  {
    hide FreeRep, Forest, MsAll, Stat, FreeOf;
    var f, rest := w.files[i], w.files[..i] + w.files[i + 1..];
    var files' := w.files[i := f.(inode := inode')];
    var m, m', o := MsAll(Forest(w.d, f.inode.addrs)), MsAll(Forest(e, addrs')), Owned(w.d, rest);
    OwnedSplit(w.d, w.files, i);
    OwnedSplit(e, files', i);
    assert files'[..i] + files'[i + 1..] == rest;
    forall x | x in o
      ensures Read(e, x) == Read(w.d, x)
    {
      assert (Owned(w.d, w.files) + multiset(FreeOf(w.d)))[x] == m[x] + o[x] + multiset(FreeOf(w.d))[x];
    }
    OwnedFrame(w.d, e, rest);
    SameTotal(m, multiset(FreeOf(w.d)), m', multiset(FreeOf(e)), o);
    assert Owned(e, files') + multiset(FreeOf(e)) == Owned(w.d, w.files) + multiset(FreeOf(w.d));
    StepKeeps(w.d, f.inode.addrs, e, addrs', f.ino);
    forall j | 0 <= j < |w.files| && j != i
      ensures Untouched(w, World(e, files'), j)
    {
      OtherUntouched(w, i, j, e, addrs', files');
    }
  }

  /** File j keeps its inode, in memory and on disk, its block map and its data. */
  ghost predicate Untouched(w: World, w': World, j: nat)
    requires j < |w.files|
  {
    && |w'.files| == |w.files| && w'.files[j] == w.files[j]
    && Stat(w'.d, w.files[j].ino) == Stat(w.d, w.files[j].ino)
    && Forest(w'.d, w.files[j].inode.addrs) == Forest(w.d, w.files[j].inode.addrs)
    && forall k: nat :: W.FileByte(w'.d, Forest(w'.d, w.files[j].inode.addrs), k)
                     == W.FileByte(w.d, Forest(w.d, w.files[j].inode.addrs), k)
  }

  lemma OtherUntouched(w: World, i: nat, j: nat, e: Disk, addrs': Addrs, files': seq<OpenFile>)
    requires Sound(w) && i < |w.files| && j < |w.files| && j != i
    requires |files'| == |w.files| && files'[j] == w.files[j]
    requires w.files[i].ino >= 1 && FileStep(w.d, w.files[i].inode.addrs, e, addrs', w.files[i].ino)
    ensures Untouched(w, World(e, files'), j)
  {
    hide FreeRep, Forest, MsAll, Stat, FreeOf, FileAt, NodesAll;
    var f, g := Forest(w.d, w.files[i].inode.addrs), Forest(w.d, w.files[j].inode.addrs);
    ForestMine(w, j);
    ForestMine(w, i);
    FileNoDup(w.d, w.files[j].inode.addrs);
    assert w.files[i].ino != w.files[j].ino;
    forall x | x in MsAll(g)
      ensures Read(e, x) == Read(w.d, x)
    {
      TwoFilesApart(w, i, j, x);
      ReadyApart(w.d, MsAll(g), x);
    }
    NodesAllInMs(g);
    ForestFrame(w.d, e, w.files[j].inode.addrs);
    forall k: nat
      ensures W.FileByte(e, g, k) == W.FileByte(w.d, g, k)
    {
      if FileAt(g, k / BLOCK) != 0 { FileBlockIn(g, k / BLOCK); }
    }
  }

  lemma TwoFilesApart(w: World, i: nat, j: nat, x: nat)
    requires Sound(w) && i < |w.files| && j < |w.files| && j != i
    requires x in MsAll(Forest(w.d, w.files[j].inode.addrs))
    ensures x !in MsAll(Forest(w.d, w.files[i].inode.addrs))
  {
    hide FreeRep, Forest, MsAll, FreeOf;
    var rest := w.files[..i] + w.files[i + 1..];
    OwnedSplit(w.d, w.files, i);
    var j' := if j < i then j else j - 1;
    assert rest[j'] == w.files[j];
    OwnedSplit(w.d, rest, j');
    assert (Owned(w.d, w.files) + multiset(FreeOf(w.d)))[x] <= 1;
  }

  /** For a shrink that condition is exact: the step keeps the invariant if and only if
      it is allowed. */
  lemma ShrinkAllowedExactly(w: World, i: nat, n: nat, now: nat)
    requires Sound(w)
    ensures Sound(Step(w, ShrinkTo(i, n), now)) <==> Allowed(w, ShrinkTo(i, n))
  {
    hide FreeRep, FreeOf, MsAll, ShrinkFrom, CanFree, FileStep, Forest, Stat, FileReady, Owned, FreeOk,
         FreedForest, Released, PruneForest, FileAt, NodesAll;
    if Allowed(w, ShrinkTo(i, n)) {
      StepSound(w, ShrinkTo(i, n), now);
    } else {
      ForestMine(w, i);
      ShrinkSound(w.d, w.files[i].inode.addrs, n, now);
    }
  }

  /** For a write as well, as long as a cut that spoils the free list is not followed by asking
      it for more blocks than it has. (`FileIo.BadOverwrite` shows what asking for more can do.) */
  lemma ReplaceAllowedExactly(w: World, i: nat, data: seq<byte>, now: nat)
    requires Sound(w)
    requires i < |w.files| && w.files[i].inode.IsFile() ==> Enough(w.d, w.files[i].inode, W.BlocksFor(|data|))
    ensures Sound(Step(w, Replace(i, data), now)) <==> Allowed(w, Replace(i, data))
  {
    hide FreeRep, FreeOf, MsAll, WriteFile, CanResize, FileStep, Forest, Stat, FileReady, Owned, FreeOk,
         Fitting, Enough, Supply, Wanted, Redistributed, Irregular, Written;
    if Allowed(w, Replace(i, data)) {
      StepSound(w, Replace(i, data), now);
    } else {
      ForestMine(w, i);
      WriteFileSound(w.d, w.files[i].ino, w.files[i].inode, data, now);
    }
  }

  // ----- runs ------------------------------------------------------------------------------

  /** An allowed write is a step on its file. */
  lemma WriteIsStep(d: Disk, ino: nat, inode: Inode, data: seq<byte>, now: nat)
    requires InTable(d, ino) && FileReady(d, inode.addrs)
    requires inode.IsFile() ==> CanResize(d, inode, W.BlocksFor(|data|))
    ensures var r := WriteFile(d, ino, inode, data, now);
      && FileStep(d, inode.addrs, r.d, r.inode.addrs, ino)
      && (r.ok ==> inode.IsFile() && Written(ino, inode, data, now, r))
  {
    hide FreeRep, FreeOf, MsAll, CanResize, FileStep, Forest, FileReady, Resize, FreeOk, Written, Fitting,
         Redistributed, Irregular;
    if inode.IsFile() {
      WriteFileSound(d, ino, inode, data, now);
    } else {
      NoStep(d, inode.addrs, ino);
    }
  }

  /** Every allowed operation, successful or not, keeps the ownership invariant and leaves
      every other file untouched. */
  lemma StepSound(w: World, op: Op, now: nat)
    requires Sound(w) && Allowed(w, op)
    ensures Sound(Step(w, op, now)) && |Step(w, op, now).files| == |w.files|
    ensures forall j :: 0 <= j < |w.files| && j != op.i ==> Untouched(w, Step(w, op, now), j)
  {
    hide FreeRep, FreeOf, MsAll, GrowFrom, ShrinkFrom, WriteFile, CanFree, CanResize, FileStep, Forest, Stat,
         FileReady;
    if op.i < |w.files| {
      var f := w.files[op.i];
      ForestMine(w, op.i);
      assert InTable(w.d, f.ino);
      match op
      case GrowTo(_, n) =>
        GrowIsStep(w.d, f.inode.addrs, n, now, f.ino);
        var r := GrowFrom(w.d, f.inode.addrs, 0, n, now);
        StepFramesOthers(w, op.i, r.d, r.addrs, f.inode.(addrs := r.addrs));
      case ShrinkTo(_, n) =>
        ShrinkIsStep(w.d, f.inode.addrs, n, now, f.ino);
        var r := ShrinkFrom(w.d, f.inode.addrs, 0, n, now);
        StepFramesOthers(w, op.i, r.d, r.addrs, f.inode.(addrs := r.addrs));
      case Replace(_, data) =>
        WriteIsStep(w.d, f.ino, f.inode, data, now);
        var r := WriteFile(w.d, f.ino, f.inode, data, now);
        StepFramesOthers(w, op.i, r.d, r.inode.addrs, r.inode);
    }
  }

  function Run(w: World, ops: seq<Op>, clock: nat -> nat): World
    decreases |ops|
  {
    if ops == [] then w else Run(Step(w, ops[0], clock(|ops|)), ops[1..], clock)
  }

  /** Each operation of the run is allowed when its turn comes. */
  ghost predicate RunAllowed(w: World, ops: seq<Op>, clock: nat -> nat)
    decreases |ops|
  {
    ops != [] ==>
      && FreeOk(w.d) && Allowed(w, ops[0])
      && RunAllowed(Step(w, ops[0], clock(|ops|)), ops[1..], clock)
  }

  /** Over any run the invariant holds, and a file no operation names is the same at
      the end as at the start. */
  lemma {:induction false} RunSound(w: World, ops: seq<Op>, clock: nat -> nat)
    requires Sound(w) && RunAllowed(w, ops, clock)
    ensures Sound(Run(w, ops, clock)) && |Run(w, ops, clock).files| == |w.files|
    ensures forall j :: 0 <= j < |w.files| && (forall o :: o in ops ==> o.i != j) ==>
        Untouched(w, Run(w, ops, clock), j)
    decreases |ops|
  {
    hide Sound, Allowed, Step, W.FileByte, Stat, Forest;
    if ops != [] {
      var w1 := Step(w, ops[0], clock(|ops|));
      StepSound(w, ops[0], clock(|ops|));
      RunSound(w1, ops[1..], clock);
      forall j | 0 <= j < |w.files| && (forall o :: o in ops ==> o.i != j)
        ensures Untouched(w, Run(w, ops, clock), j)
      {
        assert ops[0] in ops;
        assert forall o :: o in ops[1..] ==> o in ops;
        assert Untouched(w, w1, j) && Untouched(w1, Run(w1, ops[1..], clock), j);
      }
    }
  }

  /** Never both, never lost: in a sound state a data-area block is on the free list
      exactly when no file owns it. */
  lemma OwnedOrFree(w: World, b: nat)
    requires Sound(w) && Isize(w.d[SUPER]) <= b < Fsize(w.d[SUPER])
    ensures b in FreeOf(w.d) <==> b !in Owned(w.d, w.files)
    ensures Owned(w.d, w.files)[b] <= 1
  {
    hide FreeRep, FreeOf, Owned;
    assert (Owned(w.d, w.files) + multiset(FreeOf(w.d)))[b] == 1;
    assert b in FreeOf(w.d) <==> b in multiset(FreeOf(w.d));
  }

  /** A successful write is not disturbed by anything done later to other files: after
      any further run that does not name the file, fetching its inode afresh and
      reading it gives exactly the data written. */
  lemma WriteSurvivesRun(w: World, po: nat, i: nat, data: seq<byte>, now: nat, later: seq<Op>, clock: nat -> nat)
    requires Sound(w) && i < |w.files| && Allowed(w, Replace(i, data)) && w.files[i].ino >= 1
    requires var r := WriteFile(w.d, w.files[i].ino, w.files[i].inode, data, now); r.ok && AddrsFit(r.inode.addrs)
    requires RunAllowed(Step(w, Replace(i, data), now), later, clock) && forall o :: o in later ==> o.i != i
    ensures var e := Run(Step(w, Replace(i, data), now), later, clock).d;
            var st := Stat(e, w.files[i].ino);
      st.Some? && W.ReadFile(e, po, st.value.addrs, st.value.size) == data
  {
    hide FreeRep, FreeOf, FreeOk, MsAll, WriteFile, CanResize, FileStep, Forest, Stat, FileReady, RunAllowed, Run,
         W.ReadFile, FileAt, Sound, Truncated, AddrsFit;
    var f := w.files[i];
    ForestMine(w, i);
    StepSound(w, Replace(i, data), now);
    WriteIsStep(w.d, f.ino, f.inode, data, now);
    var r := WriteFile(w.d, f.ino, f.inode, data, now);
    var w1 := Step(w, Replace(i, data), now);
    assert w1.files[i].inode == r.inode && w1.files[i].ino == f.ino;
    RunSound(w1, later, clock);
    var e := Run(w1, later, clock).d;
    assert Untouched(w1, Run(w1, later, clock), i);
    CutAddrs(r.inode);
    W.ReadFileBytes(e, po, r.inode.addrs, |data|);
  }
}
