/** Which pointers survive a cut, position by position, and so exactly which blocks are
    given back: the data blocks past the cut, and the indirect blocks with nothing left
    below them before it. */
module CutExact {
  import opened Bytes
  import opened BlockTree
  import opened FileMap
  import opened Prune

  // ----- positions ------------------------------------------------------------------

  /** `r` lies strictly below `p`. */
  ghost predicate Below(p: seq<nat>, r: seq<nat>) {
    |p| < |r| && r[..|p|] == p
  }

  /** Strictly below `p` some pointer is set whose leaves all come before the first `keep`. */
  ghost predicate KeepsSome(t: Tree, depth: nat, keep: nat, p: seq<nat>) {
    exists r :: Pos(r, depth) && Below(p, r) && End(r, depth) <= keep && Ptr(t, r) != 0
  }

  lemma {:induction false} StartEnd(p: seq<nat>, depth: nat)
    requires Pos(p, depth)
    ensures 0 <= Start(p, depth) < End(p, depth) <= Span(depth)
    decreases depth
  {
    if p != [] {
      StartEnd(p[1..], depth - 1);
      var s := Span(depth - 1);
      assert (p[0] + 1) * s == p[0] * s + s;
      assert p[0] * s + s <= FANOUT * s by { TimesUp(p[0] + 1, FANOUT, s); }
    }
  }

  lemma TimesUp(a: nat, b: nat, s: nat)
    requires a <= b
    ensures a * s <= b * s
  {
  }

  /** A position below another covers part of its leaves. */
  lemma {:induction false} BelowInside(p: seq<nat>, r: seq<nat>, depth: nat)
    requires Pos(p, depth) && Pos(r, depth) && Below(p, r)
    ensures Start(p, depth) <= Start(r, depth) && End(r, depth) <= End(p, depth)
    decreases depth
  {
    if p == [] {
      StartEnd(r, depth);
    } else {
      assert r[0] == p[0] && r[1..][..|p| - 1] == p[1..];
      BelowInside(p[1..], r[1..], depth - 1);
    }
  }

  /** A pointer below a position needs a pointer there. */
  lemma {:induction false} PtrAbove(t: Tree, p: seq<nat>, r: seq<nat>, depth: nat)
    requires Shape(t, depth) && Below(p, r) && Ptr(t, r) != 0
    ensures Ptr(t, p) != 0
    decreases depth
  {
    if p != [] && t.Indir? {
      assert r[0] == p[0] && r[1..][..|p| - 1] == p[1..];
      PtrAbove(t.kids[p[0]], p[1..], r[1..], depth - 1);
    }
  }

  /** At a leaf the pointer is the data block. */
  lemma {:induction false} LeafPtr(t: Tree, p: seq<nat>, depth: nat)
    requires Shape(t, depth) && GoodPath(p, depth)
    ensures Ptr(t, p) == At(t, p) && End(p, depth) == Index(p) + 1 && Start(p, depth) == Index(p)
    decreases depth
  {
    if p != [] {
      if t.Indir? { LeafPtr(t.kids[p[0]], p[1..], depth - 1); } else { LeafPtr(Hole, p[1..], depth - 1); }
    }
  }

  // ----- what pruning leaves ----------------------------------------------------------

  lemma KidEnd(slot: nat, q: seq<nat>, depth: nat, keep: nat)
    requires depth >= 1 && slot < FANOUT && Pos(q, depth - 1)
    ensures Pos([slot] + q, depth) && End([slot] + q, depth) == slot * Span(depth - 1) + End(q, depth - 1)
    ensures End([slot] + q, depth) <= keep <==> End(q, depth - 1) <= KeepBelow(depth, slot, keep)
  {
    assert ([slot] + q)[1..] == q;
    StartEnd(q, depth - 1);
  }

  lemma KidKeeps(t: Tree, depth: nat, keep: nat, slot: nat, q: seq<nat>)
    requires depth >= 1 && Shape(t, depth) && t.Indir? && slot < FANOUT && Pos(q, depth - 1)
    ensures KeepsSome(t, depth, keep, [slot] + q) <==>
        KeepsSome(t.kids[slot], depth - 1, KeepBelow(depth, slot, keep), q)
  {
    hide End, Ptr, KeepBelow;
    var p, kb := [slot] + q, KeepBelow(depth, slot, keep);
    if r :| Pos(r, depth) && Below(p, r) && End(r, depth) <= keep && Ptr(t, r) != 0 {
      var r' := r[1..];
      assert r[0] == p[0] == slot && r == [slot] + r';
      assert r'[..|q|] == r[1..|p|] == p[1..] == q;
      KidEnd(slot, r', depth, keep);
      KidPtr(t, depth, slot, r');
    }
    if r' :| Pos(r', depth - 1) && Below(q, r') && End(r', depth - 1) <= kb && Ptr(t.kids[slot], r') != 0 {
      var r := [slot] + r';
      KidEnd(slot, r', depth, keep);
      KidPtr(t, depth, slot, r');
      assert r[..|p|] == p;
    }
  }

  lemma KidPtr(t: Tree, depth: nat, slot: nat, q: seq<nat>)
    requires depth >= 1 && Shape(t, depth) && t.Indir? && slot < FANOUT
    ensures Ptr(t, [slot] + q) == Ptr(t.kids[slot], q)
  {
    assert ([slot] + q)[1..] == q;
  }

  /** Pruning keeps exactly the pointers whose leaves all come before the cut, and those
      with such a pointer below them; the root only in the second case. */
  lemma {:induction false} PrunePtr(t: Tree, depth: nat, keep: nat, p: seq<nat>)
    requires depth >= 1 && Shape(t, depth) && Pos(p, depth)
    ensures Ptr(PruneTree(t, depth, keep), p)
         == if (p != [] && End(p, depth) <= keep) || KeepsSome(t, depth, keep, p) then Ptr(t, p) else 0
    decreases depth, 3
  {
    hide PruneFrom, End, KeepBelow, KeepsSome;
    if t.Indir? {
      var ks := PruneFrom(t.kids, 0, depth, keep);
      if p == [] {
        PruneRoot(t, depth, keep);
      } else {
        var slot, q := p[0], p[1..];
        assert p == [slot] + q && Shape(t.kids[slot], depth - 1);
        PruneFromAt(t.kids, 0, depth, keep, slot);
        PruneKidPtr(t.kids[slot], depth, slot, keep, q);
        KidEnd(slot, q, depth, keep);
        KidKeeps(t, depth, keep, slot, q);
        KidPtr(t, depth, slot, q);
        if AllHoles(ks) { assert ks[slot].Hole?; }
      }
    }
  }

  lemma {:induction false} PruneKidPtr(t: Tree, depth: nat, slot: nat, keep: nat, q: seq<nat>)
    requires depth >= 1 && Shape(t, depth - 1) && Pos(q, depth - 1)
    ensures var kb := KeepBelow(depth, slot, keep);
      Ptr(PruneKid(t, depth, slot, keep), q)
      == if End(q, depth - 1) <= kb || KeepsSome(t, depth - 1, kb, q) then Ptr(t, q) else 0
    decreases depth, 0
  {
    hide PruneTree, KeepsSome;
    var kb, s := KeepBelow(depth, slot, keep), Span(depth - 1);
    assert (slot + 1) * s == slot * s + s;
    StartEnd(q, depth - 1);
    if depth == 1 {
      assert q == [] && Span(0) == 1 && End(q, 0) == 1;
      NothingBelow(t, kb);
    } else if !t.Hole? && (slot + 1) * s > keep {
      PrunePtr(t, depth - 1, kb, q);
    }
  }

  lemma NothingBelow(t: Tree, keep: nat)
    ensures !KeepsSome(t, 0, keep, [])
  {
  }

  lemma {:induction false} PruneRoot(t: Tree, depth: nat, keep: nat)
    requires depth >= 1 && Shape(t, depth) && t.Indir?
    ensures Ptr(PruneTree(t, depth, keep), []) == if KeepsSome(t, depth, keep, []) then t.b else 0
    decreases depth, 2
  {
    hide PruneFrom, End, KeepBelow, PruneKid, Span;
    var ks := PruneFrom(t.kids, 0, depth, keep);
    if !AllHoles(ks) {
      var i :| 0 <= i < |ks| && !ks[i].Hole?;
      KidSurvives(t, depth, keep, i);
    }
    if r :| Pos(r, depth) && Below([], r) && End(r, depth) <= keep && Ptr(t, r) != 0 {
      KidStands(t, depth, keep, r);
      assert !ks[r[0]].Hole?;
    }
  }

  /** A surviving entry holds a pointer before the cut. */
  lemma {:induction false} KidSurvives(t: Tree, depth: nat, keep: nat, i: nat)
    requires depth >= 1 && Shape(t, depth) && t.Indir? && i < FANOUT
    requires !PruneFrom(t.kids, 0, depth, keep)[i].Hole?
    ensures KeepsSome(t, depth, keep, [])
    decreases depth, 1
  {
    hide PruneFrom, End, KeepBelow, PruneKid;
    var kb := KeepBelow(depth, i, keep);
    assert Shape(t.kids[i], depth - 1);
    PruneFromAt(t.kids, 0, depth, keep, i);
    PruneKidConserves(t.kids[i], depth, i, keep);
    PruneKidPtr(t.kids[i], depth, i, keep, []);
    RootPtr(PruneKid(t.kids[i], depth, i, keep), depth - 1);
    KidEnd(i, [], depth, keep);
    KidPtr(t, depth, i, []);
    KidKeeps(t, depth, keep, i, []);
    assert [i] + [] == [i];
    if End([], depth - 1) <= kb {
      assert Below([], [i]);
    } else {
      var r :| Pos(r, depth) && Below([i], r) && End(r, depth) <= keep && Ptr(t, r) != 0;
      assert Below([], r);
    }
  }

  lemma RootPtr(t: Tree, depth: nat)
    requires Shape(t, depth)
    ensures Ptr(t, []) == 0 <==> t.Hole?
  {
  }

  /** An entry with a pointer before the cut survives. */
  lemma {:induction false} KidStands(t: Tree, depth: nat, keep: nat, r: seq<nat>)
    requires depth >= 1 && Shape(t, depth) && t.Indir?
    requires Pos(r, depth) && r != [] && End(r, depth) <= keep && Ptr(t, r) != 0
    ensures !PruneFrom(t.kids, 0, depth, keep)[r[0]].Hole?
    decreases depth, 1
  {
    hide PruneFrom, End, KeepBelow, PruneKid;
    var i, q := r[0], r[1..];
    assert r == [i] + q && Shape(t.kids[i], depth - 1);
    var kb := KeepBelow(depth, i, keep);
    PruneFromAt(t.kids, 0, depth, keep, i);
    KidEnd(i, q, depth, keep);
    KidPtr(t, depth, i, q);
    PruneKidPtr(t.kids[i], depth, i, keep, []);
    if q != [] {
      assert Below([], q);
      PtrAbove(t.kids[i], [], q, depth - 1);
    }
  }

  // ----- every block has one position -------------------------------------------------

  lemma {:induction false} PtrInMs(t: Tree, p: seq<nat>)
    requires Ptr(t, p) != 0
    ensures Ptr(t, p) in Ms(t)
    decreases t
  {
    if t.Indir? && p != [] {
      PtrInMs(t.kids[p[0]], p[1..]);
      MsSplit(t.kids, p[0]);
    }
  }

  lemma {:induction false} MsIsPtr(t: Tree, depth: nat, x: nat) returns (p: seq<nat>)
    requires Shape(t, depth) && x in Ms(t)
    ensures Pos(p, depth) && Ptr(t, p) == x != 0
    decreases t
  {
    p := [];
    if t.Indir? && x != t.b {
      var i := InSome(t.kids, x);
      var q := MsIsPtr(t.kids[i], depth - 1, x);
      p := [i] + q;
      KidPtr(t, depth, i, q);
    }
  }

  lemma {:induction false} InSome(ts: seq<Tree>, x: nat) returns (i: nat)
    requires x in MsAll(ts)
    ensures i < |ts| && x in Ms(ts[i])
    decreases |ts|
  {
    if x in Ms(ts[0]) { return 0; }
    i := InSome(ts[1..], x);
    i := i + 1;
  }

  /** Different positions of a tree without repeated blocks hold different blocks. */
  lemma {:induction false} PtrsDiffer(t: Tree, p: seq<nat>, q: seq<nat>)
    requires NoDup(Ms(t)) && p != q && Ptr(t, p) != 0 && Ptr(t, q) != 0
    ensures Ptr(t, p) != Ptr(t, q)
    decreases t
  {
    hide MsAll, NoDup;
    if t.Indir? {
      SubNoDup(MsAll(t.kids), Ms(t));
      if p == [] {
        NotRoot(t, q);
      } else if q == [] {
        NotRoot(t, p);
      } else {
        var i, j := p[0], q[0];
        assert p == [i] + p[1..] && q == [j] + q[1..];
        MsSplit(t.kids, i);
        SubNoDup(Ms(t.kids[i]), MsAll(t.kids));
        if i == j {
          PtrsDiffer(t.kids[i], p[1..], q[1..]);
        } else {
          PtrInMs(t.kids[i], p[1..]);
          PtrInMs(t.kids[j], q[1..]);
          KidsApart(t.kids, i, j, Ptr(t, p));
        }
      }
    }
  }

  lemma NotRoot(t: Tree, q: seq<nat>)
    requires t.Indir? && NoDup(Ms(t)) && q != [] && Ptr(t, q) != 0
    ensures Ptr(t, q) != t.b
  {
    hide MsAll, NoDup;
    PtrInMs(t.kids[q[0]], q[1..]);
    MsSplit(t.kids, q[0]);
    assert MsAll(t.kids)[Ptr(t, q)] >= Ms(t.kids[q[0]])[Ptr(t, q)];
    Apart(multiset{t.b}, MsAll(t.kids), t.b);
  }

  // ----- a whole file --------------------------------------------------------------------

  /** The first logical index past those a position of slot `s` covers. */
  function FileEnd(s: nat, p: seq<nat>): nat
    requires |p| <= DepthOf(s)
  {
    Offset(s) + End(p, DepthOf(s))
  }

  /** What cutting the file to `n` blocks keeps: a pointer all of whose indices come before
      `n`, and an indirect block with such a pointer below it. The root of a tree is kept
      only for the second reason. */
  ghost predicate Stays(f: seq<Tree>, s: nat, p: seq<nat>, n: nat)
    requires s < |f| && |p| <= DepthOf(s)
  {
    || ((s < NDIRECT || p != []) && FileEnd(s, p) <= n)
    || exists r :: Pos(r, DepthOf(s)) && Below(p, r) && FileEnd(s, r) <= n && Ptr(f[s], r) != 0
  }

  lemma KeepEnd(s: nat, p: seq<nat>, n: nat)
    requires s < NADDR && Pos(p, DepthOf(s))
    ensures End(p, DepthOf(s)) <= KeepOf(s, n) <==> FileEnd(s, p) <= n
  {
    StartEnd(p, DepthOf(s));
  }

  /** Cutting a file to `n` blocks keeps exactly the pointers that stay, at every position
      and depth, and clears all others. */
  lemma CutPtr(f: seq<Tree>, n: nat, s: nat, p: seq<nat>)
    requires ForestShaped(f) && s < NADDR && Pos(p, DepthOf(s))
    ensures Ptr(PruneForest(f, 0, n)[s], p) == if Stays(f, s, p, n) then Ptr(f[s], p) else 0
  {
    hide PruneForest, PruneTree, Ptr, KeepOf, End;
    PruneForestAt(f, 0, n, s);
    KeepEnd(s, p, n);
    var depth := DepthOf(s);
    if s < NDIRECT {
      assert p == [] && FileEnd(s, p) == s + 1 by { StartEnd([], 0); assert Span(0) == 1; DirectEnd(s); }
      DirectPtr(f[s], s, n);
    } else {
      PrunePtr(f[s], depth, KeepOf(s, n), p);
      forall r | Pos(r, depth) ensures End(r, depth) <= KeepOf(s, n) <==> FileEnd(s, r) <= n { KeepEnd(s, r, n); }
    }
  }

  lemma DirectEnd(s: nat)
    requires s < NDIRECT
    ensures FileEnd(s, []) == s + 1
  {
    assert Span(0) == 1;
  }

  lemma DirectPtr(t: Tree, s: nat, n: nat)
    requires s < NDIRECT
    ensures Ptr(PruneSlot(t, s, n), []) == if s < n then Ptr(t, []) else 0
  {
  }

  /** No pointer at any depth is left whose indices all lie at or past the cut. */
  lemma NothingPast(f: seq<Tree>, n: nat, s: nat, p: seq<nat>)
    requires ForestShaped(f) && s < NADDR && Pos(p, DepthOf(s)) && Offset(s) + Start(p, DepthOf(s)) >= n
    ensures Ptr(PruneForest(f, 0, n)[s], p) == 0
  {
    hide PruneForest, Ptr;
    CutPtr(f, n, s, p);
    StartEnd(p, DepthOf(s));
    forall r | Pos(r, DepthOf(s)) && Below(p, r) ensures FileEnd(s, r) > n {
      BelowInside(p, r, DepthOf(s));
      StartEnd(r, DepthOf(s));
    }
  }

  /** Which blocks a cut gives back: exactly those at the positions that do not stay. */
  lemma FreedExactly(f: seq<Tree>, n: nat, x: nat)
    requires ForestShaped(f) && NoDup(MsAll(f))
    ensures x in FreedForest(f, 0, n)
       <==> x != 0 && exists s: nat, p :: s < NADDR && Pos(p, DepthOf(s)) && Ptr(f[s], p) == x && !Stays(f, s, p, n)
  {
    hide PruneForest, FreedForest, MsAll, Ms, Ptr, Stays, NoDup;
    var g := PruneForest(f, 0, n);
    var freed: seq<nat> := FreedForest(f, 0, n);
    PruneForestConserves(f, 0, n);
    assert (MsAll(g) + multiset(freed))[x] == MsAll(f)[x];
    if x in freed {
      assert multiset(freed)[x] > 0;
      var s, p := Located(f, x);
      CutPtr(f, n, s, p);
      if Stays(f, s, p, n) {
        InFile(g, s, p);
        Apart(MsAll(g), multiset(freed), x);
      }
    }
    if s: nat, p :| s < NADDR && Pos(p, DepthOf(s)) && Ptr(f[s], p) == x && !Stays(f, s, p, n) {
      if x != 0 {
        InFile(f, s, p);
        if x in MsAll(g) {
          var s', p' := Located(g, x);
          CutPtr(f, n, s', p');
          FilePtrsDiffer(f, s, p, s', p');
        }
      }
    }
  }

  lemma InFile(f: seq<Tree>, s: nat, p: seq<nat>)
    requires s < |f| && Ptr(f[s], p) != 0
    ensures Ptr(f[s], p) in MsAll(f)
  {
    PtrInMs(f[s], p);
    MsSplit(f, s);
    assert MsAll(f)[Ptr(f[s], p)] >= Ms(f[s])[Ptr(f[s], p)];
  }

  lemma Located(f: seq<Tree>, x: nat) returns (s: nat, p: seq<nat>)
    requires ForestShaped(f) && x in MsAll(f)
    ensures s < NADDR && Pos(p, DepthOf(s)) && Ptr(f[s], p) == x != 0
  {
    s := InSome(f, x);
    p := MsIsPtr(f[s], DepthOf(s), x);
  }

  /** Different positions of a file hold different blocks. */
  lemma FilePtrsDiffer(f: seq<Tree>, s: nat, p: seq<nat>, s': nat, p': seq<nat>)
    requires NoDup(MsAll(f)) && s < |f| && s' < |f| && Ptr(f[s], p) != 0 && Ptr(f[s'], p') != 0
    ensures Ptr(f[s], p) == Ptr(f[s'], p') ==> s == s' && p == p'
  {
    hide MsAll, NoDup, Ms, Ptr;
    MsSplit(f, s);
    SubNoDup(Ms(f[s]), MsAll(f));
    PtrInMs(f[s], p);
    PtrInMs(f[s'], p');
    if s != s' {
      KidsApart(f, s, s', Ptr(f[s], p));
    } else if p != p' {
      PtrsDiffer(f[s], p, p');
    }
  }

  /** So a cut gives back the block at a position exactly when the position does not stay. */
  lemma FreedAt(f: seq<Tree>, n: nat, s: nat, p: seq<nat>)
    requires ForestShaped(f) && NoDup(MsAll(f)) && s < NADDR && Pos(p, DepthOf(s)) && Ptr(f[s], p) != 0
    ensures Ptr(f[s], p) in FreedForest(f, 0, n) <==> !Stays(f, s, p, n)
  {
    hide FreedForest, MsAll, Ptr, Stays, NoDup;
    var x := Ptr(f[s], p);
    FreedExactly(f, n, x);
    if x in FreedForest(f, 0, n) {
      var s': nat, p' :| s' < NADDR && Pos(p', DepthOf(s')) && Ptr(f[s'], p') == x && !Stays(f, s', p', n);
      FilePtrsDiffer(f, s, p, s', p');
    }
  }

  /** The data block of a logical index is given back exactly when the index is at or past the cut. */
  lemma FreedData(f: seq<Tree>, n: nat, idx: nat)
    requires ForestShaped(f) && NoDup(MsAll(f)) && FileAt(f, idx) != 0
    ensures FileAt(f, idx) in FreedForest(f, 0, n) <==> idx >= n
  {
    hide FreedForest, MsAll, Ptr, NoDup, End, At;
    ClassifySound(idx);
    var c := ClassifyIndex(idx);
    LeafPtr(f[c.slot], c.coords, c.depth);
    FreedAt(f, n, c.slot, c.coords);
    forall r | Pos(r, c.depth) ensures !Below(c.coords, r) {}
    if c.slot >= NDIRECT { assert c.coords != []; }
  }

  // ----- indirect blocks without entries -------------------------------------------------

  ghost predicate HasEntry(t: Tree, p: seq<nat>) {
    exists i: nat :: i < FANOUT && Ptr(t, p + [i]) != 0
  }

  /** No indirect block of the file is without entries. */
  ghost predicate Tidy(f: seq<Tree>)
    requires |f| == NADDR
  {
    forall s: nat, p :: s < NADDR && Inner(p, DepthOf(s)) && Ptr(f[s], p) != 0 ==> HasEntry(f[s], p)
  }

  lemma EntryPos(p: seq<nat>, i: nat, depth: nat)
    requires Inner(p, depth) && i < FANOUT
    ensures Pos(p + [i], depth) && Below(p, p + [i]) && Pos(p, depth)
  {
  }

  /** An indirect block that stays keeps an entry, if it had one. */
  lemma EntryStays(f: seq<Tree>, n: nat, s: nat, p: seq<nat>)
    requires ForestShaped(f) && s < NADDR && Inner(p, DepthOf(s)) && Stays(f, s, p, n)
    requires p != [] && FileEnd(s, p) <= n ==> HasEntry(f[s], p)
    ensures HasEntry(PruneForest(f, 0, n)[s], p)
  {
    hide PruneForest, Ptr, End, Shape;
    var depth := DepthOf(s);
    if p != [] && FileEnd(s, p) <= n {
      var i: nat :| i < FANOUT && Ptr(f[s], p + [i]) != 0;
      EntryPos(p, i, depth);
      BelowInside(p, p + [i], depth);
      CutPtr(f, n, s, p + [i]);
    } else {
      var r :| Pos(r, depth) && Below(p, r) && FileEnd(s, r) <= n && Ptr(f[s], r) != 0;
      var i := r[|p|];
      var c := p + [i];
      EntryPos(p, i, depth);
      assert r[..|c|] == c;
      if c == r {
      } else {
        assert Below(c, r);
        PtrAbove(f[s], c, r, depth);
      }
      assert Stays(f, s, c, n);
      CutPtr(f, n, s, c);
    }
  }

  /** A cut leaves an indirect block without entries exactly when one was there already,
      below a root and wholly before the cut: those are passed over without being read. */
  lemma CutTidies(f: seq<Tree>, n: nat)
    requires ForestShaped(f)
    ensures Tidy(PruneForest(f, 0, n))
       <==> forall s: nat, p :: s < NADDR && Inner(p, DepthOf(s)) && p != [] && FileEnd(s, p) <= n && Ptr(f[s], p) != 0
                           ==> HasEntry(f[s], p)
  {
    hide PruneForest, Ptr, End, HasEntry, Stays, Shape;
    var g := PruneForest(f, 0, n);
    if forall s: nat, p :: s < NADDR && Inner(p, DepthOf(s)) && p != [] && FileEnd(s, p) <= n && Ptr(f[s], p) != 0
                      ==> HasEntry(f[s], p) {
      forall s: nat, p | s < NADDR && Inner(p, DepthOf(s)) && Ptr(g[s], p) != 0
        ensures HasEntry(g[s], p)
      {
        InnerPos(p, DepthOf(s));
        CutPtr(f, n, s, p);
        EntryStays(f, n, s, p);
      }
    }
    if Tidy(g) {
      forall s: nat, p | s < NADDR && Inner(p, DepthOf(s)) && p != [] && FileEnd(s, p) <= n && Ptr(f[s], p) != 0
        ensures HasEntry(f[s], p)
      {
        InnerPos(p, DepthOf(s));
        CutPtr(f, n, s, p);
        WholeStays(f, s, p, n);
        EntryBefore(f, n, s, p);
      }
    }
  }

  lemma InnerPos(p: seq<nat>, depth: nat)
    requires Inner(p, depth)
    ensures Pos(p, depth)
  {
  }

  lemma WholeStays(f: seq<Tree>, s: nat, p: seq<nat>, n: nat)
    requires s < |f| && |p| <= DepthOf(s) && p != [] && FileEnd(s, p) <= n
    ensures Stays(f, s, p, n)
  {
  }

  lemma EntryBefore(f: seq<Tree>, n: nat, s: nat, p: seq<nat>)
    requires ForestShaped(f) && s < NADDR && Inner(p, DepthOf(s)) && HasEntry(PruneForest(f, 0, n)[s], p)
    ensures HasEntry(f[s], p)
  {
    hide PruneForest, Ptr, Stays, Shape;
    var i: nat :| i < FANOUT && Ptr(PruneForest(f, 0, n)[s], p + [i]) != 0;
    EntryPos(p, i, DepthOf(s));
    CutPtr(f, n, s, p + [i]);
  }

  /** In a tidy file every pointer leads to a data block. */
  lemma {:induction false} LeafBelow(f: seq<Tree>, s: nat, p: seq<nat>) returns (q: seq<nat>)
    requires |f| == NADDR && Tidy(f) && s < NADDR && Pos(p, DepthOf(s)) && Ptr(f[s], p) != 0
    ensures GoodPath(q, DepthOf(s)) && (q == p || Below(p, q)) && Ptr(f[s], q) != 0
    decreases DepthOf(s) - |p|
  {
    hide Ptr;
    if |p| == DepthOf(s) {
      q := p;
    } else {
      assert HasEntry(f[s], p);
      var i: nat :| i < FANOUT && Ptr(f[s], p + [i]) != 0;
      EntryPos(p, i, DepthOf(s));
      q := LeafBelow(f, s, p + [i]);
      assert q[..|p|] == (p + [i])[..|p|] == p by { if q != p + [i] { assert q[..|p|] == q[..|p| + 1][..|p|]; } }
    }
  }

  /** In a tidy file a cut gives back an indirect block exactly when no data block below it
      comes before the cut. */
  lemma TidyFreed(f: seq<Tree>, n: nat, s: nat, p: seq<nat>)
    requires ForestShaped(f) && NoDup(MsAll(f)) && Tidy(f)
    requires s < NADDR && Inner(p, DepthOf(s)) && Ptr(f[s], p) != 0
    ensures Ptr(f[s], p) in FreedForest(f, 0, n)
       <==> !exists q :: GoodPath(q, DepthOf(s)) && Below(p, q) && FileEnd(s, q) <= n && Ptr(f[s], q) != 0
  {
    hide FreedForest, MsAll, Ptr, NoDup, End, Tidy;
    var depth := DepthOf(s);
    InnerPos(p, depth);
    FreedAt(f, n, s, p);
    if Stays(f, s, p, n) {
      var r := p;
      if !(p != [] && FileEnd(s, p) <= n) {
        r :| Pos(r, depth) && Below(p, r) && FileEnd(s, r) <= n && Ptr(f[s], r) != 0;
      }
      var q := LeafBelow(f, s, r);
      if q != r { BelowInside(r, q, depth); }
      assert q[..|p|] == p by { if q != r { assert q[..|p|] == q[..|r|][..|p|]; } }
      assert Below(p, q);
    }
    if q :| GoodPath(q, depth) && Below(p, q) && FileEnd(s, q) <= n && Ptr(f[s], q) != 0 {
      assert Pos(q, depth);
    }
  }
}
