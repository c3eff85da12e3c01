/** Laying out an executable: sections become groups, groups get hardware segments, and
    the file's initialised bytes are copied to where their group sits. Addresses are
    linear: segment * 0x1_0000 + offset.

    The layout adds up section sizes in 32-bit integers. `Groups`, `Needs` and `Seats` say
    what it is to compute, in unbounded integers; `CodeGroups`, `CodeNeeds` and `CodeSeats`
    what it does compute, wrap-around included. */
module Loader {
  import opened Basics

  type seg7 = x: nat | x < 0x80

  /** The header: shared and private text, their bss, shared and private data, their bss. */
  datatype Header = Header(tbase: nat, flag: nat, si: nat, pi: nat, bi: nat, sd: nat, pd: nat, bd: nat,
                           entrySeg: seg7, entryOff: u16)

  /** File bytes [foff, foff + len) go to offset moff of their group. */
  datatype Piece = Piece(foff: nat, moff: nat, len: nat)

  datatype Group = Group(pieces: seq<Piece>, span: nat, bss: int)

  /** Where a group starts. */
  datatype Seat = Seat(seg: nat, base: nat)

  datatype Layout = Layout(groups: seq<Group>, seats: seq<Seat>, lastSeg: nat)

  datatype Outcome = NoContent | PastSegmentSpace(group: nat) | Placed(layout: Layout)

  const EMPTY := Group([], 0, 0)

  // ----- the four link modes --------------------------------------------------------------------

  function AddPiece(g: Group, fo: nat, mo: nat, ln: nat): Group {
    g.(pieces := if ln > 0 then g.pieces + [Piece(fo, mo, ln)] else g.pieces, span := Max(g.span, mo + ln))
  }

  function Arms(h: Header): seq<Group> {
    var fsi := h.tbase;
    var fpi := fsi + h.si;
    var fsd := fpi + h.pi;
    var fpd := fsd + h.sd;
    match h.flag % 4
    case 0 => [AddPiece(EMPTY, fsi, 0, h.si + h.pi + h.sd + h.pd).(bss := h.bi + h.bd)]
    case 1 => [AddPiece(AddPiece(EMPTY, fsi, 0, h.si), fsd, h.si, h.sd),
               AddPiece(AddPiece(EMPTY, fpi, 0, h.pi), fpd, h.pi, h.pd).(bss := h.bi + h.bd)]
    case 2 => [AddPiece(EMPTY, fsi, 0, h.si + h.pi).(bss := h.bi),
               AddPiece(EMPTY, fsd, 0, h.sd + h.pd).(bss := h.bd)]
    case _ => [AddPiece(EMPTY, fsi, 0, h.si), AddPiece(EMPTY, fpi, 0, h.pi).(bss := h.bi),
               AddPiece(EMPTY, fsd, 0, h.sd), AddPiece(EMPTY, fpd, 0, h.pd).(bss := h.bd)]
  }

  predicate Empty(g: Group) { g.span == 0 && g.bss <= 0 }

  /** The non-empty groups among the first `n`, in order. */
  function Kept(gs: seq<Group>, n: nat): seq<Group>
    requires n <= |gs|
  {
    if n == 0 then [] else Kept(gs, n - 1) + if Empty(gs[n - 1]) then [] else [gs[n - 1]]
  }

  /** Segments a group needs from its base: at least one. */
  function Needs(g: Group, base: nat): nat {
    var n := (base + g.span + g.bss + 0xFFFF) / 0x1_0000;
    if n < 1 then 1 else n
  }

  function BaseOf(h: Header, i: nat): nat { if i == 0 then h.entryOff else 0 }

  /** The first segment of group `i` (of the next one, for i == |gs|). */
  function FirstSeg(h: Header, gs: seq<Group>, i: nat): nat
    requires i <= |gs|
  {
    if i == 0 then h.entrySeg else FirstSeg(h, gs, i - 1) + Needs(gs[i - 1], BaseOf(h, i - 1))
  }

  function Seats(h: Header, gs: seq<Group>): seq<Seat> {
    seq(|gs|, i requires 0 <= i < |gs| => Seat(FirstSeg(h, gs, i), BaseOf(h, i)))
  }

  /** What the layout promises, for the groups `gs` that have any content. */
  ghost predicate IsSeated(h: Header, gs: seq<Group>, r: Outcome) {
    match r
    case NoContent => gs == []
    case PastSegmentSpace(i) => i < |gs| && FirstSeg(h, gs, i) <= 0x80 < FirstSeg(h, gs, i + 1)
    case Placed(l) =>
      gs != [] && FirstSeg(h, gs, |gs|) <= 0x80 && l == Layout(gs, Seats(h, gs), FirstSeg(h, gs, |gs|) - 1)
  }

  function Groups(h: Header): seq<Group> { Kept(Arms(h), |Arms(h)|) }

  // ----- the same in 32-bit arithmetic ---------------------------------------------------------------

  const INT_MAX := 0x7FFF_FFFF

  /** What the header check ahead of the layout establishes: sizes are not negative, and the
      sections with file bytes lie inside a file whose length is an int. */
  predicate IntSized(h: Header) {
    h.tbase + ImageSize(h) <= INT_MAX && h.bi <= INT_MAX && h.bd <= INT_MAX
  }

  function ImageSize(h: Header): nat { h.si + h.pi + h.sd + h.pd }

  function I32(x: int): int { (x + 0x8000_0000) % 0x1_0000_0000 - 0x8000_0000 }

  /** Division by 0x10000, towards zero. */
  function SegDiv(x: int): int { if x >= 0 then x / 0x1_0000 else -(-x / 0x1_0000) }

  function Wrapped(g: Group): Group { g.(bss := I32(g.bss)) }

  function WrappedAll(gs: seq<Group>): (r: seq<Group>)
    ensures |r| == |gs|
  {
    seq(|gs|, i requires 0 <= i < |gs| => Wrapped(gs[i]))
  }

  function CodeArms(h: Header): seq<Group> { WrappedAll(Arms(h)) }

  function CodeGroups(h: Header): seq<Group> { Kept(CodeArms(h), |CodeArms(h)|) }

  function CodeNeeds(g: Group, base: nat): nat {
    var n := SegDiv(I32(I32(base + g.span + g.bss) + 0xFFFF));
    if n < 1 then 1 else n
  }

  function CodeFirstSeg(h: Header, gs: seq<Group>, i: nat): nat
    requires i <= |gs|
  {
    if i == 0 then h.entrySeg else CodeFirstSeg(h, gs, i - 1) + CodeNeeds(gs[i - 1], BaseOf(h, i - 1))
  }

  function CodeSeats(h: Header, gs: seq<Group>): seq<Seat> {
    seq(|gs|, i requires 0 <= i < |gs| => Seat(CodeFirstSeg(h, gs, i), BaseOf(h, i)))
  }

  ghost predicate CodeSeated(h: Header, gs: seq<Group>, r: Outcome) {
    match r
    case NoContent => gs == []
    case PastSegmentSpace(i) => i < |gs| && CodeFirstSeg(h, gs, i) <= 0x80 < CodeFirstSeg(h, gs, i + 1)
    case Placed(l) =>
      && gs != [] && CodeFirstSeg(h, gs, |gs|) <= 0x80
      && l == Layout(gs, CodeSeats(h, gs), CodeFirstSeg(h, gs, |gs|) - 1)
  }

  /** No sum the layout makes for group `i` passes the largest int. */
  predicate GroupFits(h: Header, i: nat)
    requires i < |Groups(h)|
  {
    BaseOf(h, i) + Groups(h)[i].span + Groups(h)[i].bss + 0xFFFF <= INT_MAX
  }

  predicate FitsInt(h: Header) {
    forall i :: 0 <= i < |Groups(h)| ==> GroupFits(h, i)
  }

  // ----- the layout, as it runs ----------------------------------------------------------------------

  method AddPieceAt(g: array<Group>, gi: nat, fo: nat, mo: nat, ln: nat)
    requires gi < g.Length
    modifies g
    ensures g[..] == old(g[..])[gi := AddPiece(old(g[gi]), fo, mo, ln)]
  {
    if ln > 0 { g[gi] := g[gi].(pieces := g[gi].pieces + [Piece(fo, mo, ln)]); }
    if mo + ln > g[gi].span { g[gi] := g[gi].(span := mo + ln); }
  }

  /** An int assigned to a group's bss. */
  method SetBss(g: array<Group>, gi: nat, bss: int)
    requires gi < g.Length
    modifies g
    ensures g[..] == old(g[..])[gi := old(g[gi]).(bss := I32(bss))]
  {
    g[gi] := g[gi].(bss := I32(bss));
  }

  method SplitSections(h: Header, g: array<Group>) returns (ng: nat)
    requires g.Length == 4 && forall i :: 0 <= i < 4 ==> g[i] == EMPTY
    modifies g
    ensures ng <= 4 && g[..ng] == CodeArms(h)
  {
    hide AddPiece, I32, CodeArms, WrappedAll;
    var fsi := h.tbase;
    var fpi := fsi + h.si;
    var fsd := fpi + h.pi;
    var fpd := fsd + h.sd;
    CodeArmsAre(h);
    if h.flag % 4 == 0 {
      ng := 1;
      AddPieceAt(g, 0, fsi, 0, h.si + h.pi + h.sd + h.pd);
      SetBss(g, 0, h.bi + h.bd);
    } else if h.flag % 4 == 1 {
      ng := 2;
      AddPieceAt(g, 0, fsi, 0, h.si);
      AddPieceAt(g, 0, fsd, h.si, h.sd);
      AddPieceAt(g, 1, fpi, 0, h.pi);
      AddPieceAt(g, 1, fpd, h.pi, h.pd);
      SetBss(g, 1, h.bi + h.bd);
    } else if h.flag % 4 == 2 {
      ng := 2;
      AddPieceAt(g, 0, fsi, 0, h.si + h.pi);
      SetBss(g, 0, h.bi);
      AddPieceAt(g, 1, fsd, 0, h.sd + h.pd);
      SetBss(g, 1, h.bd);
    } else {
      ng := 4;
      AddPieceAt(g, 0, fsi, 0, h.si);
      AddPieceAt(g, 1, fpi, 0, h.pi);
      SetBss(g, 1, h.bi);
      AddPieceAt(g, 2, fsd, 0, h.sd);
      AddPieceAt(g, 3, fpd, 0, h.pd);
      SetBss(g, 3, h.bd);
    }
  }

  /** The groups ahead of dropping the empty ones, mode by mode. */
  lemma CodeArmsAre(h: Header)
    ensures var fsi, fpi := h.tbase, h.tbase + h.si;
            var fsd := fpi + h.pi;
            var fpd := fsd + h.sd;
            CodeArms(h) == match h.flag % 4
              case 0 => [AddPiece(EMPTY, fsi, 0, h.si + h.pi + h.sd + h.pd).(bss := I32(h.bi + h.bd))]
              case 1 => [AddPiece(AddPiece(EMPTY, fsi, 0, h.si), fsd, h.si, h.sd),
                         AddPiece(AddPiece(EMPTY, fpi, 0, h.pi), fpd, h.pi, h.pd).(bss := I32(h.bi + h.bd))]
              case 2 => [AddPiece(EMPTY, fsi, 0, h.si + h.pi).(bss := I32(h.bi)),
                         AddPiece(EMPTY, fsd, 0, h.sd + h.pd).(bss := I32(h.bd))]
              case _ => [AddPiece(EMPTY, fsi, 0, h.si), AddPiece(EMPTY, fpi, 0, h.pi).(bss := I32(h.bi)),
                         AddPiece(EMPTY, fsd, 0, h.sd), AddPiece(EMPTY, fpd, 0, h.pd).(bss := I32(h.bd))]
  {
    hide AddPiece, I32;
    ZeroBss();
  }

  lemma ZeroBss()
    ensures I32(0) == 0
    ensures forall g: Group, fo: nat, mo: nat, ln: nat :: AddPiece(g, fo, mo, ln).bss == g.bss
  {
  }

  method DropEmpty(g: array<Group>, ng: nat) returns (groups: seq<Group>)
    requires ng <= g.Length
    ensures groups == Kept(g[..ng], ng)
  {
    groups := [];
    for i := 0 to ng
      invariant groups == Kept(g[..ng], i)
    {
      if g[i].span > 0 || g[i].bss > 0 { groups := groups + [g[i]]; }
    }
  }

  /** Seats the groups as its 32-bit sums tell it, and that is as it should for every
      header whose sums fit. */
  method LoutLayout(h: Header) returns (r: Outcome)
    requires IntSized(h)
    ensures CodeSeated(h, CodeGroups(h), r)
    ensures FitsInt(h) ==> IsSeated(h, Groups(h), r)
  {
    hide CodeArms, Kept, IsSeated, CodeSeated, GroupFits, Groups;
    var g := new Group[4](_ => EMPTY);
    var ng := SplitSections(h, g);
    var groups := DropEmpty(g, ng);
    r := SeatGroups(h, groups);
    if FitsInt(h) { OverflowDecides(h, r); }
  }

  method SeatGroups(h: Header, groups: seq<Group>) returns (r: Outcome)
    ensures CodeSeated(h, groups, r)
  {
    hide CodeNeeds;
    if |groups| == 0 { return NoContent; }
    var segN: nat := h.entrySeg;
    var seats: seq<Seat> := [];
    for i := 0 to |groups|
      invariant segN == CodeFirstSeg(h, groups, i)
      invariant segN <= 0x80
      invariant seats == CodeSeats(h, groups)[..i]
    {
      var base: nat := if i == 0 then h.entryOff else 0;
      seats := seats + [Seat(segN, base)];
      var nseg := SegmentsOf(groups[i], base);
      if segN + nseg - 1 > 0x7F { return PastSegmentSpace(i); }
      segN := segN + nseg;
    }
    CodeNeedsOne(groups[|groups| - 1], BaseOf(h, |groups| - 1));
    return Placed(Layout(groups, seats, segN - 1));
  }

  method SegmentsOf(g: Group, base: nat) returns (nseg: nat)
    ensures nseg == CodeNeeds(g, base)
  {
    var total := I32(base + g.span + g.bss);
    var n := SegDiv(I32(total + 0xFFFF));
    if n < 1 { n := 1; }
    nseg := n;
  }

  lemma CodeNeedsOne(g: Group, base: nat)
    ensures CodeNeeds(g, base) >= 1
  {
  }

  lemma NeedsOne(g: Group, base: nat)
    ensures Needs(g, base) >= 1 && base + g.span + g.bss <= 0x1_0000 * Needs(g, base)
  {
  }

  // ----- when the 32-bit sums decide as they should ------------------------------------------------------

  /** The wrapped sum of a group that does not fit still takes it past the segment space, and
      the group is not mistaken for an empty one. */
  predicate Caught(h: Header, i: nat)
    requires i < |Groups(h)|
  {
    var g := Groups(h)[i];
    (g.span > 0 || g.bss <= INT_MAX) && FirstSeg(h, Groups(h), i) + CodeNeeds(g, BaseOf(h, i)) > 0x80
  }

  /** The last group has only bss, and so much of it that it counts as negative: it is dropped. */
  predicate LastDropped(gs: seq<Group>) {
    gs != [] && gs[|gs| - 1].span == 0 && gs[|gs| - 1].bss > INT_MAX
  }

  lemma WrapSmall(g: Group)
    requires 0 <= g.bss <= INT_MAX
    ensures Wrapped(g) == g
  {
  }

  lemma WrapSnoc(gs: seq<Group>, g: Group)
    ensures WrappedAll(gs + [g]) == WrappedAll(gs) + [Wrapped(g)]
  {
  }

  lemma {:induction false} KeptWrapped(gs: seq<Group>, n: nat)
    requires n <= |gs| && forall k :: 0 <= k < n ==> 0 <= gs[k].bss <= INT_MAX
    ensures Kept(WrappedAll(gs), n) == WrappedAll(Kept(gs, n))
    ensures forall k :: 0 <= k < |Kept(gs, n)| ==> 0 <= Kept(gs, n)[k].bss <= INT_MAX
  {
    hide Wrapped;
    if n > 0 {
      KeptWrapped(gs, n - 1);
      WrapSmall(gs[n - 1]);
      WrapSnoc(Kept(gs, n - 1), gs[n - 1]);
    }
  }

  lemma ArmsBss(h: Header)
    requires IntSized(h)
    ensures |Arms(h)| > 0 && 0 <= Arms(h)[|Arms(h)| - 1].bss <= 2 * INT_MAX
    ensures forall k :: 0 <= k < |Arms(h)| - 1 ==> 0 <= Arms(h)[k].bss <= INT_MAX
  {
    hide AddPiece;
    ZeroBss();
  }

  /** Wrapping the bss of the last of some groups at most drops that group. */
  lemma KeptLast(arms: seq<Group>, gs: seq<Group>)
    requires arms != [] && gs == Kept(arms, |arms|) && 0 <= arms[|arms| - 1].bss <= 2 * INT_MAX
    requires forall k :: 0 <= k < |arms| - 1 ==> 0 <= arms[k].bss <= INT_MAX
    ensures Kept(WrappedAll(arms), |arms|) == WrappedAll(if LastDropped(gs) then gs[..|gs| - 1] else gs)
    ensures forall i :: 0 <= i < |gs| - 1 ==> gs[i].bss <= INT_MAX
    ensures forall i :: 0 <= i < |gs| ==> gs[i].bss >= 0
  {
    hide Wrapped, Kept, WrappedAll, Empty;
    var n := |arms| - 1;
    var ks, g := Kept(arms, n), arms[n];
    KeptWrapped(arms, n);
    KeptStep(arms, n);
    KeptStep(WrappedAll(arms), n);
    WrapAt(arms, n);
    WrapEmpty(g);
    if Empty(g) {
      assert gs == ks;
      assert !LastDropped(gs) by { if gs != [] { assert ks[|ks| - 1].bss <= INT_MAX; } }
    } else {
      assert gs == ks + [g] && gs[|gs| - 1] == g && gs[..|gs| - 1] == ks;
      WrapSnoc(ks, g);
    }
  }

  lemma KeptStep(gs: seq<Group>, n: nat)
    requires n < |gs|
    ensures Kept(gs, n + 1) == if Empty(gs[n]) then Kept(gs, n) else Kept(gs, n) + [gs[n]]
  {
  }

  lemma KeptNone(gs: seq<Group>)
    ensures Kept(gs, 0) == []
  {
  }

  lemma WrapAt(gs: seq<Group>, i: nat)
    requires i < |gs|
    ensures WrappedAll(gs)[i] == Wrapped(gs[i])
  {
  }

  lemma WrapEmpty(g: Group)
    requires 0 <= g.bss <= 2 * INT_MAX
    ensures Empty(Wrapped(g)) <==> Empty(g) || (g.span == 0 && g.bss > INT_MAX)
    ensures Empty(g) ==> g.bss == 0
  {
  }

  /** The groups as computed are those of the table of link modes, except that only the last
      can have a bss that wraps, and is then dropped if it has nothing else. */
  lemma CodeGroupsAre(h: Header)
    requires IntSized(h)
    ensures var gs := Groups(h);
      && CodeGroups(h) == WrappedAll(if LastDropped(gs) then gs[..|gs| - 1] else gs)
      && (forall i :: 0 <= i < |gs| - 1 ==> gs[i].bss <= INT_MAX)
      && (forall i :: 0 <= i < |gs| ==> gs[i].bss >= 0)
  {
    hide Arms, WrappedAll, Kept, LastDropped;
    ArmsBss(h);
    KeptLast(Arms(h), Groups(h));
  }

  lemma WrapKeepsSpan(g: Group)
    ensures Wrapped(g).span == g.span && Wrapped(g).pieces == g.pieces
  {
  }

  lemma WrapTwice(x: int, y: int)
    ensures I32(x + I32(y)) == I32(x + y)
  {
  }

  lemma CodeNeedsWrapped(g: Group, base: nat)
    ensures CodeNeeds(Wrapped(g), base) == CodeNeeds(g, base)
  {
    hide I32;
    WrapTwice(base + g.span, g.bss);
  }

  lemma NeedsAgree(g: Group, base: nat)
    requires g.bss >= 0
    ensures base + g.span + g.bss + 0xFFFF <= INT_MAX ==> CodeNeeds(g, base) == Needs(g, base)
    ensures base + g.span + g.bss + 0xFFFF > INT_MAX ==> Needs(g, base) > 0x80
  {
  }

  /** As long as the groups fit they get the segments they should. */
  lemma {:induction false} CodeFirstAgrees(h: Header, i: nat)
    requires IntSized(h) && i <= |CodeGroups(h)| && i <= |Groups(h)|
    requires forall j :: 0 <= j < i ==> GroupFits(h, j)
    ensures CodeFirstSeg(h, CodeGroups(h), i) == FirstSeg(h, Groups(h), i)
  {
    hide Groups, CodeGroups, CodeNeeds, Needs, Wrapped;
    if i > 0 {
      CodeFirstAgrees(h, i - 1);
      CodeGroupsAre(h);
      var g := Groups(h)[i - 1];
      assert CodeGroups(h)[i - 1] == Wrapped(g);
      CodeNeedsWrapped(g, BaseOf(h, i - 1));
      assert GroupFits(h, i - 1);
      NeedsAgree(g, BaseOf(h, i - 1));
    }
  }

  lemma {:induction false} CodeFirstGrows(h: Header, gs: seq<Group>, i: nat, j: nat)
    requires i <= j <= |gs|
    ensures CodeFirstSeg(h, gs, i) <= CodeFirstSeg(h, gs, j)
  {
    hide CodeNeeds;
    if i < j { CodeFirstGrows(h, gs, i, j - 1); }
  }

  /** The first group that does not fit, or their number. */
  lemma FirstMisfit(h: Header) returns (k: nat)
    ensures k <= |Groups(h)| && (forall j :: 0 <= j < k ==> GroupFits(h, j)) && (k < |Groups(h)| ==> !GroupFits(h, k))
  {
    hide GroupFits, Groups;
    k := 0;
    while k < |Groups(h)| && GroupFits(h, k)
      invariant k <= |Groups(h)| && forall j :: 0 <= j < k ==> GroupFits(h, j)
    {
      k := k + 1;
    }
  }

  /** The segment the next group would get is past the space once a group does not fit. */
  lemma MisfitIsPast(h: Header, i: nat)
    requires IntSized(h) && i < |Groups(h)| && !GroupFits(h, i)
    ensures FirstSeg(h, Groups(h), i + 1) > 0x80
  {
    hide Groups, Needs;
    CodeGroupsAre(h);
    NeedsAgree(Groups(h)[i], BaseOf(h, i));
  }

  /** The 32-bit layout decides as it should exactly when each group it gets to either fits in
      its sums or is refused by the wrapped sum as well. */
  lemma OverflowDecides(h: Header, r: Outcome)
    requires IntSized(h) && CodeSeated(h, CodeGroups(h), r)
    ensures IsSeated(h, Groups(h), r) <==>
      forall i :: 0 <= i < |Groups(h)| && FirstSeg(h, Groups(h), i) <= 0x80 ==> GroupFits(h, i) || Caught(h, i)
    ensures FitsInt(h) ==> IsSeated(h, Groups(h), r)
  {
    hide Groups, CodeGroups, GroupFits, Caught, FirstSeg, CodeFirstSeg;
    var k := FirstMisfit(h);
    var gs := Groups(h);
    CodeGroupsAre(h);
    if k == |gs| {
      AllFit(h, r);
    } else if FirstSeg(h, gs, k) > 0x80 {
      RefusedBefore(h, r, k);
    } else {
      MisfitReached(h, r, k);
    }
  }

  lemma AllFit(h: Header, r: Outcome)
    requires IntSized(h) && FitsInt(h) && CodeSeated(h, CodeGroups(h), r)
    ensures IsSeated(h, Groups(h), r)
  {
    hide Groups, CodeGroups, FirstSeg, CodeFirstSeg, Wrapped;
    CodeGroupsAre(h);
    var gs := Groups(h);
    forall i | 0 <= i < |gs|
      ensures gs[i].bss <= INT_MAX && Wrapped(gs[i]) == gs[i]
    {
      assert GroupFits(h, i);
      WrapSmall(gs[i]);
    }
    assert CodeGroups(h) == gs;
    forall i | 0 <= i <= |gs|
      ensures CodeFirstSeg(h, gs, i) == FirstSeg(h, gs, i)
    {
      CodeFirstAgrees(h, i);
    }
    assert CodeSeats(h, gs) == Seats(h, gs);
  }

  /** A group ahead of the first misfit is refused, by both. */
  lemma RefusedBefore(h: Header, r: Outcome, k: nat)
    requires IntSized(h) && k < |Groups(h)| && (forall j :: 0 <= j < k ==> GroupFits(h, j))
    requires FirstSeg(h, Groups(h), k) > 0x80 && CodeSeated(h, CodeGroups(h), r)
    ensures IsSeated(h, Groups(h), r)
    ensures forall i :: k <= i < |Groups(h)| ==> FirstSeg(h, Groups(h), i) > 0x80
  {
    hide Groups, CodeGroups, GroupFits, Needs, CodeNeeds;
    CodeGroupsAre(h);
    var gs, cs := Groups(h), CodeGroups(h);
    CodeFirstAgrees(h, k);
    CodeFirstGrows(h, cs, k, |cs|);
    if r.PastSegmentSpace? {
      var i := r.group;
      if i >= k { CodeFirstGrows(h, cs, k, i); } else { CodeFirstAgrees(h, i); CodeFirstAgrees(h, i + 1); }
    }
    forall i | k <= i < |gs| ensures FirstSeg(h, gs, i) > 0x80 { FirstSegGrows(h, gs, k, i); }
  }

  /** The first misfit is reached: it should be refused, and is exactly when it is caught. */
  lemma MisfitReached(h: Header, r: Outcome, k: nat)
    requires IntSized(h) && k < |Groups(h)| && (forall j :: 0 <= j < k ==> GroupFits(h, j)) && !GroupFits(h, k)
    requires FirstSeg(h, Groups(h), k) <= 0x80 && CodeSeated(h, CodeGroups(h), r)
    ensures IsSeated(h, Groups(h), r) <==> Caught(h, k)
    ensures forall i :: k < i < |Groups(h)| ==> FirstSeg(h, Groups(h), i) > 0x80
  {
    hide Groups, CodeGroups, GroupFits, Needs, CodeNeeds, FirstSeg, CodeFirstSeg, Wrapped, WrappedAll, IsSeated,
         IntSized;
    CodeGroupsAre(h);
    var gs, cs := Groups(h), CodeGroups(h);
    assert k < |cs| <==> gs[k].span > 0 || gs[k].bss <= INT_MAX;
    MisfitIsPast(h, k);
    CodeFirstAgrees(h, k);
    forall i | k < i < |gs| ensures FirstSeg(h, gs, i) > 0x80 { FirstSegGrows(h, gs, k + 1, i); }
    ShouldRefuse(h, gs, k, r);
    if k < |cs| {
      WrapAt(if LastDropped(gs) then gs[..|gs| - 1] else gs, k);
      CodeNeedsWrapped(gs[k], BaseOf(h, k));
      CodeFirstStep(h, cs, k);
      DoesRefuse(h, cs, k, r);
    }
  }

  lemma CodeFirstStep(h: Header, gs: seq<Group>, i: nat)
    requires i < |gs|
    ensures CodeFirstSeg(h, gs, i + 1) == CodeFirstSeg(h, gs, i) + CodeNeeds(gs[i], BaseOf(h, i))
  {
  }

  lemma ShouldRefuse(h: Header, gs: seq<Group>, k: nat, r: Outcome)
    requires k < |gs| && FirstSeg(h, gs, k) <= 0x80 < FirstSeg(h, gs, k + 1)
    ensures IsSeated(h, gs, r) <==> r == PastSegmentSpace(k)
  {
    hide FirstSeg;
    FirstSegGrows(h, gs, k + 1, |gs|);
    if r.PastSegmentSpace? && r.group < |gs| {
      if r.group < k { FirstSegGrows(h, gs, r.group + 1, k); }
      if r.group > k { FirstSegGrows(h, gs, k + 1, r.group); }
    }
  }

  lemma DoesRefuse(h: Header, cs: seq<Group>, k: nat, r: Outcome)
    requires k < |cs| && CodeFirstSeg(h, cs, k) <= 0x80 && CodeSeated(h, cs, r)
    ensures r == PastSegmentSpace(k) <==> CodeFirstSeg(h, cs, k + 1) > 0x80
  {
    hide CodeFirstSeg;
    CodeFirstGrows(h, cs, k + 1, |cs|);
    if r.PastSegmentSpace? {
      if r.group < k { CodeFirstGrows(h, cs, r.group + 1, k); }
      if r.group > k { CodeFirstGrows(h, cs, k + 1, r.group); }
    }
  }

  /** What the wrap lets through: 4 bytes of text and the largest bss need thousands of
      segments, and the layout gives them one. */
  lemma HugeBssPlaced()
    ensures var h := Header(48, 2, 4, 0, INT_MAX, 0, 0, 0, 3, 0);
            var g := Group([Piece(48, 0, 4)], 4, INT_MAX);
      && IntSized(h) && Groups(h) == [g] && !FitsInt(h) && Needs(g, 0) == 0x8001
      && CodeSeated(h, CodeGroups(h), Placed(Layout([g], [Seat(3, 0)], 3)))
      && IsSeated(h, Groups(h), PastSegmentSpace(0))
  {
    var h := Header(48, 2, 4, 0, INT_MAX, 0, 0, 0, 3, 0);
    var g := Group([Piece(48, 0, 4)], 4, INT_MAX);
    hide AddPiece, CodeNeeds, Needs, I32, Groups, CodeGroups;
    HugeBssGroups();
    HugeBssNeeds();
    assert !GroupFits(h, 0);
    assert CodeFirstSeg(h, [g], 1) == 4 && FirstSeg(h, [g], 1) == 3 + 0x8001;
    assert CodeSeats(h, [g]) == [Seat(3, 0)];
  }

  lemma HugeBssGroups()
    ensures var h := Header(48, 2, 4, 0, INT_MAX, 0, 0, 0, 3, 0);
            var g := Group([Piece(48, 0, 4)], 4, INT_MAX);
      Groups(h) == [g] == CodeGroups(h)
  {
    hide AddPiece, I32, WrappedAll, Arms, Kept;
    var arms := [Group([Piece(48, 0, 4)], 4, INT_MAX), EMPTY];
    HugeBssArms();
    WrapSmall(arms[0]);
    WrapSmall(EMPTY);
    KeptStep(arms, 0);
    KeptStep(arms, 1);
    assert Kept(arms, 0) == [] by { KeptNone(arms); }
    WrapAt(arms, 0);
    WrapAt(arms, 1);
    assert WrappedAll(arms) == arms;
  }

  lemma HugeBssArms()
    ensures Arms(Header(48, 2, 4, 0, INT_MAX, 0, 0, 0, 3, 0)) == [Group([Piece(48, 0, 4)], 4, INT_MAX), EMPTY]
  {
    assert [] + [Piece(48, 0, 4)] == [Piece(48, 0, 4)];
    assert AddPiece(EMPTY, 48, 0, 4).(bss := INT_MAX) == Group([Piece(48, 0, 4)], 4, INT_MAX);
    assert AddPiece(EMPTY, 52, 0, 0).(bss := 0) == EMPTY;
  }

  lemma HugeBssNeeds()
    ensures var g := Group([Piece(48, 0, 4)], 4, INT_MAX); CodeNeeds(g, 0) == 1 && Needs(g, 0) == 0x8001
  {
  }

  /** A group fits exactly when none of the three sums made for it wraps. */
  lemma FitsExactly(h: Header, i: nat)
    requires IntSized(h) && i < |Groups(h)|
    ensures var g, base := Groups(h)[i], BaseOf(h, i);
            var total := base + g.span + g.bss;
      GroupFits(h, i) <==> I32(g.bss) == g.bss && I32(total) == total && I32(total + 0xFFFF) == total + 0xFFFF
  {
    hide Groups;
    CodeGroupsAre(h);
  }

  // ----- pieces tile their group and the file -------------------------------------------------------------

  /** The pieces lie end to end from offset 0 to the span, none empty; the bss follows. */
  ghost predicate Tiled(g: Group) {
    && (forall k :: 0 <= k < |g.pieces| ==> g.pieces[k].len > 0)
    && (forall k :: 0 <= k < |g.pieces| ==>
          g.pieces[k].moff == if k == 0 then 0 else g.pieces[k - 1].moff + g.pieces[k - 1].len)
    && g.span == End(g) && g.bss >= 0
  }

  function End(g: Group): nat {
    if g.pieces == [] then 0 else g.pieces[|g.pieces| - 1].moff + g.pieces[|g.pieces| - 1].len
  }

  predicate HoldsByte(p: Piece, f: nat) { p.foff <= f < p.foff + p.len }

  /** How many of the pieces hold file byte `f`. */
  function Hits(ps: seq<Piece>, f: nat): nat {
    if ps == [] then 0 else Hits(ps[..|ps| - 1], f) + if HoldsByte(ps[|ps| - 1], f) then 1 else 0
  }

  /** How many pieces of the first `n` groups hold file byte `f`. */
  function Holders(gs: seq<Group>, n: nat, f: nat): nat
    requires n <= |gs|
  {
    if n == 0 then 0 else Holders(gs, n - 1, f) + Hits(gs[n - 1].pieces, f)
  }

  lemma AddTiles(g: Group, fo: nat, ln: nat)
    requires Tiled(g)
    ensures Tiled(AddPiece(g, fo, g.span, ln)) && AddPiece(g, fo, g.span, ln).span == g.span + ln
  {
  }

  lemma BssTiles(g: Group, bss: nat)
    requires Tiled(g)
    ensures Tiled(g.(bss := bss))
  {
  }

  lemma AddHits(g: Group, fo: nat, mo: nat, ln: nat, f: nat)
    ensures Hits(AddPiece(g, fo, mo, ln).pieces, f) == Hits(g.pieces, f) + if fo <= f < fo + ln then 1 else 0
  {
    assert (g.pieces + [Piece(fo, mo, ln)])[..|g.pieces|] == g.pieces;
  }

  lemma ArmsTiled(h: Header)
    ensures forall g :: g in Arms(h) ==> Tiled(g)
  {
    hide AddPiece, Tiled;
    var fsi, fpi, fsd, fpd := h.tbase, h.tbase + h.si, h.tbase + h.si + h.pi, h.tbase + h.si + h.pi + h.sd;
    assert Tiled(EMPTY) by { EmptyTiled(); }
    if h.flag % 4 == 0 {
      AddTiles(EMPTY, fsi, h.si + h.pi + h.sd + h.pd);
      BssTiles(AddPiece(EMPTY, fsi, 0, h.si + h.pi + h.sd + h.pd), h.bi + h.bd);
    } else if h.flag % 4 == 1 {
      AddTiles(EMPTY, fsi, h.si);
      AddTiles(EMPTY, fpi, h.pi);
      AddTiles(AddPiece(EMPTY, fsi, 0, h.si), fsd, h.sd);
      AddTiles(AddPiece(EMPTY, fpi, 0, h.pi), fpd, h.pd);
      BssTiles(AddPiece(AddPiece(EMPTY, fpi, 0, h.pi), fpd, h.pi, h.pd), h.bi + h.bd);
    } else if h.flag % 4 == 2 {
      AddTiles(EMPTY, fsi, h.si + h.pi);
      AddTiles(EMPTY, fsd, h.sd + h.pd);
      BssTiles(AddPiece(EMPTY, fsi, 0, h.si + h.pi), h.bi);
      BssTiles(AddPiece(EMPTY, fsd, 0, h.sd + h.pd), h.bd);
    } else {
      AddTiles(EMPTY, fsi, h.si);
      AddTiles(EMPTY, fpi, h.pi);
      AddTiles(EMPTY, fsd, h.sd);
      AddTiles(EMPTY, fpd, h.pd);
      BssTiles(AddPiece(EMPTY, fpi, 0, h.pi), h.bi);
      BssTiles(AddPiece(EMPTY, fpd, 0, h.pd), h.bd);
    }
  }

  lemma EmptyTiled()
    ensures Tiled(EMPTY)
  {
  }

  lemma HitsEmpty(f: nat)
    ensures Hits(EMPTY.pieces, f) == 0
  {
  }

  /** In every link mode each initialised byte is in exactly one piece, and no other byte is. */
  lemma ArmsHold(h: Header, f: nat)
    ensures Holders(Arms(h), |Arms(h)|, f) == if h.tbase <= f < h.tbase + ImageSize(h) then 1 else 0
  {
    hide AddPiece, Hits;
    var fsi, fpi, fsd, fpd := h.tbase, h.tbase + h.si, h.tbase + h.si + h.pi, h.tbase + h.si + h.pi + h.sd;
    HitsEmpty(f);
    AddHits(EMPTY, fsi, 0, h.si + h.pi + h.sd + h.pd, f);
    AddHits(EMPTY, fsi, 0, h.si, f);
    AddHits(EMPTY, fpi, 0, h.pi, f);
    AddHits(EMPTY, fsd, 0, h.sd, f);
    AddHits(EMPTY, fpd, 0, h.pd, f);
    AddHits(AddPiece(EMPTY, fsi, 0, h.si), fsd, h.si, h.sd, f);
    AddHits(AddPiece(EMPTY, fpi, 0, h.pi), fpd, h.pi, h.pd, f);
    AddHits(EMPTY, fsi, 0, h.si + h.pi, f);
    AddHits(EMPTY, fsd, 0, h.sd + h.pd, f);
    var gs := Arms(h);
    assert Holders(gs, 1, f) == Hits(gs[0].pieces, f);
    if |gs| > 1 { assert Holders(gs, 2, f) == Holders(gs, 1, f) + Hits(gs[1].pieces, f); }
    if |gs| > 2 {
      assert Holders(gs, 3, f) == Holders(gs, 2, f) + Hits(gs[2].pieces, f);
      assert Holders(gs, 4, f) == Holders(gs, 3, f) + Hits(gs[3].pieces, f);
    }
  }

  lemma NoHits(f: nat)
    ensures Hits([], f) == 0
  {
  }

  lemma EmptyHasNone(g: Group)
    requires Tiled(g)
    ensures g.pieces != [] ==> !Empty(g)
  {
    if g.pieces != [] { assert g.pieces[|g.pieces| - 1].len > 0; }
  }

  lemma {:induction false} KeptHolds(gs: seq<Group>, n: nat, f: nat)
    requires n <= |gs| && forall g :: g in gs ==> Tiled(g)
    ensures Holders(Kept(gs, n), |Kept(gs, n)|, f) == Holders(gs, n, f)
    ensures forall g :: g in Kept(gs, n) ==> Tiled(g) && !Empty(g)
  {
    hide Hits, Tiled;
    if n > 0 {
      KeptHolds(gs, n - 1, f);
      NoHits(f);
      var ks, g := Kept(gs, n - 1), gs[n - 1];
      if Empty(g) {
        assert g in gs && Tiled(g);
        EmptyHasNone(g);
        assert Kept(gs, n) == ks;
      } else {
        HoldersPrefix(ks, g, |ks|, f);
        assert Kept(gs, n)[|ks|] == g;
      }
    }
  }

  lemma {:induction false} HoldersPrefix(gs: seq<Group>, g: Group, n: nat, f: nat)
    requires n <= |gs|
    ensures Holders(gs + [g], n, f) == Holders(gs, n, f)
  {
    if n > 0 { HoldersPrefix(gs, g, n - 1, f); }
  }

  // ----- where every byte goes ---------------------------------------------------------------------------------

  function Start(s: Seat): nat { s.seg * 0x1_0000 + s.base }

  /** The file byte that the first `k` pieces of a group starting at `start` put at address `a`. */
  function InGroup(g: Group, start: nat, k: nat, a: nat): Option<nat>
    requires k <= |g.pieces|
  {
    if k == 0 then None else
    var p := g.pieces[k - 1];
    if start + p.moff <= a < start + p.moff + p.len then Some(p.foff + (a - start - p.moff))
    else InGroup(g, start, k - 1, a)
  }

  /** The file byte that the first `n` groups put at address `a`; a later write wins. */
  function Source(gs: seq<Group>, seats: seq<Seat>, n: nat, a: nat): Option<nat>
    requires n <= |gs| == |seats|
  {
    if n == 0 then None else
    var here := InGroup(gs[n - 1], Start(seats[n - 1]), |gs[n - 1].pieces|, a);
    if here.Some? then here else Source(gs, seats, n - 1, a)
  }

  /** What memory holds after a load: the file byte sent there, or what was there. */
  function Loaded(was: seq<byte>, file: seq<byte>, from: Option<nat>, a: nat): byte
    requires a < |was|
  {
    if from.Some? && from.value < |file| then file[from.value] else was[a]
  }

  // The copy as it runs: a segment number is taken modulo 0x100, so an address is taken modulo
  // the size of memory, and a later byte may land on an earlier one.

  /** Which of `len` bytes copied to `start` and up is at address `a` in the end. */
  function LastAt(start: nat, len: nat, a: nat): (j: Option<nat>)
    ensures j.Some? ==> j.value < len
  {
    if len == 0 then None
    else if (start + len - 1) % RAM == a then Some(len - 1)
    else LastAt(start, len - 1, a)
  }

  /** The file byte that copying the first `k` pieces of a group leaves at address `a`. */
  function CopiedIn(g: Group, start: nat, k: nat, a: nat): Option<nat>
    requires k <= |g.pieces|
  {
    if k == 0 then None else
    var p := g.pieces[k - 1];
    var j := LastAt(start + p.moff, p.len, a);
    if j.Some? then Some(p.foff + j.value) else CopiedIn(g, start, k - 1, a)
  }

  /** The file byte that copying the first `n` groups leaves at address `a`. */
  function Copied(gs: seq<Group>, seats: seq<Seat>, n: nat, a: nat): Option<nat>
    requires n <= |gs| == |seats|
  {
    if n == 0 then None else
    var here := CopiedIn(gs[n - 1], Start(seats[n - 1]), |gs[n - 1].pieces|, a);
    if here.Some? then here else Copied(gs, seats, n - 1, a)
  }

  method LoadPiece(ram: array<byte>, file: seq<byte>, seat: Seat, p: Piece)
    requires p.foff + p.len <= |file| && ram.Length == RAM
    modifies ram
    ensures forall a :: 0 <= a < RAM ==>
      var j := LastAt(Start(seat) + p.moff, p.len, a);
      ram[a] == if j.Some? then file[p.foff + j.value] else old(ram[a])
  {
    for j := 0 to p.len
      invariant forall a :: 0 <= a < RAM ==>
        var k := LastAt(Start(seat) + p.moff, j, a);
        ram[a] == if k.Some? then file[p.foff + k.value] else old(ram[a])
    {
      var at := seat.base + p.moff + j;
      SegmentOf(seat.seg, at);
      ram[(seat.seg + at / 0x1_0000) % 0x100 * 0x1_0000 + at % 0x1_0000] := file[p.foff + j];
    }
  }

  lemma SegmentOf(seg: nat, at: nat)
    ensures (seg + at / 0x1_0000) % 0x100 * 0x1_0000 + at % 0x1_0000 == (seg * 0x1_0000 + at) % RAM
  {
    var q, r := seg + at / 0x1_0000, at % 0x1_0000;
    var x := seg * 0x1_0000 + at;
    assert x == q * 0x1_0000 + r;
    assert q == q / 0x100 * 0x100 + q % 0x100;
    Quotient(x, q / 0x100, RAM, q % 0x100 * 0x1_0000 + r);
  }

  /** Every piece of the first `n` groups lies inside the file. */
  predicate InFile(gs: seq<Group>, n: nat, size: nat)
    requires n <= |gs|
  {
    forall i, k :: 0 <= i < n && 0 <= k < |gs[i].pieces| ==> gs[i].pieces[k].foff + gs[i].pieces[k].len <= size
  }

  predicate GroupInFile(g: Group, size: nat) {
    forall k :: 0 <= k < |g.pieces| ==> g.pieces[k].foff + g.pieces[k].len <= size
  }

  lemma {:induction false} CopiedInFile(g: Group, start: nat, k: nat, a: nat, size: nat)
    requires k <= |g.pieces| && forall k' :: 0 <= k' < k ==> g.pieces[k'].foff + g.pieces[k'].len <= size
    ensures var f := CopiedIn(g, start, k, a); f.Some? ==> f.value < size
  {
    if k > 0 {
      CopiedInFile(g, start, k - 1, a, size);
    }
  }

  method LoadGroup(ram: array<byte>, file: seq<byte>, g: Group, seat: Seat) returns (ok: bool)
    requires ram.Length == RAM
    modifies ram
    ensures ok == GroupInFile(g, |file|)
    ensures ok ==> forall a :: 0 <= a < RAM ==>
      ram[a] == Loaded(old(ram[..]), file, CopiedIn(g, Start(seat), |g.pieces|, a), a)
  {
    hide Start, LastAt;
    for k := 0 to |g.pieces|
      invariant forall k' :: 0 <= k' < k ==> g.pieces[k'].foff + g.pieces[k'].len <= |file|
      invariant forall a :: 0 <= a < RAM ==>
        ram[a] == Loaded(old(ram[..]), file, CopiedIn(g, Start(seat), k, a), a)
    {
      var p := g.pieces[k];
      if p.foff + p.len > |file| { return false; }
      LoadPiece(ram, file, seat, p);
    }
    return true;
  }

  lemma CopyStep(gs: seq<Group>, seats: seq<Seat>, n: nat, a: nat, was: seq<byte>, mid: seq<byte>, file: seq<byte>)
    requires n < |gs| == |seats| && a < |was| == |mid| && GroupInFile(gs[n], |file|)
    requires mid[a] == Loaded(was, file, Copied(gs, seats, n, a), a)
    ensures Loaded(mid, file, CopiedIn(gs[n], Start(seats[n]), |gs[n].pieces|, a), a)
            == Loaded(was, file, Copied(gs, seats, n + 1, a), a)
  {
    hide CopiedIn, Start;
    CopiedInFile(gs[n], Start(seats[n]), |gs[n].pieces|, a, |file|);
  }

  /** Copies a layout's pieces in order; stops with false at one that is not in the file. */
  method Load(ram: array<byte>, file: seq<byte>, l: Layout) returns (ok: bool)
    requires |l.groups| == |l.seats| && ram.Length == RAM
    modifies ram
    ensures ok == InFile(l.groups, |l.groups|, |file|)
    ensures ok ==> forall a :: 0 <= a < RAM ==>
      ram[a] == Loaded(old(ram[..]), file, Copied(l.groups, l.seats, |l.groups|, a), a)
  {
    hide CopiedIn, Copied, Start, Loaded, GroupInFile;
    forall a | 0 <= a < RAM ensures ram[a] == Loaded(ram[..], file, Copied(l.groups, l.seats, 0, a), a) {
      NothingYet(l, a, ram[..], file);
    }
    for i := 0 to |l.groups|
      invariant InFile(l.groups, i, |file|)
      invariant forall a :: 0 <= a < RAM ==>
        ram[a] == Loaded(old(ram[..]), file, Copied(l.groups, l.seats, i, a), a)
    {
      ghost var mid := ram[..];
      var here := LoadGroup(ram, file, l.groups[i], l.seats[i]);
      InFileStep(l.groups, i, |file|);
      if !here { return false; }
      forall a | 0 <= a < RAM
        ensures ram[a] == Loaded(old(ram[..]), file, Copied(l.groups, l.seats, i + 1, a), a)
      {
        CopyStep(l.groups, l.seats, i, a, old(ram[..]), mid, file);
      }
    }
    return true;
  }

  lemma NothingYet(l: Layout, a: nat, was: seq<byte>, file: seq<byte>)
    requires a < |was| && |l.groups| == |l.seats|
    ensures Loaded(was, file, Copied(l.groups, l.seats, 0, a), a) == was[a]
  {
  }

  // As long as every piece ends inside memory, nothing wraps and nothing is copied over.

  predicate GroupInRam(g: Group, start: nat) {
    forall k :: 0 <= k < |g.pieces| ==> start + g.pieces[k].moff + g.pieces[k].len <= RAM
  }

  predicate InRam(l: Layout)
    requires |l.groups| == |l.seats|
  {
    forall i :: 0 <= i < |l.groups| ==> GroupInRam(l.groups[i], Start(l.seats[i]))
  }

  lemma {:induction false} LastInRam(start: nat, len: nat, a: nat)
    requires start + len <= RAM && a < RAM
    ensures LastAt(start, len, a) == if start <= a < start + len then Some(a - start) else None
  {
    if len > 0 {
      assert (start + len - 1) % RAM == start + len - 1;
      LastInRam(start, len - 1, a);
    }
  }

  lemma {:induction false} CopiedInRam(g: Group, start: nat, k: nat, a: nat)
    requires k <= |g.pieces| && GroupInRam(g, start) && a < RAM
    ensures CopiedIn(g, start, k, a) == InGroup(g, start, k, a)
  {
    hide LastAt;
    if k > 0 {
      LastInRam(start + g.pieces[k - 1].moff, g.pieces[k - 1].len, a);
      CopiedInRam(g, start, k - 1, a);
    }
  }

  lemma {:induction false} CopiedIsSource(l: Layout, n: nat, a: nat)
    requires |l.groups| == |l.seats| && n <= |l.groups| && InRam(l) && a < RAM
    ensures Copied(l.groups, l.seats, n, a) == Source(l.groups, l.seats, n, a)
  {
    hide CopiedIn, InGroup, GroupInRam, Start;
    if n > 0 {
      CopiedInRam(l.groups[n - 1], Start(l.seats[n - 1]), |l.groups[n - 1].pieces|, a);
      CopiedIsSource(l, n - 1, a);
    }
  }

  lemma InFileStep(gs: seq<Group>, n: nat, size: nat)
    requires n < |gs| && InFile(gs, n, size)
    ensures GroupInFile(gs[n], size) ==> InFile(gs, n + 1, size)
    ensures !GroupInFile(gs[n], size) ==> !InFile(gs, |gs|, size)
  {
  }

  // ----- every byte once, in its own group's memory ---------------------------------------------------------------

  /** The layout of `h`, whose groups are `gs`. */
  ghost predicate LaidOut(h: Header, gs: seq<Group>) {
    gs == Groups(h) && gs != [] && FirstSeg(h, gs, |gs|) <= 0x80
  }

  /** The linear address where group `i` begins. */
  function GroupAt(h: Header, gs: seq<Group>, i: nat): nat
    requires i < |gs|
  {
    Start(Seat(FirstSeg(h, gs, i), BaseOf(h, i)))
  }

  /** Each group, bss included, ends before the segment where the next one starts, so
      groups share no memory; the last one ends inside the 7-bit segment space. */
  lemma {:induction false} GroupsApart(h: Header, gs: seq<Group>, i: nat, j: nat)
    requires i < j <= |gs|
    ensures GroupAt(h, gs, i) + gs[i].span + gs[i].bss <= FirstSeg(h, gs, i + 1) * 0x1_0000
    ensures FirstSeg(h, gs, i + 1) <= FirstSeg(h, gs, j)
    ensures j < |gs| ==> GroupAt(h, gs, i) + gs[i].span + gs[i].bss <= GroupAt(h, gs, j)
  {
    hide Needs;
    NeedsOne(gs[i], BaseOf(h, i));
    if i + 1 < j {
      GroupsApart(h, gs, i, j - 1);
      NeedsOne(gs[j - 1], BaseOf(h, j - 1));
    }
  }

  /** Piece `k` of group `i` is written over address `a`. */
  predicate Covers(h: Header, gs: seq<Group>, i: nat, k: nat, a: nat)
    requires i < |gs| && k < |gs[i].pieces|
  {
    var p := gs[i].pieces[k];
    GroupAt(h, gs, i) + p.moff <= a < GroupAt(h, gs, i) + p.moff + p.len
  }

  /** The pieces of a tiled group follow one another and stay inside its span. */
  lemma {:induction false} PieceInside(g: Group, k: nat, j: nat)
    requires Tiled(g) && k < j <= |g.pieces|
    ensures g.pieces[k].moff + g.pieces[k].len <= if j < |g.pieces| then g.pieces[j].moff else g.span
    decreases j
  {
    if k + 1 < j { PieceInside(g, k, j - 1); }
  }

  lemma OneCover(h: Header, gs: seq<Group>, i: nat, k: nat, i': nat, k': nat, a: nat)
    requires forall g :: g in gs ==> Tiled(g)
    requires i < |gs| && k < |gs[i].pieces| && i' < |gs| && k' < |gs[i'].pieces|
    requires Covers(h, gs, i, k, a) && Covers(h, gs, i', k', a)
    ensures i == i' && k == k'
  {
    hide FirstSeg;
    PieceInside(gs[i], k, |gs[i].pieces|);
    PieceInside(gs[i'], k', |gs[i'].pieces|);
    if i < i' { GroupsApart(h, gs, i, i'); }
    if i' < i { GroupsApart(h, gs, i', i); }
    if i == i' && k < k' { PieceInside(gs[i], k, k'); }
    if i == i' && k' < k { PieceInside(gs[i], k', k); }
  }

  /** The address a piece's copy of file byte `f` lands on. */
  function Landing(h: Header, gs: seq<Group>, i: nat, k: nat, f: nat): int
    requires i < |gs| && k < |gs[i].pieces|
  {
    GroupAt(h, gs, i) + gs[i].pieces[k].moff + (f - gs[i].pieces[k].foff)
  }

  lemma {:induction false} InGroupSound(g: Group, start: nat, n: nat, a: nat) returns (k: nat)
    requires n <= |g.pieces| && InGroup(g, start, n, a).Some?
    ensures k < n && start + g.pieces[k].moff <= a < start + g.pieces[k].moff + g.pieces[k].len
    ensures InGroup(g, start, n, a).value == g.pieces[k].foff + (a - start - g.pieces[k].moff)
  {
    var p := g.pieces[n - 1];
    if start + p.moff <= a < start + p.moff + p.len { k := n - 1; } else { k := InGroupSound(g, start, n - 1, a); }
  }

  lemma {:induction false} InGroupComplete(g: Group, start: nat, n: nat, k: nat, a: nat)
    requires k < n <= |g.pieces| && Tiled(g)
    requires start + g.pieces[k].moff <= a < start + g.pieces[k].moff + g.pieces[k].len
    ensures InGroup(g, start, n, a) == Some(g.pieces[k].foff + (a - start - g.pieces[k].moff))
  {
    if k < n - 1 {
      PieceInside(g, k, n - 1);
      InGroupComplete(g, start, n - 1, k, a);
    }
  }

  lemma {:induction false} SourceSound(h: Header, gs: seq<Group>, n: nat, a: nat) returns (i: nat, k: nat)
    requires n <= |gs| && Source(gs, Seats(h, gs), n, a).Some?
    ensures i < n && k < |gs[i].pieces| && Covers(h, gs, i, k, a)
    ensures var f := Source(gs, Seats(h, gs), n, a).value;
      HoldsByte(gs[i].pieces[k], f) && Landing(h, gs, i, k, f) == a
  {
    hide InGroup, FirstSeg;
    var g, start := gs[n - 1], Start(Seats(h, gs)[n - 1]);
    if InGroup(g, start, |g.pieces|, a).Some? {
      i := n - 1;
      k := InGroupSound(g, start, |g.pieces|, a);
    } else {
      i, k := SourceSound(h, gs, n - 1, a);
    }
  }

  lemma {:induction false} SourceComplete(h: Header, gs: seq<Group>, n: nat, i: nat, k: nat, a: nat)
    requires i < n <= |gs| && k < |gs[i].pieces| && Covers(h, gs, i, k, a) && forall g :: g in gs ==> Tiled(g)
    ensures Source(gs, Seats(h, gs), n, a)
         == Some(gs[i].pieces[k].foff + (a - GroupAt(h, gs, i) - gs[i].pieces[k].moff))
  {
    hide InGroup, FirstSeg, Tiled;
    var g, start := gs[n - 1], Start(Seats(h, gs)[n - 1]);
    if i == n - 1 {
      InGroupComplete(g, start, |g.pieces|, k, a);
    } else {
      if InGroup(g, start, |g.pieces|, a).Some? {
        var k' := InGroupSound(g, start, |g.pieces|, a);
        OneCover(h, gs, i, k, n - 1, k', a);
      }
      SourceComplete(h, gs, n - 1, i, k, a);
    }
  }

  // Counting pieces: at least one holder has a witness, two different holders count twice.

  lemma {:induction false} HitWitness(ps: seq<Piece>, f: nat) returns (k: nat)
    requires Hits(ps, f) > 0
    ensures k < |ps| && HoldsByte(ps[k], f)
  {
    if HoldsByte(ps[|ps| - 1], f) { k := |ps| - 1; } else { k := HitWitness(ps[..|ps| - 1], f); }
  }

  lemma {:induction false} HolderWitness(gs: seq<Group>, n: nat, f: nat) returns (i: nat, k: nat)
    requires n <= |gs| && Holders(gs, n, f) > 0
    ensures i < n && k < |gs[i].pieces| && HoldsByte(gs[i].pieces[k], f)
  {
    if Hits(gs[n - 1].pieces, f) > 0 {
      i := n - 1;
      k := HitWitness(gs[n - 1].pieces, f);
    } else {
      i, k := HolderWitness(gs, n - 1, f);
    }
  }

  lemma {:induction false} HitCounts(ps: seq<Piece>, f: nat, k: nat, k': nat)
    requires k <= k' < |ps| && HoldsByte(ps[k], f) && HoldsByte(ps[k'], f)
    ensures Hits(ps, f) >= if k < k' then 2 else 1
  {
    var init := ps[..|ps| - 1];
    if k' < |init| { HitCounts(init, f, k, k'); }
    else if k < |init| { HitCounts(init, f, k, k); }
  }

  lemma {:induction false} HolderCounts(gs: seq<Group>, n: nat, f: nat, i: nat, k: nat, i': nat, k': nat)
    requires i <= i' < n <= |gs| && k < |gs[i].pieces| && k' < |gs[i'].pieces| && (i == i' ==> k <= k')
    requires HoldsByte(gs[i].pieces[k], f) && HoldsByte(gs[i'].pieces[k'], f)
    ensures Holders(gs, n, f) >= if (i, k) == (i', k') then 1 else 2
  {
    hide Hits, HoldsByte;
    var ps := gs[n - 1].pieces;
    if i' < n - 1 {
      HolderCounts(gs, n - 1, f, i, k, i', k');
    } else if i < n - 1 {
      HitCounts(ps, f, k', k');
      HolderCounts(gs, n - 1, f, i, k, i, k);
    } else {
      HitCounts(ps, f, k, k');
    }
  }

  /** Among the groups of a header: exactly the initialised bytes are held, each by one piece. */
  lemma OneHolder(h: Header, f: nat)
    ensures var gs := Groups(h);
      Holders(gs, |gs|, f) == if h.tbase <= f < h.tbase + ImageSize(h) then 1 else 0
    ensures forall g :: g in Groups(h) ==> Tiled(g) && !Empty(g)
  {
    hide Arms, Kept, Holders, Tiled;
    ArmsTiled(h);
    ArmsHold(h, f);
    KeptHolds(Arms(h), |Arms(h)|, f);
  }

  /** Only initialised file bytes are placed, and no byte at two addresses. */
  lemma PlacedAtMostOnce(h: Header, a: nat, b: nat)
    ensures var gs := Groups(h);
            var from := Source(gs, Seats(h, gs), |gs|, a);
      from.Some? ==>
        && h.tbase <= from.value < h.tbase + ImageSize(h)
        && (Source(gs, Seats(h, gs), |gs|, b) == from ==> a == b)
  {
    hide Groups, Source, Holders, Tiled, HoldsByte, GroupAt, FirstSeg, Covers;
    var gs := Groups(h);
    var from := Source(gs, Seats(h, gs), |gs|, a);
    if from.Some? {
      var f := from.value;
      OneHolder(h, f);
      var i, k := SourceSound(h, gs, |gs|, a);
      HolderCounts(gs, |gs|, f, i, k, i, k);
      if Source(gs, Seats(h, gs), |gs|, b) == from {
        var i', k' := SourceSound(h, gs, |gs|, b);
        if (i, k) != (i', k') {
          if i < i' || (i == i' && k < k') { HolderCounts(gs, |gs|, f, i, k, i', k'); }
          else { HolderCounts(gs, |gs|, f, i', k', i, k); }
        }
      }
    }
  }

  /** Every initialised file byte is placed, at an address inside its group's initialised part. */
  lemma PlacedSomewhere(h: Header, f: nat) returns (i: nat, a: nat)
    requires h.tbase <= f < h.tbase + ImageSize(h)
    ensures var gs := Groups(h);
      && i < |gs| && GroupAt(h, gs, i) <= a < GroupAt(h, gs, i) + gs[i].span
      && Source(gs, Seats(h, gs), |gs|, a) == Some(f)
  {
    hide Groups, Source, Holders, FirstSeg, Seats;
    var gs := Groups(h);
    OneHolder(h, f);
    var k: nat;
    i, k := HolderWitness(gs, |gs|, f);
    a := Landing(h, gs, i, k, f);
    SourceComplete(h, gs, |gs|, i, k, a);
    PieceInside(gs[i], k, |gs[i].pieces|);
  }

  lemma {:induction false} SpanCovered(g: Group, n: nat, m: nat) returns (k: nat)
    requires Tiled(g) && n <= |g.pieces| && m < if n == 0 then 0 else g.pieces[n - 1].moff + g.pieces[n - 1].len
    ensures k < n && g.pieces[k].moff <= m < g.pieces[k].moff + g.pieces[k].len
  {
    assert n > 0;
    if g.pieces[n - 1].moff <= m {
      k := n - 1;
    } else {
      assert n > 1 && g.pieces[n - 1].moff == g.pieces[n - 2].moff + g.pieces[n - 2].len;
      k := SpanCovered(g, n - 1, m);
    }
  }

  /** A group's memory is written with file bytes over exactly its span; its bss keeps
      what memory held. */
  lemma SpanFilledBssNot(h: Header, i: nat, m: nat)
    requires i < |Groups(h)| && m < Groups(h)[i].span + Groups(h)[i].bss
    ensures var gs := Groups(h);
      Source(gs, Seats(h, gs), |gs|, GroupAt(h, gs, i) + m).Some? <==> m < gs[i].span
  {
    hide Groups, Source, FirstSeg, Holders;
    var gs := Groups(h);
    OneHolder(h, 0);
    var a := GroupAt(h, gs, i) + m;
    if m < gs[i].span {
      var k := SpanCovered(gs[i], |gs[i].pieces|, m);
      SourceComplete(h, gs, |gs|, i, k, a);
    } else if Source(gs, Seats(h, gs), |gs|, a).Some? {
      var i', k' := SourceSound(h, gs, |gs|, a);
      PieceInside(gs[i'], k', |gs[i'].pieces|);
      if i' < i { GroupsApart(h, gs, i', i); }
      if i < i' { GroupsApart(h, gs, i, i'); }
    }
  }

  lemma PieceInFile(h: Header, i: nat, k: nat)
    requires i < |Groups(h)| && k < |Groups(h)[i].pieces|
    ensures Groups(h)[i].pieces[k].foff + Groups(h)[i].pieces[k].len <= h.tbase + ImageSize(h)
  {
    hide Groups, FirstSeg, Holders;
    var gs := Groups(h);
    var p := gs[i].pieces[k];
    OneHolder(h, p.foff);
    assert Tiled(gs[i]);
    OneHolder(h, p.foff + p.len - 1);
    HolderCounts(gs, |gs|, p.foff + p.len - 1, i, k, i, k);
  }

  /** Every piece of a layout is inside the 7-bit segment space. */
  lemma PieceBounds(h: Header, i: nat, k: nat)
    requires LaidOut(h, Groups(h)) && i < |Groups(h)| && k < |Groups(h)[i].pieces|
    ensures var p := Groups(h)[i].pieces[k];
      GroupAt(h, Groups(h), i) + p.moff + p.len <= 0x80_0000
  {
    hide Groups, FirstSeg, Holders;
    var gs := Groups(h);
    OneHolder(h, 0);
    PieceInside(gs[i], k, |gs[i].pieces|);
    GroupsApart(h, gs, i, |gs|);
  }

  /** Memory after a load: each address holds the byte sent to it, or what it held. */
  ghost predicate IsLoaded(h: Header, file: seq<byte>, was: seq<byte>, now: seq<byte>) {
    |now| == |was| && forall a :: 0 <= a < |now| ==>
      now[a] == Loaded(was, file, Source(Groups(h), Seats(h, Groups(h)), |Groups(h)|, a), a)
  }

  /** The pieces are the same whatever the sums do, so they are always inside the file. */
  lemma CodePiecesInFile(h: Header, size: nat)
    requires IntSized(h) && h.tbase + ImageSize(h) <= size
    ensures InFile(CodeGroups(h), |CodeGroups(h)|, size)
  {
    hide Groups, CodeGroups, Holders, ImageSize, IntSized, Wrapped;
    CodeGroupsAre(h);
    var gs, cs := Groups(h), CodeGroups(h);
    forall i, k | 0 <= i < |cs| && 0 <= k < |cs[i].pieces|
      ensures cs[i].pieces[k].foff + cs[i].pieces[k].len <= size
    {
      assert cs[i] == Wrapped(gs[i]);
      WrapKeepsSpan(gs[i]);
      PieceInFile(h, i, k);
    }
  }

  /** Lays out and loads an executable whose sections are inside the file. Memory then holds
      the pieces as the layout seats them, and is otherwise as it was. When no sum passes the
      largest int the load succeeds exactly when there is content and every group fits the
      segment space, and then every initialised file byte is in memory. */
  method LoadExecutable(h: Header, file: seq<byte>, ram: array<byte>) returns (r: Outcome)
    requires IntSized(h) && h.tbase + ImageSize(h) <= |file| && ram.Length == RAM
    modifies ram
    ensures CodeSeated(h, CodeGroups(h), r)
    ensures r.Placed? ==> IsCopied(r.layout, file, old(ram[..]), ram[..])
    ensures !r.Placed? ==> ram[..] == old(ram[..])
    ensures FitsInt(h) ==> IsSeated(h, Groups(h), r) && (r.Placed? <==> LaidOut(h, Groups(h)))
    ensures FitsInt(h) && r.Placed? ==> IsLoaded(h, file, old(ram[..]), ram[..])
  {
    hide Groups, CodeGroups, FirstSeg, CodeFirstSeg, Source, Copied, ImageSize, GroupAt, FitsInt, IntSized,
         InRam, Loaded;
    r := LoutLayout(h);
    if FitsInt(h) { LayoutDecided(h, r); }
    if r.Placed? {
      var l := r.layout;
      CodePiecesInFile(h, |file|);
      var ok := Load(ram, file, l);
      if FitsInt(h) {
        LayoutInRam(h, l);
        forall a | 0 <= a < RAM
          ensures Copied(l.groups, l.seats, |l.groups|, a) == Source(l.groups, l.seats, |l.groups|, a)
        {
          CopiedIsSource(l, |l.groups|, a);
        }
      }
    }
  }

  /** Memory after the pieces of a layout were copied to it in order. */
  ghost predicate IsCopied(l: Layout, file: seq<byte>, was: seq<byte>, now: seq<byte>) {
    && |l.groups| == |l.seats| && |now| == |was|
    && forall a :: 0 <= a < |now| ==> now[a] == Loaded(was, file, Copied(l.groups, l.seats, |l.groups|, a), a)
  }

  lemma LayoutInRam(h: Header, l: Layout)
    requires IsSeated(h, Groups(h), Placed(l))
    ensures |l.groups| == |l.seats| && InRam(l)
  {
    hide Groups, FirstSeg, GroupAt;
    forall i, k | 0 <= i < |l.groups| && 0 <= k < |l.groups[i].pieces|
      ensures Start(l.seats[i]) + l.groups[i].pieces[k].moff + l.groups[i].pieces[k].len <= RAM
    {
      PieceBounds(h, i, k);
      SeatIs(h, l.groups, i);
    }
  }

  lemma SeatIs(h: Header, gs: seq<Group>, i: nat)
    requires i < |gs|
    ensures GroupAt(h, gs, i) == Start(Seats(h, gs)[i])
  {
    hide FirstSeg;
  }

  lemma {:induction false} FirstSegGrows(h: Header, gs: seq<Group>, i: nat, j: nat)
    requires i <= j <= |gs|
    ensures FirstSeg(h, gs, i) <= FirstSeg(h, gs, j)
  {
    hide Needs;
    if i < j { FirstSegGrows(h, gs, i, j - 1); }
  }

  /** A layout as it should be succeeds exactly when some section has content and the segments
      all the groups need end inside the 7-bit space. */
  lemma LayoutDecided(h: Header, r: Outcome)
    requires IsSeated(h, Groups(h), r)
    ensures r.Placed? <==> LaidOut(h, Groups(h))
    ensures r.NoContent? <==> Groups(h) == []
  {
    hide Groups, FirstSeg;
    if r.PastSegmentSpace? { FirstSegGrows(h, Groups(h), r.group + 1, |Groups(h)|); }
  }

  /** How many of the first `n` groups have content. */
  function ContentBefore(gs: seq<Group>, n: nat): nat
    requires n <= |gs|
  {
    if n == 0 then 0 else ContentBefore(gs, n - 1) + if gs[n - 1].span > 0 || gs[n - 1].bss > 0 then 1 else 0
  }

  lemma {:induction false} KeptInOrder(gs: seq<Group>, n: nat, a: nat)
    requires n <= |gs|
    ensures |Kept(gs, n)| == ContentBefore(gs, n)
    ensures a < n && (gs[a].span > 0 || gs[a].bss > 0) ==>
              ContentBefore(gs, a) < ContentBefore(gs, n) && Kept(gs, n)[ContentBefore(gs, a)] == gs[a]
  {
    if n > 0 {
      KeptInOrder(gs, n - 1, a);
      if a == n - 1 { KeptInOrder(gs, a, a); }
    }
  }

  /** The groups are those of the link mode's that have content, in the table's order; there is none
      exactly when every section and bss is empty. */
  lemma GroupsExact(h: Header, a: nat)
    requires a < |Arms(h)|
    ensures var g, at := Arms(h)[a], ContentBefore(Arms(h), a);
      && |Groups(h)| == ContentBefore(Arms(h), |Arms(h)|)
      && (g.span > 0 || g.bss > 0 ==> at < |Groups(h)| && Groups(h)[at] == g)
    ensures Groups(h) == [] <==> h.si == h.pi == h.bi == h.sd == h.pd == h.bd == 0
  {
    hide Max;
    KeptInOrder(Arms(h), |Arms(h)|, a);
    NothingKept(h);
  }

  lemma NothingKept(h: Header)
    ensures Groups(h) == [] <==> h.si == h.pi == h.bi == h.sd == h.pd == h.bd == 0
  {
    hide Arms;
    var gs := Arms(h);
    assert gs != [] by { ArmSizes(h); }
    if Groups(h) == [] {
      forall a | 0 <= a < |gs| ensures gs[a].span == 0 && gs[a].bss <= 0 { KeptInOrder(gs, |gs|, a); }
    } else if forall a :: 0 <= a < |gs| ==> gs[a].span == 0 && gs[a].bss <= 0 {
      NoneKept(gs, |gs|);
    }
    ArmSizes(h);
  }

  lemma {:induction false} NoneKept(gs: seq<Group>, n: nat)
    requires n <= |gs| && forall a :: 0 <= a < n ==> gs[a].span == 0 && gs[a].bss <= 0
    ensures Kept(gs, n) == []
  {
    if n > 0 { NoneKept(gs, n - 1); }
  }

  lemma ArmSizes(h: Header)
    ensures Arms(h) != []
    ensures (forall a :: 0 <= a < |Arms(h)| ==> Arms(h)[a].span == 0 && Arms(h)[a].bss <= 0)
      <==> h.si == h.pi == h.bi == h.sd == h.pd == h.bd == 0
  {
    var gs := Arms(h);
    if h.flag % 4 == 0 {
      assert forall a :: 0 <= a < |gs| ==> gs[a] == gs[0];
    } else if h.flag % 4 == 3 {
      assert gs[0].span == h.si && gs[1].span == h.pi && gs[1].bss == h.bi;
      assert gs[2].span == h.sd && gs[3].span == h.pd && gs[3].bss == h.bd;
      assert |gs| == 4;
    } else {
      assert gs[0].span + gs[1].span == h.si + h.pi + h.sd + h.pd && gs[0].bss + gs[1].bss == h.bi + h.bd;
      assert |gs| == 2;
    }
  }

  /** The first group starts at the entry point, each later one at offset 0 of the first segment the
      one before it does not reach; a group reaches as many segments as its bytes and bss take from
      where it starts, and at least one. */
  lemma SeatsTight(h: Header, l: Layout, i: nat, n: nat)
    requires IsSeated(h, Groups(h), Placed(l)) && i < |l.groups|
    ensures var g, at := l.groups[i], l.seats[i];
            var next := if i + 1 < |l.groups| then l.seats[i + 1].seg else l.lastSeg + 1;
      && |l.seats| == |l.groups|
      && (i == 0 ==> at == Seat(h.entrySeg, h.entryOff)) && (i > 0 ==> at.base == 0)
      && next > at.seg && at.base + g.span + g.bss <= 0x1_0000 * (next - at.seg)
      && (1 <= n < next - at.seg ==> at.base + g.span + g.bss > 0x1_0000 * n)
  {
    hide Groups, Needs;
    var gs := Groups(h);
    NeedsLeast(gs[i], BaseOf(h, i), n);
    assert FirstSeg(h, gs, i + 1) == FirstSeg(h, gs, i) + Needs(gs[i], BaseOf(h, i));
    NeedsOne(gs[|gs| - 1], BaseOf(h, |gs| - 1));
  }

  lemma NeedsLeast(g: Group, base: nat, n: nat)
    ensures Needs(g, base) >= 1 && base + g.span + g.bss <= 0x1_0000 * Needs(g, base)
    ensures 1 <= n < Needs(g, base) ==> base + g.span + g.bss > 0x1_0000 * n
  {
  }

  /** After a load every initialised file byte is in memory at exactly one of the written
      addresses, and an address no byte was sent to keeps what it held. */
  lemma LoadedOnce(h: Header, file: seq<byte>, was: seq<byte>, now: seq<byte>, f: nat) returns (a: nat)
    requires h.tbase <= f < h.tbase + ImageSize(h) <= |file|
    requires LaidOut(h, Groups(h)) && |was| >= 0x80_0000
    requires IsLoaded(h, file, was, now)
    ensures var gs := Groups(h);
      && a < |now| && now[a] == file[f] && Source(gs, Seats(h, gs), |gs|, a) == Some(f)
      && forall b :: 0 <= b < |now| && b != a ==> Source(gs, Seats(h, gs), |gs|, b) != Some(f)
  {
    hide Groups, Source, FirstSeg, ImageSize;
    var gs := Groups(h);
    var i: nat;
    i, a := PlacedSomewhere(h, f);
    OneHolder(h, f);
    assert Tiled(gs[i]);
    GroupsApart(h, gs, i, |gs|);
    forall b | 0 <= b < |now| && b != a ensures Source(gs, Seats(h, gs), |gs|, b) != Some(f) {
      PlacedAtMostOnce(h, a, b);
    }
  }

  // ----- the table of link modes ------------------------------------------------------------------------------

  /** The initialised sections, in file order. */
  datatype Section = SharedText | PrivateText | SharedData | PrivateData

  function Size(h: Header, s: Section): nat {
    match s case SharedText => h.si case PrivateText => h.pi case SharedData => h.sd case PrivateData => h.pd
  }

  function FileStart(h: Header, s: Section): nat {
    match s
    case SharedText => h.tbase
    case PrivateText => h.tbase + h.si
    case SharedData => h.tbase + h.si + h.pi
    case PrivateData => h.tbase + h.si + h.pi + h.sd
  }

  /** Which group a section belongs to: one for all; shared and private; text and data; each its own. */
  function ArmOf(flag: nat, s: Section): nat {
    var private := When(s.PrivateText? || s.PrivateData?, 1);
    var data := When(s.SharedData? || s.PrivateData?, 1);
    match flag % 4 case 0 => 0 case 1 => private case 2 => data case _ => 2 * data + private
  }

  /** A section follows the earlier sections of its own group. */
  function OffsetIn(h: Header, s: Section): nat {
    Before(h, SharedText, s) + Before(h, PrivateText, s) + Before(h, SharedData, s)
  }

  function Before(h: Header, earlier: Section, s: Section): nat {
    if FileRank(earlier) < FileRank(s) && ArmOf(h.flag, earlier) == ArmOf(h.flag, s) then Size(h, earlier) else 0
  }

  function FileRank(s: Section): nat {
    match s case SharedText => 0 case PrivateText => 1 case SharedData => 2 case PrivateData => 3
  }

  /** In every link mode every byte of every section is where the table of link modes puts it. */
  lemma SectionsAsDocumented(h: Header, s: Section, m: nat)
    requires m < Size(h, s)
    ensures var arm := ArmOf(h.flag, s);
      && arm < |Arms(h)|
      && InGroup(Arms(h)[arm], 0, |Arms(h)[arm].pieces|, OffsetIn(h, s) + m) == Some(FileStart(h, s) + m)
  {
    hide InGroup, AddPiece;
    var fsi, fpi, fsd, fpd := h.tbase, h.tbase + h.si, h.tbase + h.si + h.pi, h.tbase + h.si + h.pi + h.sd;
    var at := OffsetIn(h, s) + m;
    if h.flag % 4 == 0 {
      OnePiece(fsi, h.si + h.pi + h.sd + h.pd, h.bi + h.bd, at);
    } else if h.flag % 4 == 1 {
      if s.SharedText? || s.SharedData? { TwoPieces(fsi, h.si, fsd, h.sd, 0, m); }
      else { TwoPieces(fpi, h.pi, fpd, h.pd, h.bi + h.bd, m); }
    } else if h.flag % 4 == 2 {
      if s.SharedText? || s.PrivateText? { OnePiece(fsi, h.si + h.pi, h.bi, at); }
      else { OnePiece(fsd, h.sd + h.pd, h.bd, at); }
    } else {
      match s {
        case SharedText => OnePiece(fsi, h.si, 0, m);
        case PrivateText => OnePiece(fpi, h.pi, h.bi, m);
        case SharedData => OnePiece(fsd, h.sd, 0, m);
        case PrivateData => OnePiece(fpd, h.pd, h.bd, m);
      }
    }
  }

  /** Each bss follows its private section's group. */
  lemma BssAsDocumented(h: Header, arm: nat)
    requires arm < |Arms(h)|
    ensures Arms(h)[arm].bss == (if ArmOf(h.flag, PrivateText) == arm then h.bi else 0)
                               + (if ArmOf(h.flag, PrivateData) == arm then h.bd else 0)
  {
    hide Max;
  }

  lemma OnePiece(fo: nat, ln: nat, bss: nat, m: nat)
    requires m < ln
    ensures var g := AddPiece(EMPTY, fo, 0, ln); InGroup(g, 0, |g.pieces|, m) == Some(fo + m)
    ensures var g := AddPiece(EMPTY, fo, 0, ln).(bss := bss); InGroup(g, 0, |g.pieces|, m) == Some(fo + m)
  {
  }

  lemma TwoPieces(fo: nat, ln: nat, fo': nat, ln': nat, bss: nat, m: nat)
    ensures var g := AddPiece(AddPiece(EMPTY, fo, 0, ln), fo', ln, ln');
      && (m < ln ==> InGroup(g, 0, |g.pieces|, m) == Some(fo + m))
      && (m < ln' ==> InGroup(g, 0, |g.pieces|, ln + m) == Some(fo' + m))
    ensures var g := AddPiece(AddPiece(EMPTY, fo, 0, ln), fo', ln, ln').(bss := bss);
      && (m < ln ==> InGroup(g, 0, |g.pieces|, m) == Some(fo + m))
      && (m < ln' ==> InGroup(g, 0, |g.pieces|, ln + m) == Some(fo' + m))
  {
  }
}
