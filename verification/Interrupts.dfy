/** Trap and interrupt entry and the interrupt return: whatever mode was interrupted, the
    return puts back every register, both stack pointers, the PC and the FCW. */
module Interrupts {
  import opened Basics
  import opened Cpu

  // ----- the stack --------------------------------------------------------------------------------

  /** The stack pointer: the pair R14/R15, or R15 in the PC's segment. */
  function StackAt(c: State): (a: Addr)
    requires Good(c)
    ensures a.seg < 0x80
  {
    if Seg(c.fcw) then FromPair(c.r[14], c.r[15]) else Addr(c.pc.seg, c.r[15])
  }

  /** Moves the stack pointer; a segmented store keeps only the segment bits of R14. */
  function SetStack(c: State, a: Addr): State
    requires Good(c) && a.seg < 0x80
  {
    if Seg(c.fcw) then c.(r := c.r[14 := SegWord(a.seg)][15 := a.off]) else c.(r := c.r[15 := a.off])
  }

  function Push(c: State, v: u16): (c': State)
    requires Good(c)
    ensures Good(c')
  {
    var a := AddrSub(StackAt(c), 2);
    var c1 := SetStack(c, a);
    c1.(mem := W16(c1.mem, a, v))
  }

  datatype Popped = Popped(c: State, v: u16)

  function Pop(c: State): (p: Popped)
    requires Good(c)
    ensures Good(p.c)
  {
    var a := StackAt(c);
    Popped(SetStack(c, AddrAdd(a, 2)), R16(c.mem, a))
  }

  // ----- selecting a request -----------------------------------------------------------------------

  /** Level lines are sampled into the pending set; NVI and VI only while enabled. */
  function Sample(c: State): State {
    c.(irq := c.irq
            + (if c.lines.nmi then {Nmi} else {})
            + (if c.lines.segt then {SegTrap} else {})
            + (if c.lines.nvi && Has(c.fcw, FCW_NVIE) then {Nvi} else {})
            + (if c.lines.vi && Has(c.fcw, FCW_VIE) then {Vi} else {}))
  }

  /** The highest-priority pending source that is not masked. */
  function Select(c: State): Option<Source> {
    if Epu in c.irq then Some(Epu)
    else if Trap in c.irq then Some(Trap)
    else if SysCall in c.irq then Some(SysCall)
    else if SegTrap in c.irq then Some(SegTrap)
    else if Nmi in c.irq then Some(Nmi)
    else if Nvi in c.irq && Has(c.fcw, FCW_NVIE) then Some(Nvi)
    else if Vi in c.irq && Has(c.fcw, FCW_VIE) then Some(Vi)
    else None
  }

  /** The byte offset of a source's entry in the program status area. */
  function VectorOffset(s: Source): nat {
    match s
    case Epu => 0x08 case Trap => 0x10 case SysCall => 0x18 case SegTrap => 0x20
    case Nmi => 0x28 case Nvi => 0x30 case Vi => 0x38
  }

  /** The tag word: the opcode for an internal trap, the device's vector for VI, else 0. */
  function TagOf(c: State, s: Source): u16 {
    match s
    case Epu | Trap | SysCall => c.curOp
    case Vi => c.viVector
    case _ => 0
  }

  /** Where the handler's PC is: a VI device with a vector has its own slot. */
  function PcSlot(c: State, s: Source): Addr {
    var own := AddrAdd(c.psap, 2 * (0x1E + c.viVector % 0x100));
    if s == Vi && c.viVector != 0 && own != Addr(0, 0) then own
    else AddrAdd(AddrAdd(c.psap, VectorOffset(s)), 4)
  }

  // ----- entry and return ---------------------------------------------------------------------------

  /** Entry happens in system-segmented mode. */
  function EntryFcw(f: u16): u16 { f % 0x4000 + 0xC000 }

  lemma EntryModes(f: u16)
    ensures Seg(EntryFcw(f)) && System(EntryFcw(f))
  {
  }

  /** The PC as two stacked words: the segment word is tagged with its top bit. */
  function PcHigh(pc: Addr): u16
    requires pc.seg < 0x80
  {
    0x8000 + pc.seg * 0x100
  }

  function PushPc(c: State): (c': State)
    requires Good(c)
    ensures Good(c')
  {
    var a := AddrSub(StackAt(c), 4);
    var c1 := SetStack(c, a);
    c1.(mem := W16(W16(c1.mem, a, PcHigh(c.pc)), AddrAdd(a, 2), c.pc.off))
  }

  /** The interrupted state stacked: PC, then FCW, then tag. */
  function Stacked(c: State, tag: u16): (c': State)
    requires Good(c)
    ensures Good(c')
  {
    Push(Push(PushPc(ChangeFcw(c, EntryFcw(c.fcw))), c.fcw), tag)
  }

  function Enter(c: State, s: Source): (c': State)
    requires Good(c)
    ensures Good(c')
  {
    var c1 := Stacked(c.(irq := c.irq - {s}), TagOf(c, s));
    var nf := R16(c1.mem, AddrAdd(AddrAdd(c.psap, VectorOffset(s)), 2));
    var slot := PcSlot(c, s);
    var pc := FromPair(R16(c1.mem, slot), R16(c1.mem, AddrAdd(slot, 2)));
    ChangeFcw(c1.(pc := pc), nf).(halted := false)
  }

  /** One boundary: sample the lines, then take the selected request, if any. */
  function Boundary(c: State): (r: (State, bool))
    requires Good(c)
    ensures Good(r.0)
  {
    var c1 := Sample(c);
    if c1.irq == {} then (c1, false) else
    match Select(c1)
    case None => (c1, false)
    case Some(s) => (Enter(c1, s), true)
  }

  /** The return: discard the tag, pop FCW and PC, and change mode last. */
  function Iret(c: State): (c': State)
    requires Good(c)
    ensures Good(c')
  {
    if !System(c.fcw) then c.(irq := c.irq + {Trap}) else
    var t := Pop(c);
    var f := Pop(t.c);
    var hi := Pop(f.c);
    if Seg(c.fcw) then
      var lo := Pop(hi.c);
      ChangeFcw(lo.c.(pc := FromPair(hi.v, lo.v)), f.v)
    else ChangeFcw(hi.c.(pc := Addr(0, hi.v)), f.v)
  }

  // ----- one entry, any handler that gives its frame back, one return -------------------------------------

  /** The system stack pointer an entry from this state uses. */
  function EntryStack(c: State): (a: Addr)
    requires Good(c)
    ensures a.seg < 0x80
  {
    StackAt(ChangeFcw(c, EntryFcw(c.fcw)))
  }

  /** The `k`-th word above a stack pointer, within its segment. */
  function Word(sp: Addr, k: nat): Addr { AddrAdd(sp, 2 * k) }

  lemma AddTwice(a: Addr, m: nat, n: nat)
    ensures AddrAdd(AddrAdd(a, m), n) == AddrAdd(a, m + n)
  {
  }

  lemma SubThenAdd(a: Addr, m: nat, n: nat)
    requires m <= 0x1_0000
    ensures n >= m ==> AddrAdd(AddrSub(a, m), n) == AddrAdd(a, n - m)
    ensures n <= m ==> AddrAdd(AddrSub(a, m), n) == AddrSub(a, m - n)
  {
  }

  lemma SubTwice(a: Addr, m: nat, n: nat)
    ensures AddrSub(AddrSub(a, m), n) == AddrSub(a, m + n)
  {
  }

  lemma SegWordBack(seg: nat, off: u16)
    requires seg < 0x80
    ensures FromPair(SegWord(seg), off) == Addr(seg, off)
  {
  }

  /** Memory with an entry's four words below the stack pointer `sp`. */
  function Framed(mem: seq<byte>, sp: Addr, pc: Addr, fcw: u16, tag: u16): (m: seq<byte>)
    requires |mem| == RAM && sp.seg < 0x80 && pc.seg < 0x80
    ensures |m| == RAM
  {
    var low := AddrSub(sp, 8);
    W16(W16(W16(W16(mem, Word(low, 2), PcHigh(pc)), Word(low, 3), pc.off), Word(low, 1), fcw), low, tag)
  }

  /** The state with its system stack segment word reduced to the segment bits. */
  function Reduced(c: State): State
    requires Good(c)
  {
    if Seg(c.fcw) && System(c.fcw) then c.(r := c.r[14 := Canonical(c.r[14])]) else c.(nspseg := Canonical(c.nspseg))
  }

  lemma StackedShape(c: State, tag: u16)
    requires Good(c)
    ensures var e := ChangeFcw(c, EntryFcw(c.fcw));
            var sp := StackAt(e);
      Stacked(c, tag) == e.(r := e.r[14 := SegWord(sp.seg)][15 := AddrSub(sp, 8).off],
                            mem := Framed(c.mem, sp, c.pc, c.fcw, tag))
  {
    hide W16, AddrSub, AddrAdd, SegWord, FromPair, PcHigh, ChangeFcw, Seg, System;
    EntryModes(c.fcw);
    ChangeKeeps(c, EntryFcw(c.fcw));
    var e := ChangeFcw(c, EntryFcw(c.fcw));
    var sp := StackAt(e);
    var p := PushPc(e);
    var a := AddrSub(sp, 4);
    SameSeg(sp, 4); SameSeg(sp, 8); SameSeg(a, 2); SameSeg(AddrSub(a, 2), 2);
    SegWordBack(sp.seg, a.off);
    SegWordBack(sp.seg, AddrSub(a, 2).off);
    SubTwice(sp, 4, 2); SubTwice(a, 2, 2); SubTwice(sp, 4, 4);
    SubTwice(sp, 6, 2);
    SubThenAdd(sp, 8, 2); SubThenAdd(sp, 8, 4); SubThenAdd(sp, 8, 6); SubThenAdd(sp, 4, 2);
    var q := Push(p, c.fcw);
    assert StackAt(p) == a;
    assert StackAt(q) == AddrSub(a, 2);
  }

  lemma ChangeKeeps(c: State, nf: u16)
    requires Good(c)
    ensures var d := ChangeFcw(c, nf);
      d.pc == c.pc && d.mem == c.mem && d.fcw == nf && d.psap == c.psap && d.irq == c.irq && Good(d)
  {
  }

  lemma SameSeg(a: Addr, n: nat)
    ensures AddrSub(a, n).seg == a.seg && AddrAdd(a, n).seg == a.seg
  {
  }

  /** Words at different places of a 64K stack do not overlap, even across the wrap. */
  lemma WordsApart(sp: Addr, j: nat, k: nat)
    requires j < k < j + 0x8000
    ensures Apart(Word(sp, j), Word(sp, k))
  {
    var x, y := (sp.off + 2 * j) % 0x1_0000, (sp.off + 2 * k) % 0x1_0000;
    assert y == x + 2 * (k - j) || y == x + 2 * (k - j) - 0x1_0000;
  }

  lemma WordZero(a: Addr)
    ensures Word(a, 0) == a
  {
  }

  /** The four words of a frame read back; the words above it, up to the wrap, are as before. */
  lemma FrameReads(mem: seq<byte>, sp: Addr, pc: Addr, fcw: u16, tag: u16)
    requires |mem| == RAM && sp.seg < 0x80 && pc.seg < 0x80
    ensures var m := Framed(mem, sp, pc, fcw, tag);
            var low := AddrSub(sp, 8);
      && R16(m, low) == tag && R16(m, Word(low, 1)) == fcw
      && R16(m, Word(low, 2)) == PcHigh(pc) && R16(m, Word(low, 3)) == pc.off
      && forall k :: 4 <= k < 0x8000 ==> R16(m, Word(low, k)) == R16(mem, Word(low, k))
  {
    hide R16, W16, Word, Apart, AddrSub, PcHigh;
    var low := AddrSub(sp, 8);
    WordInSeg(low);
    assert low.seg == sp.seg by { SameSeg(sp, 8); }
    var m1 := W16(mem, Word(low, 2), PcHigh(pc));
    var m2 := W16(m1, Word(low, 3), pc.off);
    var m3 := W16(m2, Word(low, 1), fcw);
    WordReadBack(mem, Word(low, 2), PcHigh(pc));
    WordReadBack(m1, Word(low, 3), pc.off);
    WordReadBack(m2, Word(low, 1), fcw);
    WordReadBack(m3, low, tag);
    WordZero(low);
    WordsApart(low, 2, 3); WordsApart(low, 1, 2); WordsApart(low, 1, 3);
    WordsApart(low, 0, 1); WordsApart(low, 0, 2); WordsApart(low, 0, 3);
    ApartSym(Word(low, 2), Word(low, 3));
    Untouched(m1, Word(low, 3), pc.off, Word(low, 2));
    Untouched(m2, Word(low, 1), fcw, Word(low, 2));
    Untouched(m2, Word(low, 1), fcw, Word(low, 3));
    Untouched(m3, low, tag, Word(low, 1));
    Untouched(m3, low, tag, Word(low, 2));
    Untouched(m3, low, tag, Word(low, 3));
    forall k | 4 <= k < 0x8000
      ensures R16(Framed(mem, sp, pc, fcw, tag), Word(low, k)) == R16(mem, Word(low, k))
    {
      WordsApart(low, 0, k); WordsApart(low, 1, k); WordsApart(low, 2, k); WordsApart(low, 3, k);
      Untouched(mem, Word(low, 2), PcHigh(pc), Word(low, k));
      Untouched(m1, Word(low, 3), pc.off, Word(low, k));
      Untouched(m2, Word(low, 1), fcw, Word(low, k));
      Untouched(m3, low, tag, Word(low, k));
    }
  }

  lemma Untouched(mem: seq<byte>, a: Addr, v: u16, b: Addr)
    requires |mem| == RAM && a.seg < 0x80 && b.seg < 0x80 && (Apart(a, b) || Apart(b, a))
    ensures R16(W16(mem, a, v), b) == R16(mem, b)
  {
    hide R16, W16;
    ApartSym(a, b);
    WordReadOther(mem, a, v, b);
  }

  lemma ApartSym(a: Addr, b: Addr)
    ensures Apart(a, b) == Apart(b, a)
  {
  }

  lemma WordInSeg(a: Addr)
    ensures forall k :: 0 <= k ==> Word(a, k).seg == a.seg
  {
  }

  /** What a return does in system-segmented mode, given the frame at the stack pointer. */
  lemma IretPops(c: State)
    requires Good(c) && System(c.fcw) && Seg(c.fcw)
    ensures var sp := StackAt(c);
      && Good(Popped4(c))
      && Iret(c) == ChangeFcw(Popped4(c).(pc := FromPair(R16(c.mem, Word(sp, 2)), R16(c.mem, Word(sp, 3)))),
                              R16(c.mem, Word(sp, 1)))
  {
    hide R16, AddrSub, AddrAdd, SegWord, FromPair, ChangeFcw, Seg, System;
    var sp := StackAt(c);
    AddTwice(sp, 2, 2); AddTwice(sp, 4, 2); AddTwice(sp, 6, 2);
    SameSeg(sp, 2); SameSeg(sp, 4); SameSeg(sp, 6); SameSeg(sp, 8);
    SegWordBack(sp.seg, AddrAdd(sp, 2).off);
    SegWordBack(sp.seg, AddrAdd(sp, 4).off);
    SegWordBack(sp.seg, AddrAdd(sp, 6).off);
    var t := Pop(c).c;
    var f := Pop(t).c;
    var h := Pop(f).c;
    assert StackAt(t) == AddrAdd(sp, 2);
    assert StackAt(f) == AddrAdd(sp, 4);
    assert StackAt(h) == AddrAdd(sp, 6);
    assert Pop(h).c.r == Popped4(c).r;
    assert Pop(h).c == Popped4(c);
    assert Iret(c) == ChangeFcw(Pop(h).c.(pc := FromPair(Pop(f).v, Pop(h).v)), Pop(t).v);
  }

  function Popped4(c: State): State
    requires Good(c)
  {
    var sp := StackAt(c);
    c.(r := c.r[14 := SegWord(sp.seg)][15 := AddrAdd(sp, 8).off])
  }

  /** What a handler must give back before its return: the registers and stashed stack
      pointer it was entered with, system-segmented mode, and the frame's PC and FCW. */
  predicate GivesBack(entered: State, c: State)
    requires Good(entered) && Good(c)
  {
    && c.r == entered.r && c.nspseg == entered.nspseg && c.nspoff == entered.nspoff
    && System(c.fcw) && Seg(c.fcw)
    && var sp := StackAt(entered);
       forall k :: 1 <= k < 4 ==> R16(c.mem, Word(sp, k)) == R16(entered.mem, Word(sp, k))
  }

  /** The processor sees the same program state: registers, both stack pointers, PC and FCW. */
  predicate SameProgram(c: State, d: State) {
    c.r == d.r && c.nspseg == d.nspseg && c.nspoff == d.nspoff && c.pc == d.pc && c.fcw == d.fcw
  }

  /** The handler starts in system-segmented mode, as its status area entry says. */
  predicate SegmentedHandler(c: State, s: Source)
    requires Good(c)
  {
    var f := Enter(c, s).fcw;
    System(f) && Seg(f)
  }

  /** What an entry leaves, when the handler's FCW is system-segmented. */
  lemma EnterShape(c: State, s: Source)
    requires Good(c) && SegmentedHandler(c, s)
    ensures var e := ChangeFcw(c, EntryFcw(c.fcw));
            var sp := EntryStack(c);
            var d := Enter(c, s);
      && d.r == e.r[14 := SegWord(sp.seg)][15 := AddrSub(sp, 8).off]
      && d.nspseg == e.nspseg && d.nspoff == e.nspoff && d.psap == c.psap
      && d.mem == Framed(c.mem, sp, c.pc, c.fcw, TagOf(c, s))
      && StackAt(d) == AddrSub(sp, 8)
  {
    hide R16, Framed, AddrSub, AddrAdd, Seg, System, SegWord, EntryFcw, Stacked, FromPair, VectorOffset, PcSlot,
         TagOf;
    var c0 := c.(irq := c.irq - {s});
    StackedShape(c0, TagOf(c, s));
    EntryModes(c.fcw);
    ChangeKeeps(c, EntryFcw(c.fcw));
    var sp := EntryStack(c);
    SameSeg(sp, 8);
    SegWordBack(sp.seg, AddrSub(sp, 8).off);
  }

  /** Any trap or interrupt from any of the four modes, any handler that gives back what it
      was entered with, and a return: the interrupted program's registers, stack
      pointers, PC and FCW are back, except that the system stack's segment word keeps
      only its segment bits. */
  lemma Bracket(c: State, s: Source, back: State)
    requires Good(c) && Good(back) && SegmentedHandler(c, s) && GivesBack(Enter(c, s), back)
    ensures SameProgram(Iret(back), Reduced(c))
    ensures SameProgram(Iret(back), c) <==> Reduced(c) == c
  {
    hide R16, Framed, AddrSub, AddrAdd, Enter, Iret, EntryFcw, PcHigh, TagOf, Word;
    var sp := EntryStack(c);
    EnterShape(c, s);
    var entered := Enter(c, s);
    var low := AddrSub(sp, 8);
    FrameReads(c.mem, sp, c.pc, c.fcw, TagOf(c, s));
    IretPops(back);
    assert StackAt(back) == low;
    PcBack(c.pc);
    TakenBack(c, back, sp);
  }

  lemma PcBack(pc: Addr)
    requires pc.seg < 0x80
    ensures FromPair(PcHigh(pc), pc.off) == pc
  {
  }

  lemma TakenBack(c: State, back: State, sp: Addr)
    requires Good(c) && Good(back) && sp == EntryStack(c)
    requires var e := ChangeFcw(c, EntryFcw(c.fcw));
      && back.r == e.r[14 := SegWord(sp.seg)][15 := AddrSub(sp, 8).off]
      && back.nspseg == e.nspseg && back.nspoff == e.nspoff && System(back.fcw) && Seg(back.fcw)
    requires StackAt(back) == AddrSub(sp, 8)
    ensures SameProgram(ChangeFcw(Popped4(back).(pc := c.pc), c.fcw), Reduced(c))
  {
    EntryModes(c.fcw);
    SubThenAdd(sp, 8, 8);
    ChangeBack(c, EntryFcw(c.fcw));
  }

  // ----- whole runs of nested handlers -----------------------------------------------------------------------

  /** What reaches the processor before a boundary: the request lines, newly raised
      requests, the VI device's vector, and the opcode an internal trap is tagged with. */
  datatype Signal = Signal(lines: Lines, raised: set<Source>, viVector: u16, curOp: u16)

  /** A well-nested run: nothing, or an entry, what happens inside it, its return, and the rest. */
  datatype Run = Done | Handled(signal: Signal, inner: Run, rest: Run)

  function Present(c: State, s: Signal): State {
    c.(lines := s.lines, irq := c.irq + s.raised, viVector := s.viVector, curOp := s.curOp)
  }

  function Go(c: State, run: Run): (d: State)
    requires Good(c)
    ensures Good(d)
    decreases run
  {
    match run
    case Done => c
    case Handled(signal, inner, rest) => Go(Iret(Go(Boundary(Present(c, signal)).0, inner)), rest)
  }

  /** The presented request is taken and its handler starts in system-segmented mode. */
  predicate Taken(c: State, signal: Signal)
    requires Good(c)
  {
    var p := Sample(Present(c, signal));
    Select(p).Some? && SegmentedHandler(p, Select(p).value)
  }

  /** Every entry of the run is so taken. */
  predicate Proper(c: State, run: Run)
    requires Good(c)
    decreases run
  {
    hide Boundary, Iret, Enter, Taken;
    match run
    case Done => true
    case Handled(signal, inner, rest) =>
      && Taken(c, signal)
      && Proper(Boundary(Present(c, signal)).0, inner)
      && Proper(Iret(Go(Boundary(Present(c, signal)).0, inner)), rest)
  }

  function Depth(run: Run): nat {
    match run
    case Done => 0
    case Handled(_, inner, rest) => if Depth(rest) > 1 + Depth(inner) then Depth(rest) else 1 + Depth(inner)
  }

  /** The first `n` words from the stack pointer up are as they were. */
  predicate WordsKept(was: seq<byte>, now: seq<byte>, sp: Addr, n: int)
    requires |was| == RAM && |now| == RAM && sp.seg < 0x80
  {
    forall k {:trigger Word(sp, k)} :: 0 <= k < n ==> R16(now, Word(sp, k)) == R16(was, Word(sp, k))
  }

  lemma TakesSelected(c: State, signal: Signal)
    requires Good(c)
    ensures Good(Present(c, signal))
    ensures var p := Sample(Present(c, signal));
      && Good(p) && SameProgram(p, c) && p.mem == c.mem
      && (Select(p).Some? ==> Boundary(Present(c, signal)) == (Enter(p, Select(p).value), true))
  {
    hide Enter;
  }

  lemma ReducedFacts(c: State, d: State)
    requires Good(c) && Good(d) && (SameProgram(d, c) || SameProgram(d, Reduced(c)))
    ensures SameProgram(Reduced(d), Reduced(c)) && EntryStack(d) == EntryStack(c)
  {
    CanonicalTwice(c.r[14], c.r[15]);
    CanonicalTwice(c.nspseg, c.r[15]);
    CanonicalTwice(c.nspseg, c.nspoff);
    EntryModes(c.fcw);
  }

  lemma CanonicalTwice(w: u16, off: u16)
    ensures Canonical(w) < 0x8000 && Canonical(Canonical(w)) == Canonical(w)
    ensures FromPair(Canonical(w), off) == FromPair(w, off)
  {
  }

  /** A handler's own state is already reduced and enters again on the same stack. */
  lemma EnteredReduced(c: State, s: Source)
    requires Good(c) && SegmentedHandler(c, s)
    ensures var d := Enter(c, s);
      Reduced(d) == d && EntryStack(d) == StackAt(d) == AddrSub(EntryStack(c), 8)
  {
    hide R16, Framed, AddrSub, Enter, TagOf;
    EnterShape(c, s);
    var d := Enter(c, s);
    var sp := EntryStack(c);
    EntryModes(d.fcw);
    CanonicalSeg(sp.seg);
    assert d.r[14] == SegWord(sp.seg);
    assert Reduced(d).r == d.r;
  }

  lemma CanonicalSeg(seg: nat)
    requires seg < 0x80
    ensures Canonical(SegWord(seg)) == SegWord(seg)
  {
  }

  /** One entry, a body that gives back its frame and keeps the words above, and the return:
      the words above the interrupted stack pointer are kept too. */
  lemma BracketKeeps(c: State, s: Source, back: State, n: nat)
    requires Good(c) && Good(back) && SegmentedHandler(c, s) && GivesBack(Enter(c, s), back) && n <= 0x8000 - 4
    requires WordsKept(Enter(c, s).mem, back.mem, AddrSub(EntryStack(c), 8), n + 4)
    ensures WordsKept(c.mem, Iret(back).mem, EntryStack(c), n)
  {
    hide R16, Framed, AddrSub, AddrAdd, Enter, Iret, EntryStack, StackAt, GivesBack, SegmentedHandler, ChangeFcw,
         Seg, System, SegWord;
    var sp := EntryStack(c);
    assert c.pc.seg < 0x80;
    WordInSeg(sp);
    var low := AddrSub(sp, 8);
    EnterShape(c, s);
    FrameReads(c.mem, sp, c.pc, c.fcw, TagOf(c, s));
    IretKeepsMemory(back);
    forall k {:trigger Word(sp, k)} | 0 <= k < n ensures R16(Iret(back).mem, Word(sp, k)) == R16(c.mem, Word(sp, k)) {
      WordShift(sp, k);
      assert Word(low, k + 4) == Word(sp, k);
    }
  }

  lemma IretKeepsMemory(c: State)
    requires Good(c)
    ensures Iret(c).mem == c.mem
  {
    hide R16, AddrAdd, SegWord, FromPair;
  }

  lemma WordShift(sp: Addr, k: nat)
    ensures Word(AddrSub(sp, 8), k + 4) == Word(sp, k)
  {
    SubThenAdd(sp, 8, 2 * (k + 4));
  }

  lemma HandlerModes(c: State, s: Source)
    requires Good(c) && SegmentedHandler(c, s)
    ensures System(Enter(c, s).fcw) && Seg(Enter(c, s).fcw)
  {
    hide Enter;
  }

  lemma GaveBack(entered: State, body: State, n: int)
    requires Good(entered) && Good(body) && System(entered.fcw) && Seg(entered.fcw)
    requires SameProgram(body, entered) && WordsKept(entered.mem, body.mem, StackAt(entered), n) && n >= 4
    ensures GivesBack(entered, body)
  {
    hide R16, StackAt, Word, Seg, System;
  }

  /** Any well-nested run of traps, interrupts and returns whose frames fit the 64K stack
      segment gives the interrupted program back its registers, both stack pointers, PC
      and FCW, and every stacked word above the deepest frame. */
  lemma {:induction false} NestedRuns(c: State, run: Run)
    requires Good(c) && Proper(c, run) && Depth(run) <= 0x2000
    ensures SameProgram(Go(c, run), if run.Done? then c else Reduced(c))
    ensures WordsKept(c.mem, Go(c, run).mem, EntryStack(c), 0x8000 - 4 * Depth(run))
    decreases run
  {
    hide Good, Enter, Iret, Boundary, Sample, Select, Present, SegmentedHandler, EntryStack, Reduced, GivesBack,
         R16, AddrSub, StackAt;
    if run.Handled? {
      TakesSelected(c, run.signal);
      var p := Sample(Present(c, run.signal));
      var s := Select(p).value;
      var entered := Boundary(Present(c, run.signal)).0;
      assert entered == Enter(p, s) && SegmentedHandler(p, s);
      NestedRuns(entered, run.inner);
      var body := Go(entered, run.inner);
      EnteredReduced(p, s);
      ReducedFacts(c, p);
      assert System(entered.fcw) && Seg(entered.fcw) by { HandlerModes(p, s); }
      GaveBack(entered, body, 0x8000 - 4 * Depth(run.inner));
      Bracket(p, s, body);
      var back := Iret(body);
      BracketKeeps(p, s, body, 0x8000 - 4 * Depth(run.inner) - 4);
      NestedRuns(back, run.rest);
      ReducedFacts(c, back);
    }
  }

  /** Byte address `x` is in one of the `n` words below the stack pointer. */
  ghost predicate Below(sp: Addr, n: nat, x: nat) {
    exists k :: 1 <= k <= n && InWord(AddrSub(sp, 2 * k), x)
  }

  predicate InWord(a: Addr, x: nat) { x == Linear(a) || x == Linear(a) + 1 }

  ghost predicate OnlyFrames(was: seq<byte>, now: seq<byte>, sp: Addr, n: nat)
    requires |was| == RAM && |now| == RAM
  {
    forall x :: 0 <= x < RAM && !Below(sp, n, x) ==> now[x] == was[x]
  }

  lemma FrameInside(mem: seq<byte>, sp: Addr, pc: Addr, fcw: u16, tag: u16)
    requires |mem| == RAM && sp.seg < 0x80 && pc.seg < 0x80
    ensures OnlyFrames(mem, Framed(mem, sp, pc, fcw, tag), sp, 4)
  {
    hide AddrSub, AddrAdd, PcHigh, InWord, Below;
    var m := Framed(mem, sp, pc, fcw, tag);
    var low := AddrSub(sp, 8);
    WordInSeg(low);
    SameSeg(sp, 8);
    WordZero(low);
    forall x | 0 <= x < RAM && !Below(sp, 4, x) ensures m[x] == mem[x] {
      FrameWord(sp, 0, x); FrameWord(sp, 1, x); FrameWord(sp, 2, x); FrameWord(sp, 3, x);
      NotInWord(Word(low, 0), x); NotInWord(Word(low, 1), x); NotInWord(Word(low, 2), x); NotInWord(Word(low, 3), x);
    }
  }

  lemma NotInWord(a: Addr, x: nat)
    ensures !InWord(a, x) ==> x != Linear(a) && x != Linear(a) + 1
  {
  }

  lemma FrameWord(sp: Addr, j: nat, x: nat)
    requires j < 4
    ensures InWord(Word(AddrSub(sp, 8), j), x) ==> Below(sp, 4, x)
  {
    SubThenAdd(sp, 8, 2 * j);
    assert Word(AddrSub(sp, 8), j) == AddrSub(sp, 2 * (4 - j));
  }

  lemma BelowDeeper(sp: Addr, n: nat, x: nat)
    requires Below(AddrSub(sp, 8), n, x)
    ensures Below(sp, n + 4, x)
  {
    var k :| 1 <= k <= n && InWord(AddrSub(AddrSub(sp, 8), 2 * k), x);
    SubTwice(sp, 8, 2 * k);
    assert AddrSub(AddrSub(sp, 8), 2 * k) == AddrSub(sp, 2 * (k + 4));
  }

  lemma BelowMore(sp: Addr, n: nat, m: nat, x: nat)
    requires n <= m && Below(sp, n, x)
    ensures Below(sp, m, x)
  {
  }

  /** A well-nested run writes nothing but its own frames, below the interrupted stack pointer. */
  lemma {:induction false} NestedWritesFrames(c: State, run: Run)
    requires Good(c) && Proper(c, run) && Depth(run) <= 0x2000
    ensures OnlyFrames(c.mem, Go(c, run).mem, EntryStack(c), 4 * Depth(run))
    decreases run
  {
    hide Good, Enter, Iret, Boundary, Sample, Select, Present, SegmentedHandler, EntryStack, Reduced, GivesBack, R16,
         AddrSub, StackAt, Below, Framed, WordsKept;
    if run.Handled? {
      TakesSelected(c, run.signal);
      var p := Sample(Present(c, run.signal));
      var s := Select(p).value;
      var entered := Boundary(Present(c, run.signal)).0;
      assert entered == Enter(p, s) && SegmentedHandler(p, s);
      var body := Go(entered, run.inner);
      var back := Iret(body);
      var sp := EntryStack(c);
      EnterShape(p, s);
      EnteredReduced(p, s);
      ReducedFacts(c, p);
      PcInRange(p); PcInRange(Go(c, run));
      FrameInside(c.mem, sp, p.pc, p.fcw, TagOf(p, s));
      NestedWritesFrames(entered, run.inner);
      IretKeepsMemory(body);
      NestedRuns(c, Handled(run.signal, run.inner, Done));
      ReducedFacts(c, back);
      NestedWritesFrames(back, run.rest);
      forall x | 0 <= x < RAM && !Below(sp, 4 * Depth(run), x) ensures Go(c, run).mem[x] == c.mem[x] {
        if Below(sp, 4, x) { BelowMore(sp, 4, 4 * Depth(run), x); }
        if Below(AddrSub(sp, 8), 4 * Depth(run.inner), x) {
          BelowDeeper(sp, 4 * Depth(run.inner), x);
          BelowMore(sp, 4 * Depth(run.inner) + 4, 4 * Depth(run), x);
        }
        if Below(sp, 4 * Depth(run.rest), x) { BelowMore(sp, 4 * Depth(run.rest), 4 * Depth(run), x); }
      }
    }
  }

  lemma PcInRange(c: State)
    requires Good(c)
    ensures c.pc.seg < 0x80 && |c.mem| == RAM
  {
  }

  // ----- priority -------------------------------------------------------------------------------------------------

  function Rank(s: Source): nat {
    match s case Epu => 0 case Trap => 1 case SysCall => 2 case SegTrap => 3 case Nmi => 4 case Nvi => 5 case Vi => 6
  }

  /** The source is latched or its line is up, and its enable bit, if it has one, is set. */
  predicate Ready(c: State, s: Source) {
    match s
    case Nmi => Nmi in c.irq || c.lines.nmi
    case SegTrap => SegTrap in c.irq || c.lines.segt
    case Nvi => c.fcw / 0x0800 % 2 == 1 && (Nvi in c.irq || c.lines.nvi)
    case Vi => c.fcw / 0x1000 % 2 == 1 && (Vi in c.irq || c.lines.vi)
    case _ => s in c.irq
  }

  /** What is pending once the lines have been looked at: what was latched, and what a raised line
      latches, for NVI and VI only while enabled. */
  predicate Pending(c: State, s: Source) {
    || s in c.irq
    || (s == Nmi && c.lines.nmi)
    || (s == SegTrap && c.lines.segt)
    || (s == Nvi && c.lines.nvi && c.fcw / 0x0800 % 2 == 1)
    || (s == Vi && c.lines.vi && c.fcw / 0x1000 % 2 == 1)
  }

  /** A boundary takes something exactly when a source is ready; it takes the one of highest
      priority, and every other pending source stays pending. Otherwise nothing else changes. */
  lemma PriorityTaken(c: State, t: Source)
    requires Good(c)
    ensures Ready(c, t) ==> Boundary(c).1
    ensures Boundary(c).1 ==>
      && Select(Sample(c)).Some?
      && var s := Select(Sample(c)).value;
         && Ready(c, s) && (Ready(c, t) ==> Rank(s) <= Rank(t))
         && (t in Boundary(c).0.irq <==> t != s && Pending(c, t))
    ensures !Boundary(c).1 ==>
      && Boundary(c).0 == c.(irq := Boundary(c).0.irq) && (t in Boundary(c).0.irq <==> Pending(c, t))
  {
    hide Enter;
    if Boundary(c).1 { EnterConsumes(Sample(c), Select(Sample(c)).value); }
  }

  lemma EnterConsumes(c: State, s: Source)
    requires Good(c)
    ensures Enter(c, s).irq == c.irq - {s}
  {
    hide W16, R16, AddrSub, AddrAdd, SegWord, FromPair, PcHigh, VectorOffset, PcSlot, TagOf;
  }
}
