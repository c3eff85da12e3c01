/** What a trap or interrupt entry and a return do, in terms of the bytes of memory: which handler
    starts, where its FCW and PC come from, and what is on which stack. */
module Entry {
  import opened Basics
  import opened Cpu
  import opened Interrupts

  /** The byte `n` above or below an address, within its segment. */
  function At(a: Addr, n: int): nat { a.seg * 0x1_0000 + (a.off + n) % 0x1_0000 }

  /** The word at a byte address, high byte first. */
  function WordAt(mem: seq<byte>, x: nat): u16
    requires x + 1 < |mem|
  {
    256 * (mem[x] as int) + mem[x + 1] as int
  }

  /** The system stack pointer, whichever mode the processor is in. */
  function SystemStack(c: State): Addr
    requires Good(c)
  {
    Addr(SystemSegment(c) / 256 % 128, SystemOffset(c))
  }

  /** Where in the program status area the handler's PC is: in the source's own entry, or for a
      vectored interrupt whose device gives a nonzero vector in that vector's slot. A slot that
      would be at address 0 does not count as one. */
  function PcPlace(c: State, s: Source): nat {
    var v := c.viVector;
    var own := 2 * (0x1E + v % 0x100);
    if s == Vi && v != 0 && !(c.psap.seg == 0 && (c.psap.off + own) % 0x1_0000 == 0) then own
    else 8 * (Rank(s) + 1) + 4
  }

  /** The request a boundary takes: ready, and none of higher priority is. */
  predicate First(c: State, s: Source) {
    Ready(c, s) && forall t :: Ready(c, t) ==> Rank(s) <= Rank(t)
  }

  lemma TakesFirst(c: State, s: Source)
    requires Good(c) && First(c, s)
    ensures Good(Sample(c)) && Boundary(c) == (Enter(Sample(c), s), true)
  {
    hide Enter, Ready, Select;
    PriorityTaken(c, s);
    var t := Select(Sample(c)).value;
    assert Rank(s) <= Rank(t);
    RanksDiffer(s, t);
  }

  lemma RanksDiffer(s: Source, t: Source)
    ensures Rank(s) == Rank(t) ==> s == t
  {
  }

  lemma ReadsWord(mem: seq<byte>, a: Addr)
    requires |mem| == RAM && a.seg < 0x80
    ensures Linear(a) + 1 < RAM && R16(mem, a) == WordAt(mem, Linear(a))
  {
  }

  lemma Above(a: Addr, n: nat)
    ensures Linear(AddrAdd(a, n)) == At(a, n) && AddrAdd(a, n).seg == a.seg
  {
  }

  lemma Under(a: Addr, n: nat)
    ensures Linear(AddrSub(a, n)) == At(a, 0 - n) && AddrSub(a, n).seg == a.seg
  {
  }

  lemma ReadsAt(mem: seq<byte>, a: Addr, m: nat, n: nat)
    requires |mem| == RAM && a.seg < 0x80
    ensures At(a, m + n) + 1 < RAM && R16(mem, AddrAdd(AddrAdd(a, m), n)) == WordAt(mem, At(a, m + n))
    ensures n == 0 ==> R16(mem, AddrAdd(a, m)) == WordAt(mem, At(a, m))
  {
    hide R16, WordAt, AddrAdd, At, Linear;
    AddTwice(a, m, n);
    Above(a, m + n);
    Above(a, m);
    ReadsWord(mem, AddrAdd(a, m + n));
    ReadsWord(mem, AddrAdd(a, m));
  }

  lemma ReadsBelow(mem: seq<byte>, a: Addr, m: nat, n: nat)
    requires |mem| == RAM && a.seg < 0x80 && n <= m <= 0x1_0000
    ensures At(a, n - m) + 1 < RAM && R16(mem, AddrAdd(AddrSub(a, m), n)) == WordAt(mem, At(a, n - m))
  {
    hide R16, WordAt, AddrAdd, AddrSub, At, Linear;
    Under(a, m - n);
    ReadsWord(mem, AddrSub(a, m - n));
    SubThenAdd(a, m, n);
  }

  /** Everything an entry does, with the stack pointer it pushes at. */
  lemma Entered(c: State, s: Source)
    requires Good(c)
    ensures var d := Enter(c, s);
            var sp := SystemStack(c);
            var slot := PcSlot(c, s);
      && d.mem == Framed(c.mem, sp, c.pc, c.fcw, TagOf(c, s))
      && d.fcw == R16(d.mem, AddrAdd(AddrAdd(c.psap, VectorOffset(s)), 2))
      && slot.seg == c.psap.seg
      && d.pc == FromPair(R16(d.mem, slot), R16(d.mem, AddrAdd(slot, 2)))
      && d.r[..14] == c.r[..14] && NormalOffset(d) == NormalOffset(c) && NormalSegment(d) == NormalSegment(c)
      && SystemStack(d) == AddrSub(sp, 8)
      && d == c.(r := d.r, pc := d.pc, fcw := d.fcw, nspseg := d.nspseg, nspoff := d.nspoff, mem := d.mem,
                 irq := c.irq - {s}, halted := false)
  {
    hide R16, Framed, AddrSub, FromPair, VectorOffset, TagOf, Stacked, ChangeFcw, EntryFcw, SegWord, SystemOffset,
         NormalOffset, NormalSegment, SystemSegment;
    var c0 := c.(irq := c.irq - {s});
    var e := ChangeFcw(c0, EntryFcw(c.fcw));
    BanksKept(c0, EntryFcw(c.fcw));
    var sp := StackAt(e);
    StackedShape(c0, TagOf(c, s));
    EntrySegmented(c.fcw);
    LiveStack(e);
    SameAs(c0, c);
    SameSeg(sp, 8);
    var c1 := Stacked(c0, TagOf(c, s));
    Pushed(e, c1, AddrSub(sp, 8));
    var d := Enter(c, s);
    var slot := PcSlot(c, s);
    var c2 := c1.(pc := FromPair(R16(c1.mem, slot), R16(c1.mem, AddrAdd(slot, 2))));
    SameAs(c1, c2);
    var nf := R16(c1.mem, AddrAdd(AddrAdd(c.psap, VectorOffset(s)), 2));
    BanksKept(c2, nf);
    assert d == ChangeFcw(c2, nf).(halted := false);
    SameAs(ChangeFcw(c2, nf), d);
  }

  lemma EntrySegmented(f: u16)
    ensures InSegmented(EntryFcw(f)) && EntryFcw(f) < 0x1_0000
  {
  }

  /** In system-segmented mode the live stack is the system stack. */
  lemma LiveStack(e: State)
    requires Good(e) && InSegmented(e.fcw)
    ensures StackAt(e) == SystemStack(e)
  {
  }

  lemma SameAs(c: State, d: State)
    requires Good(c) && Good(d) && c.r == d.r && c.nspseg == d.nspseg && c.nspoff == d.nspoff && c.fcw == d.fcw
    ensures SystemStack(c) == SystemStack(d) && SystemSegment(c) == SystemSegment(d)
    ensures SystemOffset(c) == SystemOffset(d)
    ensures NormalOffset(c) == NormalOffset(d) && NormalSegment(c) == NormalSegment(d)
  {
  }

  lemma Pushed(e: State, c: State, low: Addr)
    requires Good(e) && Good(c) && InSegmented(e.fcw) && low.seg < 0x80
    requires c == e.(r := e.r[14 := SegWord(low.seg)][15 := low.off], mem := c.mem)
    ensures SystemStack(c) == low && c.r[..14] == e.r[..14]
    ensures NormalOffset(c) == NormalOffset(e) && NormalSegment(c) == NormalSegment(e)
  {
    SegWordBack(low.seg, low.off);
  }

  lemma Sampled(c: State)
    requires Good(c)
    ensures var p := Sample(c);
      && Good(p) && SystemStack(p) == SystemStack(c) && p == c.(irq := p.irq)
      && NormalOffset(p) == NormalOffset(c) && NormalSegment(p) == NormalSegment(c)
  {
    SameAs(c, Sample(c));
  }

  // ----- which handler starts -----------------------------------------------------------------

  /** The entry's frame does not reach the program status area. */
  ghost predicate AreaClear(c: State)
    requires Good(c)
  {
    forall n :: 0 <= n < 0x23E ==>
      !Below(SystemStack(c), 4, At(c.psap, n)) && !Below(SystemStack(c), 4, At(c.psap, n) + 1)
  }

  /** The word `n` bytes into the program status area. */
  function AreaWord(c: State, mem: seq<byte>, n: nat): u16
    requires Good(c) && |mem| == RAM
  {
    WordAt(mem, At(c.psap, n))
  }

  /** A boundary takes the ready source of highest priority. Its handler's FCW is the third and
      fourth byte of the source's eight-byte entry, counted from 1 in priority order, and its PC
      the pair where `PcPlace` says; read from memory as it was, if the frame stacked on the way
      in does not reach the status area, and else as the entry leaves it. */
  lemma StartsHandler(c: State, s: Source)
    requires Good(c) && First(c, s)
    ensures var d := Boundary(c).0;
            var at := PcPlace(c, s);
            var mem := if AreaClear(c) then c.mem else d.mem;
      && Boundary(c).1 && Good(d)
      && d.fcw == AreaWord(c, mem, 8 * (Rank(s) + 1) + 2)
      && d.pc == Addr(AreaWord(c, mem, at) / 0x100 % 0x80, AreaWord(c, mem, at + 2))
  {
    hide First, Ready, Boundary, Sample, Enter, Framed, R16, AddrAdd, AddrSub, Below, AreaClear, At, WordAt, Rank,
         VectorOffset, PcSlot, SystemStack, NormalOffset, NormalSegment;
    TakesFirst(c, s);
    Sampled(c);
    var p := Sample(c);
    Entered(p, s);
    var d := Enter(p, s);
    var at := PcPlace(c, s);
    Placed(c, s);
    ReadsAt(d.mem, c.psap, 8 * (Rank(s) + 1), 2);
    ReadsAt(d.mem, c.psap, at, 2);
    ReadsAt(d.mem, c.psap, at, 0);
    InSeg(c);
    FrameInside(c.mem, SystemStack(c), c.pc, c.fcw, TagOf(p, s));
    AreaKept(c, d.mem, 8 * (Rank(s) + 1) + 2);
    AreaKept(c, d.mem, at);
    AreaKept(c, d.mem, at + 2);
  }

  lemma Placed(c: State, s: Source)
    requires Good(c)
    ensures VectorOffset(s) == 8 * (Rank(s) + 1) && Rank(s) < 7 && PcPlace(c, s) <= 0x23A
    ensures PcSlot(c, s) == AddrAdd(c.psap, PcPlace(c, s)) && PcSlot(Sample(c), s) == PcSlot(c, s)
  {
    var k := 8 * (Rank(s) + 1);
    AddTwice(c.psap, k, 4);
  }

  lemma AreaKept(c: State, mem: seq<byte>, n: nat)
    requires Good(c) && |mem| == RAM && n < 0x23E && OnlyFrames(c.mem, mem, SystemStack(c), 4)
    ensures AreaClear(c) ==> AreaWord(c, mem, n) == AreaWord(c, c.mem, n)
  {
    hide SystemStack, Below;
    var x := At(c.psap, n);
    assert x + 1 < RAM;
    assert AreaClear(c) ==> !Below(SystemStack(c), 4, x) && !Below(SystemStack(c), 4, x + 1);
  }

  // ----- what is stacked ------------------------------------------------------------------------

  /** The word that says why: the opcode for the three internal traps, the device's vector for a
      vectored interrupt, and 0 for the others. */
  function Why(c: State, s: Source): u16 {
    if Rank(s) < 3 then c.curOp else if s == Vi then c.viVector else 0
  }

  /** An entry from any mode pushes four words just below the system stack pointer: the reason, the
      FCW, the PC's segment word with its top bit set, and the PC's offset, from the bottom up. It
      writes nothing else, moves that pointer by eight, and keeps the normal stack pointer and R0
      to R13. */
  lemma StacksFrame(c: State, s: Source)
    requires Good(c) && First(c, s)
    ensures var d := Boundary(c).0;
            var sp := SystemStack(c);
      && Good(d) && sp.seg < 0x80
      && WordAt(d.mem, At(sp, -8)) == Why(c, s) && WordAt(d.mem, At(sp, -6)) == c.fcw
      && WordAt(d.mem, At(sp, -4)) == 0x8000 + c.pc.seg * 0x100 && WordAt(d.mem, At(sp, -2)) == c.pc.off
      && OnlyFrames(c.mem, d.mem, sp, 4)
      && SystemStack(d) == Addr(sp.seg, (sp.off - 8) % 0x1_0000)
      && d.r[..14] == c.r[..14] && NormalOffset(d) == NormalOffset(c) && NormalSegment(d) == NormalSegment(c)
      && !d.halted
  {
    hide First, Ready, Boundary, Sample, Enter, Framed, R16, Below, At, WordAt, PcSlot, SystemStack, NormalOffset,
         NormalSegment, AddrSub, AddrAdd, VectorOffset, FromPair, OnlyFrames;
    TakesFirst(c, s);
    Sampled(c);
    var p := Sample(c);
    Entered(p, s);
    var d := Enter(p, s);
    var sp := SystemStack(c);
    InSeg(c);
    var tag := TagOf(p, s);
    Reason(c, s);
    FrameInside(c.mem, sp, c.pc, c.fcw, tag);
    FrameReads(c.mem, sp, c.pc, c.fcw, tag);
    WordZero(AddrSub(sp, 8));
    ReadsBelow(d.mem, sp, 8, 0); ReadsBelow(d.mem, sp, 8, 2); ReadsBelow(d.mem, sp, 8, 4); ReadsBelow(d.mem, sp, 8, 6);
    LowerBy(sp, 8);
  }

  lemma InSeg(c: State)
    requires Good(c)
    ensures SystemStack(c).seg < 0x80
  {
  }

  lemma Reason(c: State, s: Source)
    ensures TagOf(Sample(c), s) == Why(c, s)
  {
  }

  lemma LowerBy(a: Addr, n: nat)
    ensures AddrSub(a, n) == Addr(a.seg, (a.off - n) % 0x1_0000)
  {
  }

  /** From normal mode the frame goes below the stashed stack pointer, from system-segmented mode
      below R14 and R15, and from system-nonsegmented mode below R15 in the stashed segment. */
  lemma StackByMode(c: State)
    requires Good(c)
    ensures SystemStack(c) ==
            Addr((if InSegmented(c.fcw) then c.r[14] else c.nspseg) / 0x100 % 0x80,
                 if InNormal(c.fcw) then c.nspoff else c.r[15])
    ensures EntryStack(c) == SystemStack(c)
  {
    hide ChangeFcw, EntryFcw, StackAt;
    EntrySegmented(c.fcw);
    BanksKept(c, EntryFcw(c.fcw));
    LiveStack(ChangeFcw(c, EntryFcw(c.fcw)));
  }

  // ----- what a return takes ----------------------------------------------------------------------

  lemma SegmentedReturn(c: State)
    requires Good(c) && InSegmented(c.fcw)
    ensures var d := Iret(c);
            var sp := SystemStack(c);
      && Good(d) && sp.seg < 0x80
      && d.fcw == WordAt(c.mem, At(sp, 2)) && d.mem == c.mem
      && d.pc == Addr(WordAt(c.mem, At(sp, 4)) / 0x100 % 0x80, WordAt(c.mem, At(sp, 6)))
      && SystemOffset(d) == (sp.off + 8) % 0x1_0000 && SystemSegment(d) == sp.seg * 0x100
      && d.r[..14] == c.r[..14] && NormalOffset(d) == NormalOffset(c) && NormalSegment(d) == NormalSegment(c)
  {
    hide Iret, ChangeFcw, R16, WordAt, At, NormalOffset, NormalSegment;
    var sp := SystemStack(c);
    LiveStack(c);
    IretPops(c);
    ReadsAt(c.mem, sp, 2, 0); ReadsAt(c.mem, sp, 4, 0); ReadsAt(c.mem, sp, 6, 0);
    var q := Popped4(c);
    Pushed(c, q, AddrAdd(sp, 8));
    var q' := q.(pc := FromPair(R16(c.mem, Word(sp, 2)), R16(c.mem, Word(sp, 3))));
    SameAs(q, q');
    BanksKept(q', R16(c.mem, Word(sp, 1)));
  }

  lemma NoSegment(c: State)
    requires Good(c) && !InSegmented(c.fcw) && !InNormal(c.fcw)
    ensures System(c.fcw) && !Seg(c.fcw) && SystemOffset(c) == c.r[15]
  {
  }

  lemma Here(mem: seq<byte>, a: Addr)
    requires |mem| == RAM && a.seg < 0x80
    ensures At(a, 0) + 1 < RAM && R16(mem, a) == WordAt(mem, At(a, 0))
  {
    hide WordAt;
    Same(a);
    ReadsAt(mem, a, 0, 0);
  }

  lemma Same(a: Addr)
    ensures AddrAdd(a, 0) == a
  {
  }

  /** The live stack pointer moved up by two, outside segmented mode. */
  lemma PlainPop(c: State)
    requires Good(c) && !InSegmented(c.fcw) && !InNormal(c.fcw)
    ensures var a := Addr(c.pc.seg, c.r[15]);
      && Pop(c).c == c.(r := c.r[15 := AddrAdd(a, 2).off])
      && At(a, 0) + 1 < RAM && Pop(c).v == WordAt(c.mem, At(a, 0))
  {
    hide R16, WordAt, At, AddrAdd, Seg, InSegmented, InNormal;
    NoSegment(c);
    Here(c.mem, Addr(c.pc.seg, c.r[15]));
  }

  lemma Shifted(a: Addr, m: nat)
    ensures At(AddrAdd(a, m), 0) == At(a, m) && AddrAdd(a, m).seg == a.seg
  {
  }

  lemma PlainReturn(c: State)
    requires Good(c) && !InSegmented(c.fcw) && !InNormal(c.fcw)
    ensures var d := Iret(c);
            var sp := Addr(c.pc.seg, SystemOffset(c));
      && Good(d) && sp.seg < 0x80
      && d.fcw == WordAt(c.mem, At(sp, 2)) && d.mem == c.mem
      && d.pc == Addr(0, WordAt(c.mem, At(sp, 4)))
      && SystemOffset(d) == (sp.off + 6) % 0x1_0000 && SystemSegment(d) == SystemSegment(c)
      && d.r[..14] == c.r[..14] && NormalOffset(d) == NormalOffset(c) && NormalSegment(d) == NormalSegment(c)
  {
    hide ChangeFcw, WordAt, Pop, At, AddrAdd, Seg, System, NormalOffset, NormalSegment;
    var a := Addr(c.pc.seg, c.r[15]);
    NoSegment(c);
    var t := Pop(c);
    PlainPop(c);
    Shifted(a, 2); Shifted(a, 4); Shifted(a, 6);
    AddTwice(a, 2, 2); AddTwice(a, 4, 2);
    var f := Pop(t.c);
    PlainPop(t.c);
    var h := Pop(f.c);
    PlainPop(f.c);
    assert t.c.r[15] == AddrAdd(a, 2).off && Addr(c.pc.seg, t.c.r[15]) == AddrAdd(a, 2);
    assert f.c.r[15] == AddrAdd(a, 4).off && Addr(c.pc.seg, f.c.r[15]) == AddrAdd(a, 4);
    assert h.c == c.(r := c.r[15 := AddrAdd(a, 6).off]);
    var q := h.c.(pc := Addr(0, h.v));
    assert Iret(c) == ChangeFcw(q, f.v);
    BanksKept(q, f.v);
    LiveOffset(c, q, AddrAdd(a, 6).off);
    Past(a, 6);
  }

  lemma Past(a: Addr, n: nat)
    ensures AddrAdd(a, n).off == (a.off + n) % 0x1_0000
  {
  }

  lemma LiveOffset(c: State, q: State, off: u16)
    requires Good(c) && Good(q) && !InSegmented(c.fcw) && !InNormal(c.fcw)
    requires q.r == c.r[15 := off] && q.fcw == c.fcw && q.nspseg == c.nspseg && q.nspoff == c.nspoff
    ensures SystemOffset(q) == off && SystemSegment(q) == SystemSegment(c) && q.r[..14] == c.r[..14]
    ensures NormalOffset(q) == NormalOffset(c) && NormalSegment(q) == NormalSegment(c)
  {
  }

  /** A return in normal mode only asks for the privilege trap. In system mode it skips a word and
      takes the FCW and then the PC, two words when segmented and one, in segment 0, when not; it
      writes no memory, moves the live stack pointer past what it took, and keeps R0 to R13 and the
      normal stack pointer. */
  lemma ReturnTakes(c: State)
    requires Good(c)
    ensures var d := Iret(c);
            var sp := if InSegmented(c.fcw) then SystemStack(c) else Addr(c.pc.seg, SystemOffset(c));
            var n := if InSegmented(c.fcw) then 8 else 6;
      && (InNormal(c.fcw) ==> d == c.(irq := c.irq + {Trap}))
      && (!InNormal(c.fcw) ==>
            && Good(d) && sp.seg < 0x80
            && d.fcw == WordAt(c.mem, At(sp, 2)) && d.mem == c.mem
            && d.pc == (if n == 6 then Addr(0, WordAt(c.mem, At(sp, 4)))
                        else Addr(WordAt(c.mem, At(sp, 4)) / 0x100 % 0x80, WordAt(c.mem, At(sp, 6))))
            && SystemOffset(d) == (sp.off + n) % 0x1_0000
            && SystemSegment(d) == (if n == 6 then SystemSegment(c) else sp.seg * 0x100)
            && d.r[..14] == c.r[..14] && NormalOffset(d) == NormalOffset(c) && NormalSegment(d) == NormalSegment(c))
  {
    hide ChangeFcw, Pop, WordAt, At;
    if InSegmented(c.fcw) {
      SegmentedReturn(c);
    } else if !InNormal(c.fcw) {
      PlainReturn(c);
    }
  }
}
