/** The processor as it runs: registers and memory in arrays, program status in fields. Each
    method leaves exactly the state its specification in `Cpu`, `Interrupts` or
    `BlockOps` gives, so what is proved there holds of it. */
module Processor {
  import opened Basics
  import opened Cpu
  import opened Interrupts
  import opened BlockOps
  import Alu

  class Z8001 {
    const regs: array<u16>
    const ram: array<byte>
    var pc: Addr
    var fcw: u16
    var nspseg: u16
    var nspoff: u16
    var psap: Addr
    var irq: set<Source>
    var lines: Lines
    var viVector: u16
    var curOp: u16
    var halted: bool
    var repeatPending: bool

    ghost predicate Valid()
      reads this
    {
      regs.Length == 16 && ram.Length == RAM && pc.seg < 0x80 && psap.seg < 0x80
    }

    ghost function State(): (c: State)
      requires Valid()
      reads this, regs, ram
      ensures Good(c)
    {
      Cpu.State(regs[..], pc, fcw, nspseg, nspoff, psap, ram[..], irq, lines, viVector, curOp, halted)
    }

    method ChangeFcw(nf: u16)
      requires Valid()
      modifies this`fcw, this`nspseg, this`nspoff, regs
      ensures Valid() && State() == Cpu.ChangeFcw(old(State()), nf)
    {
      var f := fcw;
      if System(nf) != System(f) {
        var t := regs[15];
        regs[15] := nspoff;
        nspoff := t;
      }
      if System(nf) && (!System(f) || Seg(nf) != Seg(f)) {
        var t := regs[14];
        regs[14] := nspseg;
        nspseg := t;
      } else if !System(nf) && System(f) && Seg(f) {
        var t := regs[14];
        regs[14] := nspseg;
        nspseg := t;
      }
      fcw := nf;
    }

    method ReadWord(a: Addr) returns (v: u16)
      requires Valid() && a.seg < 0x80
      ensures v == R16(ram[..], a)
    {
      var hi: nat := ram[Linear(a)];
      v := hi * 0x100 + ram[Linear(a) + 1];
    }

    method WriteWord(a: Addr, v: u16)
      requires Valid() && a.seg < 0x80
      modifies ram
      ensures ram[..] == W16(old(ram[..]), a, v)
    {
      ram[Linear(a)] := v / 0x100;
      ram[Linear(a) + 1] := v % 0x100;
    }

    /** Puts a stack address back: the pair's segment bits and offset, or R15 alone. */
    method StoreStack(a: Addr)
      requires Valid() && a.seg < 0x80
      modifies regs
      ensures State() == SetStack(old(State()), a)
    {
      if Seg(fcw) { regs[14] := SegWord(a.seg); }
      regs[15] := a.off;
    }

    method LoadStack() returns (a: Addr)
      requires Valid()
      ensures a == StackAt(State())
    {
      if Seg(fcw) { a := FromPair(regs[14], regs[15]); } else { a := Addr(pc.seg, regs[15]); }
    }

    method PushWord(v: u16)
      requires Valid()
      modifies regs, ram
      ensures State() == Push(old(State()), v)
    {
      hide W16, SetStack, StackAt;
      var a := LoadStack();
      a := AddrSub(a, 2);
      StoreStack(a);
      WriteWord(a, v);
    }

    method PopWord() returns (v: u16)
      requires Valid()
      modifies regs
      ensures Popped(State(), v) == Pop(old(State()))
    {
      hide R16, SetStack, StackAt;
      var a := LoadStack();
      v := ReadWord(a);
      StoreStack(AddrAdd(a, 2));
    }

    // ----- trap and interrupt entry, and return ------------------------------------------------

    method SampleLines()
      requires Valid()
      modifies this`irq
      ensures Valid() && State() == Sample(old(State()))
    {
      if lines.nmi { irq := irq + {Nmi}; }
      if lines.segt { irq := irq + {SegTrap}; }
      if lines.nvi && Has(fcw, FCW_NVIE) { irq := irq + {Nvi}; }
      if lines.vi && Has(fcw, FCW_VIE) { irq := irq + {Vi}; }
    }

    method PushPcWords()
      requires Valid()
      modifies regs, ram
      ensures State() == PushPc(old(State()))
    {
      hide W16, SetStack, StackAt;
      var a := LoadStack();
      a := AddrSub(a, 4);
      StoreStack(a);
      WriteWord(a, PcHigh(pc));
      WriteWord(AddrAdd(a, 2), pc.off);
    }

    /** The tag word to stack and where the handler's PC is to be read. */
    method VectorFor(s: Source) returns (tag: u16, slot: Addr)
      requires Valid()
      ensures tag == TagOf(State(), s) && slot == PcSlot(State(), s) && slot.seg == psap.seg
    {
      hide VectorOffset;
      var vecaddr := AddrAdd(psap, VectorOffset(s));
      tag := if s == Epu || s == Trap || s == SysCall then curOp else 0;
      slot := AddrAdd(vecaddr, 4);
      if s == Vi {
        tag := viVector;
        if tag != 0 {
          var own := AddrAdd(psap, 2 * (0x1E + tag % 0x100));
          if own != Addr(0, 0) { slot := own; }
        }
      }
    }

    /** Enters system-segmented mode and stacks the PC, the old FCW and the tag. */
    method StackState(s: Source, tag: u16)
      requires Valid()
      modifies this`irq, this`fcw, this`nspseg, this`nspoff, regs, ram
      ensures Valid() && State() == Stacked(old(State()).(irq := old(irq) - {s}), tag)
    {
      hide PushPc, Push, Cpu.ChangeFcw, EntryFcw;
      ghost var c := State();
      var oldFcw := fcw;
      ChangeFcw(EntryFcw(fcw));
      irq := irq - {s};
      ChangeDropsRequest(c, EntryFcw(c.fcw), s);
      PushPcWords();
      PushWord(oldFcw);
      PushWord(tag);
    }

    /** Takes one request: stacks the interrupted state on the system stack and starts its handler. */
    method Take(s: Source)
      requires Valid()
      modifies this, regs, ram
      ensures Valid() && State() == Enter(old(State()), s)
    {
      hide R16, Stacked, Cpu.ChangeFcw, FromPair, VectorOffset, TagOf, PcSlot;
      ghost var c := State();
      var tag, slot := VectorFor(s);
      StackState(s, tag);
      StackedKeeps(c.(irq := c.irq - {s}), tag);
      var nf := ReadWord(AddrAdd(AddrAdd(psap, VectorOffset(s)), 2));
      var pcseg := ReadWord(slot);
      var pcoff := ReadWord(AddrAdd(slot, 2));
      pc := FromPair(pcseg, pcoff);
      ChangeFcw(nf);
      halted := false;
    }

    /** One instruction boundary. */
    method HandleInterrupts() returns (taken: bool)
      requires Valid()
      modifies this, regs, ram
      ensures Valid() && (State(), taken) == Boundary(old(State()))
    {
      hide Enter;
      SampleLines();
      if irq == {} { return false; }
      var s: Source;
      if Epu in irq { s := Epu; }
      else if Trap in irq { s := Trap; }
      else if SysCall in irq { s := SysCall; }
      else if SegTrap in irq { s := SegTrap; }
      else if Nmi in irq { s := Nmi; }
      else if Nvi in irq && Has(fcw, FCW_NVIE) { s := Nvi; }
      else if Vi in irq && Has(fcw, FCW_VIE) { s := Vi; }
      else { return false; }
      Take(s);
      taken := true;
    }

    method ExecIret()
      requires Valid()
      modifies this, regs
      ensures Valid() && State() == Iret(old(State()))
    {
      hide Pop, Cpu.ChangeFcw, FromPair, R16;
      if !System(fcw) {
        irq := irq + {Trap};
        return;
      }
      ghost var c := State();
      var tag := PopWord();
      var nf := PopWord();
      var hi := PopWord();
      PopKeeps(c); PopKeeps(Pop(c).c); PopKeeps(Pop(Pop(c).c).c);
      if Seg(fcw) {
        var lo := PopWord();
        pc := FromPair(hi, lo);
      } else {
        pc := Addr(0, hi);
      }
      ChangeFcw(nf);
    }

    // ----- block instructions -------------------------------------------------------------------

    method AddToAddrReg(r: nat, delta: int)
      requires Valid() && r < 16
      modifies regs
      ensures State() == Advance(old(State()), r, delta)
    {
      var o := if Seg(fcw) then r / 2 * 2 + 1 else r;
      regs[o] := Wrap((regs[o] as int) + delta);
    }

    method AddrFromReg(r: nat) returns (a: Addr)
      requires Valid() && r < 16
      ensures a == Pointer(State(), r)
    {
      if Seg(fcw) { a := FromPair(regs[r / 2 * 2], regs[r / 2 * 2 + 1]); } else { a := Addr(pc.seg, regs[r]); }
    }

    method ReadOperand(a: Addr, word: bool) returns (v: u16)
      requires Valid() && a.seg < 0x80
      ensures v == Read(ram[..], a, word)
    {
      if word { v := ReadWord(a); } else { v := ram[Linear(a)]; }
    }

    method RegisterOperand(r: nat, word: bool) returns (v: u16)
      requires Valid() && r < 16
      ensures v == Register(State(), r, word)
    {
      v := if word then regs[r] else if r < 8 then regs[r] / 0x100 else regs[r - 8] % 0x100;
    }

    method CountElement(cnt: nat) returns (left: u16)
      requires Valid() && cnt < 16
      modifies regs
      ensures regs[..] == old(regs[..])[cnt := Wrap((old(regs[cnt]) as int) - 1)] && left == regs[cnt]
    {
      left := Wrap((regs[cnt] as int) - 1);
      regs[cnt] := left;
    }

    method ExecBlockTransfer(op: Op)
      requires Valid() && Fields(op) && op.kind == Transfer && !repeatPending
      modifies this`fcw, this`repeatPending, regs, ram
      ensures Valid() && Did(State(), repeatPending) == TransferOne(old(State()), op)
    {
      hide PutFlags, FlagsOf, Pointer, Read, Write, Advance, Delta, Wrap, Linear;
      var from := AddrFromReg(op.src);
      var v := ReadOperand(from, op.word);
      var to := AddrFromReg(op.dst);
      WriteOperand(to, op.word, v);
      AddToAddrReg(op.src, Delta(op));
      AddToAddrReg(op.dst, Delta(op));
      var cnt := CountElement(op.cnt);
      fcw := PutFlags(fcw, FlagsOf(fcw).(pv := cnt == 0));
      if op.rept && cnt != 0 { repeatPending := true; }
    }

    method WriteOperand(a: Addr, word: bool, v: u16)
      requires Valid() && a.seg < 0x80
      modifies ram
      ensures ram[..] == Write(old(ram[..]), a, word, v)
    {
      if word { WriteWord(a, v); } else { ram[Linear(a)] := v % 0x100; }
    }

    /** The raw flags of comparing two operands, through the subtractor. */
    method CompareFlags(a: u16, b: u16, word: bool) returns (fl: Alu.Flags)
      requires Valid() && (!word ==> a < 0x100 && b < 0x100)
      ensures fl == Compared(fcw, a, b, word)
    {
      hide FlagsOf, Alu.SubSpec;
      InWidth(a, b, word);
      var r := Alu.DoSub(a, b, false, WidthOf(word));
      fl := Alu.ApplyFlags(FlagsOf(fcw), r);
    }

    /** CPI and its kin: a register against memory. */
    method ExecBlockCompare(op: Op)
      requires Valid() && Fields(op) && op.kind == CompareRegister && !repeatPending
      modifies this`fcw, this`repeatPending, regs
      ensures Valid() && Did(State(), repeatPending) == CompareOne(old(State()), op)
    {
      hide PutFlags, FlagsOf, Pointer, Read, Advance, Delta, Wrap, Compared, Alu.CondTrue, Register;
      var from := AddrFromReg(op.src);
      var b := ReadOperand(from, op.word);
      var a := RegisterOperand(op.dst, op.word);
      OperandsFit(State(), op);
      var fl := CompareFlags(a, b, op.word);
      var hit := Alu.CondTrue(fl, op.cc);
      AddToAddrReg(op.src, Delta(op));
      var cnt := CountElement(op.cnt);
      fcw := PutFlags(fcw, fl.(z := hit, pv := cnt == 0));
      if op.rept && cnt != 0 && !hit { repeatPending := true; }
    }

    /** CPSI and its kin: memory against memory. */
    method ExecBlockString(op: Op)
      requires Valid() && Fields(op) && op.kind == CompareString && !repeatPending
      modifies this`fcw, this`repeatPending, regs
      ensures Valid() && Did(State(), repeatPending) == CompareOne(old(State()), op)
    {
      hide PutFlags, FlagsOf, Pointer, Read, Advance, Delta, Wrap, Compared, Alu.CondTrue;
      var left := AddrFromReg(op.src);
      var a := ReadOperand(left, op.word);
      var right := AddrFromReg(op.dst);
      var b := ReadOperand(right, op.word);
      OperandsFit(State(), op);
      var fl := CompareFlags(a, b, op.word);
      var hit := Alu.CondTrue(fl, op.cc);
      AddToAddrReg(op.src, Delta(op));
      AddToAddrReg(op.dst, Delta(op));
      var cnt := CountElement(op.cnt);
      fcw := PutFlags(fcw, fl.(z := hit, pv := cnt == 0));
      if op.rept && cnt != 0 && !hit { repeatPending := true; }
    }

    method ExecBlock(op: Op)
      requires Valid() && Fields(op) && !repeatPending
      modifies this`fcw, this`repeatPending, regs, ram
      ensures Valid() && Did(State(), repeatPending) == Element(old(State()), op)
    {
      hide TransferOne, CompareOne;
      match op.kind {
        case Transfer => ExecBlockTransfer(op);
        case CompareRegister => ExecBlockCompare(op);
        case CompareString => ExecBlockString(op);
      }
    }

    /** A step of the processor at a block instruction: an element, then the loop in place,
        which rewinds the PC when a request is pending. */
    method StepBlock(op: Op, next: Addr) returns (rewound: bool)
      requires Valid() && Fields(op) && CountsAlone(State(), op) && next.seg < 0x80
      modifies this`pc, this`fcw, this`repeatPending, regs, ram
      ensures Valid() && Did(State(), rewound) == Execute(old(State()), op, next)
    {
      hide Element, CountsAlone, Remaining;
      repeatPending := false;
      var start := pc;
      pc := next;
      ghost var all := Execute(old(State()), op, next);
      ghost var c := State();
      SameAlone(old(State()), next, op);
      ElementCounts(c, op);
      ExecBlock(op);
      CountsAloneKept(c, State(), op);
      while repeatPending
        invariant Valid() && CountsAlone(State(), op)
        invariant all == if repeatPending then Loop(State(), op, start) else Did(State(), false)
        decreases if repeatPending then Remaining(regs[op.cnt]) else 0
      {
        repeatPending := false;
        if lines.nmi || lines.segt || (lines.vi && Has(fcw, FCW_VIE)) || (lines.nvi && Has(fcw, FCW_NVIE))
           || irq != {} {
          pc := start;
          return true;
        }
        ghost var b := State();
        Positive(regs[op.cnt]);
        assert b.r[op.cnt] == regs[op.cnt];
        ElementCounts(b, op);
        ExecBlock(op);
        assert State().r[op.cnt] == regs[op.cnt];
        CountsAloneKept(b, State(), op);
      }
      return false;
    }
  }

  lemma ChangeDropsRequest(c: State, nf: u16, s: Source)
    requires Good(c)
    ensures ChangeFcw(c.(irq := c.irq - {s}), nf) == ChangeFcw(c, nf).(irq := c.irq - {s})
  {
  }

  lemma StackedKeeps(c: State, tag: u16)
    requires Good(c)
    ensures Stacked(c, tag).psap == c.psap && Stacked(c, tag).irq == c.irq
  {
    hide Framed, AddrSub, SegWord, EntryFcw;
    StackedShape(c, tag);
    ChangeKeeps(c, EntryFcw(c.fcw));
  }

  lemma PopKeeps(c: State)
    requires Good(c)
    ensures Pop(c).c == c.(r := Pop(c).c.r)
  {
    hide R16, StackAt, AddrAdd;
  }

  lemma InWidth(a: u16, b: u16, word: bool)
    requires !word ==> a < 0x100 && b < 0x100
    ensures a < Alu.Pow2(Alu.Bits(WidthOf(word))) && b < Alu.Pow2(Alu.Bits(WidthOf(word)))
  {
    hide Alu.Pow2;
    Alu.PowFour();
    Alu.PowStep(4); Alu.PowStep(5); Alu.PowStep(6); Alu.PowStep(7);
    Alu.PowStep(8); Alu.PowStep(9); Alu.PowStep(10); Alu.PowStep(11);
    Alu.PowStep(12); Alu.PowStep(13); Alu.PowStep(14); Alu.PowStep(15);
  }

  lemma OperandsFit(c: State, op: Op)
    requires Good(c) && Fields(op) && op.kind != Transfer
    ensures !op.word ==> Left(c, op) < 0x100 && Right(c, op) < 0x100
  {
    hide Pointer;
  }
}
