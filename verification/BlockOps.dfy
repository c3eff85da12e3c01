/** The block instructions: transfer, compare with a register, compare two strings. An
    instruction does one element per execution; its repeat form runs on in place until it
    is done or a request is pending, and then rewinds the PC to be entered again. */
module BlockOps {
  import opened Basics
  import opened Cpu
  import opened Interrupts
  import Alu

  datatype Kind = Transfer | CompareRegister | CompareString

  /** A decoded block instruction: register fields, condition code, direction, repeat. */
  datatype Op = Op(kind: Kind, word: bool, src: nat, dst: nat, cnt: nat, cc: nat, down: bool, rept: bool)

  predicate Fields(op: Op) { op.src < 16 && op.dst < 16 && op.cnt < 16 && op.cc < 16 }

  // ----- registers and operands -----------------------------------------------------------------

  /** The register holding the offset of pointer `r`. */
  function OffsetReg(c: State, r: nat): (o: nat)
    requires r < 16
    ensures o < 16
  {
    if Seg(c.fcw) then r / 2 * 2 + 1 else r
  }

  function Pointer(c: State, r: nat): (a: Addr)
    requires Good(c) && r < 16
    ensures a.seg < 0x80
  {
    if Seg(c.fcw) then FromPair(c.r[r / 2 * 2], c.r[r / 2 * 2 + 1]) else Addr(c.pc.seg, c.r[r])
  }

  /** Adds to a pointer's offset only. */
  function Advance(c: State, r: nat, delta: int): (d: State)
    requires Good(c) && r < 16
    ensures Good(d)
  {
    var o := OffsetReg(c, r);
    c.(r := c.r[o := Wrap((c.r[o] as int) + delta)])
  }

  function Wrap(x: int): u16 { x % 0x1_0000 }

  function Delta(op: Op): int { (if op.down then -1 else 1) * (if op.word then 2 else 1) }

  /** The operand at an address: a byte or a word. */
  function Read(mem: seq<byte>, a: Addr, word: bool): u16
    requires |mem| == RAM && a.seg < 0x80
  {
    if word then R16(mem, a) else mem[Linear(a)]
  }

  function Write(mem: seq<byte>, a: Addr, word: bool, v: u16): (m: seq<byte>)
    requires |mem| == RAM && a.seg < 0x80
    ensures |m| == RAM
  {
    if word then W16(mem, a, v) else mem[Linear(a) := v % 0x100]
  }

  /** A compare register: a word register, or a byte register (high halves first). */
  function Register(c: State, r: nat, word: bool): u16
    requires Good(c) && r < 16
  {
    if word then c.r[r] else if r < 8 then c.r[r] / 0x100 else c.r[r - 8] % 0x100
  }

  // ----- flags ---------------------------------------------------------------------------------------

  function FlagsOf(f: u16): Alu.Flags {
    Alu.Flags(Has(f, 0x80), Has(f, 0x40), Has(f, 0x20), Has(f, 0x10), Has(f, 0x08), Has(f, 0x04))
  }

  function Bit(b: bool, v: nat): nat { if b then v else 0 }

  /** The FCW with its six flag bits replaced. */
  function PutFlags(f: u16, fl: Alu.Flags): (g: u16)
    ensures g / 0x100 == f / 0x100
  {
    f / 0x100 * 0x100 + f % 4
    + Bit(fl.c, 0x80) + Bit(fl.z, 0x40) + Bit(fl.s, 0x20) + Bit(fl.pv, 0x10) + Bit(fl.da, 0x08) + Bit(fl.h, 0x04)
  }

  function WidthOf(word: bool): Alu.Width { if word then Alu.WWord else Alu.WByte }

  /** The raw flags of comparing two operands. */
  ghost function Compared(f: u16, a: nat, b: nat, word: bool): Alu.Flags {
    Alu.ApplyFlags(FlagsOf(f), Alu.SubSpec(a, b, false, WidthOf(word)))
  }

  // ----- one element -----------------------------------------------------------------------------------

  /** The state after an execution, and whether the instruction is to be repeated. */
  datatype Did = Did(c: State, again: bool)

  function CountDown(c: State, op: Op): (d: State)
    requires Good(c) && Fields(op)
    ensures Good(d)
  {
    c.(r := c.r[op.cnt := Wrap((c.r[op.cnt] as int) - 1)])
  }

  function MoveOn(c: State, op: Op): (d: State)
    requires Good(c) && Fields(op)
    ensures Good(d)
  {
    var c1 := Advance(c, op.src, Delta(op));
    CountDown(if op.kind == CompareRegister then c1 else Advance(c1, op.dst, Delta(op)), op)
  }

  function TransferOne(c: State, op: Op): (d: Did)
    requires Good(c) && Fields(op)
    ensures Good(d.c)
  {
    var v := Read(c.mem, Pointer(c, op.src), op.word);
    var c1 := MoveOn(c.(mem := Write(c.mem, Pointer(c, op.dst), op.word, v)), op);
    var done := c1.r[op.cnt] == 0;
    Did(c1.(fcw := PutFlags(c.fcw, FlagsOf(c.fcw).(pv := done))), op.rept && !done)
  }

  /** The two compared operands. */
  function Left(c: State, op: Op): u16
    requires Good(c) && Fields(op)
  {
    if op.kind == CompareRegister then Register(c, op.dst, op.word) else Read(c.mem, Pointer(c, op.src), op.word)
  }

  function Right(c: State, op: Op): u16
    requires Good(c) && Fields(op)
  {
    Read(c.mem, Pointer(c, if op.kind == CompareRegister then op.src else op.dst), op.word)
  }

  ghost function CompareOne(c: State, op: Op): (d: Did)
    requires Good(c) && Fields(op)
    ensures Good(d.c)
  {
    var fl := Compared(c.fcw, Left(c, op), Right(c, op), op.word);
    var hit := Alu.CondTrue(fl, op.cc);
    var c1 := MoveOn(c, op);
    var done := c1.r[op.cnt] == 0;
    Did(c1.(fcw := PutFlags(c.fcw, fl.(z := hit, pv := done))), op.rept && !done && !hit)
  }

  ghost function Element(c: State, op: Op): (d: Did)
    requires Good(c) && Fields(op)
    ensures Good(d.c)
  {
    if op.kind == Transfer then TransferOne(c, op) else CompareOne(c, op)
  }

  /** What is left to count: 0 stands for 65536. */
  function Remaining(n: u16): nat { if n == 0 then 0x1_0000 else n }

  /** The count register is not one of the advanced offset registers. */
  predicate CountsAlone(c: State, op: Op)
    requires Fields(op)
  {
    op.cnt != OffsetReg(c, op.src) && (op.kind != CompareRegister ==> op.cnt != OffsetReg(c, op.dst))
  }

  lemma MoveOnShape(c: State, op: Op)
    requires Good(c) && Fields(op)
    ensures var d := MoveOn(c, op);
      && d == c.(r := d.r)
      && (CountsAlone(c, op) ==> d.r[op.cnt] == Wrap((c.r[op.cnt] as int) - 1))
  {
    hide Wrap, Good;
    GoodRegisters(c);
  }

  lemma GoodRegisters(c: State)
    requires Good(c)
    ensures |c.r| == 16
  {
  }

  lemma MoveOnLike(c: State, d: State, op: Op)
    requires Good(c) && Good(d) && c.r == d.r && c.fcw == d.fcw && Fields(op)
    ensures MoveOn(c, op).r == MoveOn(d, op).r
  {
    hide Wrap, Good;
    GoodRegisters(c);
  }

  lemma StillCounting(n: u16)
    ensures Wrap((n as int) - 1) != 0 ==> Remaining(Wrap((n as int) - 1)) == Remaining(n) - 1 > 0
    ensures Wrap((n as int) - 1) == 0 ==> Remaining(n) == 1
  {
  }

  /** An element keeps the mode, the PC, the requests and the stashed stack pointer; it
      counts down by one and is repeated only while the count is not used up. */
  lemma ElementCounts(c: State, op: Op)
    requires Good(c) && Fields(op)
    ensures var d := Element(c, op);
      && d.c == c.(r := d.c.r, mem := d.c.mem, fcw := d.c.fcw) && d.c.fcw / 0x100 == c.fcw / 0x100
      && (CountsAlone(c, op) ==> d.c.r[op.cnt] == Wrap((c.r[op.cnt] as int) - 1))
      && (d.again && CountsAlone(c, op) ==> op.rept && Remaining(d.c.r[op.cnt]) == Remaining(c.r[op.cnt]) - 1 > 0)
  {
    hide Compared, PutFlags, FlagsOf, Read, Write, Pointer, Alu.CondTrue, Left, Right, MoveOn, CountsAlone, Wrap,
         Remaining, Good;
    GoodRegisters(c);
    StillCounting(c.r[op.cnt]);
    if op.kind == Transfer {
      TransferShape(c, op);
    } else {
      CompareShape(c, op);
    }
  }

  lemma TransferShape(c: State, op: Op)
    requires Good(c) && Fields(op)
    ensures var d := TransferOne(c, op);
      && d.c == c.(r := MoveOn(c, op).r, mem := d.c.mem, fcw := d.c.fcw) && d.c.fcw / 0x100 == c.fcw / 0x100
      && (CountsAlone(c, op) ==> d.c.r[op.cnt] == Wrap((c.r[op.cnt] as int) - 1))
      && d.c.mem == Write(c.mem, Pointer(c, op.dst), op.word, Read(c.mem, Pointer(c, op.src), op.word))
      && d.c.fcw == PutFlags(c.fcw, FlagsOf(c.fcw).(pv := d.c.r[op.cnt] == 0))
      && (d.again <==> op.rept && d.c.r[op.cnt] != 0)
  {
    hide PutFlags, FlagsOf, Read, Write, Pointer, Wrap, MoveOn, CountsAlone;
    var m := Write(c.mem, Pointer(c, op.dst), op.word, Read(c.mem, Pointer(c, op.src), op.word));
    MoveOnShape(c, op);
    MoveOnShape(c.(mem := m), op);
    MoveOnLike(c, c.(mem := m), op);
  }

  lemma CompareShape(c: State, op: Op)
    requires Good(c) && Fields(op)
    ensures var d := CompareOne(c, op);
      && d.c == c.(r := MoveOn(c, op).r, fcw := d.c.fcw) && d.c.fcw / 0x100 == c.fcw / 0x100
      && (CountsAlone(c, op) ==> d.c.r[op.cnt] == Wrap((c.r[op.cnt] as int) - 1))
      && (d.again ==> op.rept && d.c.r[op.cnt] != 0)
  {
    hide PutFlags, FlagsOf, Compared, Left, Right, Pointer, Wrap, MoveOn, CountsAlone, Alu.CondTrue, Good;
    MoveOnShape(c, op);
  }

  // ----- one element per step, and the loop in place -----------------------------------------------------

  /** The reference: `n` elements, one per step, stopping when the instruction is done. */
  ghost function After(c: State, op: Op, n: nat): (d: Did)
    requires Good(c) && Fields(op)
    ensures Good(d.c)
  {
    hide Element;
    if n == 0 then Did(c, true) else
    var d := After(c, op, n - 1);
    if d.again then Element(d.c, op) else d
  }

  lemma SameModes(f: u16, g: u16)
    requires f / 0x100 == g / 0x100
    ensures Seg(f) == Seg(g) && System(f) == System(g)
    ensures Has(f, FCW_VIE) == Has(g, FCW_VIE) && Has(f, FCW_NVIE) == Has(g, FCW_NVIE)
  {
    HighBit(f, FCW_SEG / 0x100); HighBit(g, FCW_SEG / 0x100);
    HighBit(f, FCW_SN / 0x100); HighBit(g, FCW_SN / 0x100);
    HighBit(f, FCW_VIE / 0x100); HighBit(g, FCW_VIE / 0x100);
    HighBit(f, FCW_NVIE / 0x100); HighBit(g, FCW_NVIE / 0x100);
  }

  lemma HighBit(f: u16, b: nat)
    requires b in {0x80, 0x40, 0x10, 0x08}
    ensures Has(f, b * 0x100) == Has(f / 0x100, b)
  {
  }

  predicate KeptApart(c: State, d: State) {
    d == c.(r := d.r, mem := d.mem, fcw := d.fcw) && d.fcw / 0x100 == c.fcw / 0x100
  }

  lemma CountsAloneKept(c: State, d: State, op: Op)
    requires Fields(op) && KeptApart(c, d)
    ensures CountsAlone(c, op) == CountsAlone(d, op)
  {
    SameModes(c.fcw, d.fcw);
  }

  /** While the instruction is still repeating, the count is down by the elements done. */
  lemma {:induction false} AfterCounts(c: State, op: Op, n: nat)
    requires Good(c) && Fields(op) && CountsAlone(c, op)
    ensures var d := After(c, op, n);
      && KeptApart(c, d.c)
      && (d.again ==> Remaining(d.c.r[op.cnt]) == Remaining(c.r[op.cnt]) - n && n < Remaining(c.r[op.cnt]))
  {
    hide Element, CountsAlone, Remaining, Good;
    GoodRegisters(c);
    if n == 0 {
      Positive(c.r[op.cnt]);
    } else {
      AfterCounts(c, op, n - 1);
      var d := After(c, op, n - 1);
      if d.again {
        ElementCounts(d.c, op);
        CountsAloneKept(c, d.c, op);
      }
    }
  }

  lemma Positive(n: u16)
    ensures Remaining(n) > 0
  {
  }

  /** A repeat instruction has finished after as many elements as its count says (0 meaning 65536). */
  lemma Terminates(c: State, op: Op)
    requires Good(c) && Fields(op) && CountsAlone(c, op)
    ensures !After(c, op, Remaining(c.r[op.cnt])).again
  {
    hide After, CountsAlone;
    AfterCounts(c, op, Remaining(c.r[op.cnt]));
  }

  /** A pending request that stops the loop in place. */
  predicate Preempts(c: State) {
    || c.lines.nmi || c.lines.segt || (c.lines.vi && Has(c.fcw, FCW_VIE)) || (c.lines.nvi && Has(c.fcw, FCW_NVIE))
    || c.irq != {}
  }

  /** The loop stops exactly when a boundary would find something pending, and so whenever it
      would take something. */
  lemma PreemptsExactly(c: State, s: Source)
    requires Good(c)
    ensures Preempts(c) <==> exists t :: Pending(c, t)
    ensures Ready(c, s) || Boundary(c).1 ==> Preempts(c)
  {
    hide Boundary;
    if c.irq != {} { var t :| t in c.irq; assert Pending(c, t); }
    if c.lines.nmi { assert Pending(c, Nmi); }
    if c.lines.segt { assert Pending(c, SegTrap); }
    if c.lines.nvi && Has(c.fcw, FCW_NVIE) { assert Pending(c, Nvi); }
    if c.lines.vi && Has(c.fcw, FCW_VIE) { assert Pending(c, Vi); }
    if Boundary(c).1 { assert exists t :: Ready(c, t) by { PriorityTaken(c, s); } }
  }

  /** The loop in place, entered with a repeat pending: it stops with the PC rewound to
      `start` when a request is pending, and otherwise does the next element. */
  ghost function Loop(c: State, op: Op, start: Addr): (d: Did)
    requires Good(c) && Fields(op) && CountsAlone(c, op) && start.seg < 0x80
    ensures Good(d.c) && d.c.fcw / 0x100 == c.fcw / 0x100
    decreases Remaining(c.r[op.cnt])
  {
    hide Element, CountsAlone, Remaining;
    if Preempts(c) then Did(c.(pc := start), true) else
    var d := Element(c, op);
    ElementCounts(c, op);
    CountsAloneKept(c, d.c, op);
    if d.again then Loop(d.c, op, start) else d
  }

  /** One step of the processor at the instruction: PC past it, an element, then the loop. */
  ghost function Execute(c: State, op: Op, next: Addr): (d: Did)
    requires Good(c) && Fields(op) && CountsAlone(c, op) && next.seg < 0x80
    ensures Good(d.c) && d.c.fcw / 0x100 == c.fcw / 0x100
  {
    hide Element, CountsAlone, Remaining;
    var c1 := c.(pc := next);
    CountsAloneKept(c1, c1, op);
    SameAlone(c, next, op);
    ElementCounts(c1, op);
    var d := Element(c1, op);
    CountsAloneKept(c1, d.c, op);
    if d.again then Loop(d.c, op, c.pc) else d
  }

  lemma SameAlone(c: State, next: Addr, op: Op)
    requires Fields(op)
    ensures CountsAlone(c.(pc := next), op) == CountsAlone(c, op)
  {
  }

  lemma PreemptsKept(c: State, d: State)
    requires KeptApart(c, d)
    ensures Preempts(c) == Preempts(d)
  {
    SameModes(c.fcw, d.fcw);
  }

  /** The loop in place from the `n`-th element on: with a request pending it only rewinds,
      otherwise it does all the elements that are left. */
  lemma {:induction false} LoopIsElements(c: State, op: Op, n: nat, start: Addr)
    requires Good(c) && Fields(op) && CountsAlone(c, op) && start.seg < 0x80
    requires After(c, op, n).again && CountsAlone(After(c, op, n).c, op)
    ensures var d := Loop(After(c, op, n).c, op, start);
      if Preempts(c) then d == Did(After(c, op, n).c.(pc := start), true)
      else d == After(c, op, Remaining(c.r[op.cnt])) && !d.again
    decreases Remaining(c.r[op.cnt]) - n
  {
    hide Element, CountsAlone, Remaining, Preempts;
    var a := After(c, op, n);
    AfterCounts(c, op, n);
    PreemptsKept(c, a.c);
    if !Preempts(c) {
      ElementCounts(a.c, op);
      var d := Element(a.c, op);
      assert After(c, op, n + 1) == d;
      CountsAloneKept(a.c, d.c, op);
      AfterCounts(c, op, n + 1);
      if d.again { LoopIsElements(c, op, n + 1, start); } else { StaysDone(c, op, n + 1, Remaining(c.r[op.cnt])); }
    }
  }

  lemma {:induction false} StaysDone(c: State, op: Op, n: nat, m: nat)
    requires Good(c) && Fields(op) && n <= m && !After(c, op, n).again
    ensures After(c, op, m) == After(c, op, n)
    decreases m
  {
    hide Element;
    if n < m { StaysDone(c, op, n, m - 1); }
  }

  /** A step is some number of one-element steps: just one when a request is pending, and
      otherwise all of them; the PC ends at the instruction while it is to be repeated. */
  lemma ExecuteIsElements(c: State, op: Op, next: Addr) returns (n: nat)
    requires Good(c) && Fields(op) && CountsAlone(c, op) && next.seg < 0x80
    ensures var d := Execute(c, op, next);
            var a := After(c.(pc := next), op, n);
      && n >= 1 && d.again == a.again && d.c == a.c.(pc := if d.again then c.pc else next)
      && n == if Preempts(c) then 1 else Remaining(c.r[op.cnt])
  {
    hide Element, CountsAlone, Remaining, Preempts, Loop;
    var c1 := c.(pc := next);
    SameAlone(c, next, op);
    PreemptsMoved(c, next);
    Positive(c.r[op.cnt]);
    ElementCounts(c1, op);
    AfterOne(c1, op);
    var d := Element(c1, op);
    CountsAloneKept(c1, d.c, op);
    n := if Preempts(c) then 1 else Remaining(c.r[op.cnt]);
    if d.again {
      LoopIsElements(c1, op, 1, c.pc);
      AfterCounts(c1, op, n);
    } else {
      StaysDone(c1, op, 1, n);
    }
  }

  lemma AfterOne(c: State, op: Op)
    requires Good(c) && Fields(op)
    ensures After(c, op, 1) == Element(c, op)
  {
    hide Element;
    assert After(c, op, 0) == Did(c, true);
  }

  lemma PreemptsMoved(c: State, next: Addr)
    ensures Preempts(c.(pc := next)) == Preempts(c)
  {
  }

  // ----- interrupted and entered again -----------------------------------------------------------------------

  /** Same program state but for the PC's offset, and the same memory outside `dirty`. */
  ghost predicate Like(c: State, d: State, dirty: set<nat>) {
    && Good(c) && Good(d)
    && c.r == d.r && c.fcw == d.fcw && c.nspseg == d.nspseg && c.nspoff == d.nspoff && c.pc.seg == d.pc.seg
    && SameOutside(c.mem, d.mem, dirty)
  }

  ghost predicate SameOutside(m: seq<byte>, w: seq<byte>, dirty: set<nat>) {
    |m| == |w| == RAM && forall x :: 0 <= x < RAM && x !in dirty ==> m[x] == w[x]
  }

  /** Byte `x` is part of the operand at `a`. */
  predicate InOperand(a: Addr, word: bool, x: nat) { x == Linear(a) || (word && x == Linear(a) + 1) }

  /** The element's operands in memory are outside `dirty`. */
  ghost predicate Clear(c: State, op: Op, dirty: set<nat>)
    requires Good(c) && Fields(op)
  {
    forall x :: x in dirty ==>
      !InOperand(Pointer(c, op.src), op.word, x)
      && (op.kind != CompareRegister ==> !InOperand(Pointer(c, op.dst), op.word, x))
  }

  ghost predicate AllClear(c: State, op: Op, dirty: set<nat>)
    requires Good(c) && Fields(op)
  {
    forall n: nat :: After(c, op, n).again ==> Clear(After(c, op, n).c, op, dirty)
  }

  lemma ReadLike(m: seq<byte>, w: seq<byte>, a: Addr, word: bool, dirty: set<nat>)
    requires SameOutside(m, w, dirty) && a.seg < 0x80
    requires forall x :: x in dirty ==> !InOperand(a, word, x)
    ensures Read(m, a, word) == Read(w, a, word)
  {
    assert InOperand(a, word, Linear(a));
    if word { assert InOperand(a, word, Linear(a) + 1); }
  }

  lemma WriteLike(m: seq<byte>, w: seq<byte>, a: Addr, word: bool, v: u16, dirty: set<nat>)
    requires SameOutside(m, w, dirty) && a.seg < 0x80
    ensures SameOutside(Write(m, a, word, v), Write(w, a, word, v), dirty)
  {
  }

  lemma PointerLike(c: State, d: State, r: nat)
    requires Good(c) && Good(d) && c.r == d.r && c.fcw == d.fcw && c.pc.seg == d.pc.seg && r < 16
    ensures Pointer(c, r) == Pointer(d, r) && OffsetReg(c, r) == OffsetReg(d, r)
  {
  }

  /** An element whose operands are clear does the same to states that are alike. */
  lemma ElementLike(c: State, d: State, op: Op, dirty: set<nat>)
    requires Fields(op) && Like(c, d, dirty) && Clear(d, op, dirty)
    ensures Element(c, op).again == Element(d, op).again
    ensures Like(Element(c, op).c, Element(d, op).c, dirty)
  {
    hide Read, Write, Pointer, MoveOn, PutFlags, FlagsOf, Compared, Alu.CondTrue, InOperand, SameOutside;
    PointerLike(c, d, op.src);
    PointerLike(c, d, op.dst);
    ElementCounts(c, op); ElementCounts(d, op);
    LikeOperands(c, d, op, dirty);
    MoveOnLike(c, d, op);
    if op.kind == Transfer {
      hide TransferOne;
      var v := Read(c.mem, Pointer(c, op.src), op.word);
      RamSize(c); RamSize(d);
      WriteLike(c.mem, d.mem, Pointer(c, op.dst), op.word, v, dirty);
      TransferShape(c, op); TransferShape(d, op);
    } else {
      MoveOnShape(c, op); MoveOnShape(d, op);
    }
  }

  lemma RamSize(c: State)
    requires Good(c)
    ensures |c.mem| == RAM
  {
  }

  lemma LikeOperands(c: State, d: State, op: Op, dirty: set<nat>)
    requires Fields(op) && Like(c, d, dirty) && Clear(d, op, dirty)
    ensures Read(c.mem, Pointer(c, op.src), op.word) == Read(d.mem, Pointer(d, op.src), op.word)
    ensures op.kind != CompareRegister ==>
              Read(c.mem, Pointer(c, op.dst), op.word) == Read(d.mem, Pointer(d, op.dst), op.word)
    ensures Register(c, op.dst, op.word) == Register(d, op.dst, op.word)
  {
    hide Read, Pointer, InOperand, SameOutside;
    PointerLike(c, d, op.src);
    PointerLike(c, d, op.dst);
    ReadLike(c.mem, d.mem, Pointer(d, op.src), op.word, dirty);
    if op.kind != CompareRegister { ReadLike(c.mem, d.mem, Pointer(d, op.dst), op.word, dirty); }
  }

  /** What can happen at a boundary while the instruction repeats: a step with this signal
      present but nothing taken, or a run of interrupts that returns to it. */
  datatype Event = Resume(signal: Signal) | Interrupted(run: Run)

  /** The event is possible: a resumed step takes nothing; an interruption's handlers are
      proper, fit the stack, and write their frames only inside `dirty`. */
  ghost predicate Possible(c: State, e: Event, dirty: set<nat>)
    requires Good(c)
  {
    match e
    case Resume(signal) => Select(Sample(Present(c, signal))).None?
    case Interrupted(run) =>
      && Proper(c, run) && Depth(run) <= 0x2000 && Reduced(c) == c
      && forall x :: Below(EntryStack(c), 4 * Depth(run), x) ==> x in dirty
  }

  lemma ModesAlone(c: State, d: State, op: Op)
    requires Fields(op) && c.fcw / 0x100 == d.fcw / 0x100
    ensures CountsAlone(c, op) == CountsAlone(d, op)
  {
    SameModes(c.fcw, d.fcw);
  }

  /** The processor after one event; `again` while the instruction is not done. */
  ghost function Happen(c: State, op: Op, next: Addr, e: Event): (d: Did)
    requires Good(c) && Fields(op) && CountsAlone(c, op) && next.seg < 0x80
    ensures Good(d.c)
  {
    hide CountsAlone, Go, Execute;
    match e
    case Resume(signal) =>
      ModesAlone(c, Sample(Present(c, signal)), op);
      Execute(Sample(Present(c, signal)), op, next)
    case Interrupted(run) => Did(Go(c, run), true)
  }

  lemma HappenModes(c: State, op: Op, next: Addr, e: Event, dirty: set<nat>)
    requires Good(c) && Fields(op) && CountsAlone(c, op) && next.seg < 0x80 && Possible(c, e, dirty)
    ensures CountsAlone(Happen(c, op, next, e).c, op)
  {
    hide CountsAlone, Go, Execute, Reduced, Proper, Sample;
    match e {
      case Resume(signal) =>
        SampleKeeps(c, signal);
        ModesAlone(c, Sample(Present(c, signal)), op);
        ModesAlone(c, Execute(Sample(Present(c, signal)), op, next).c, op);
      case Interrupted(run) =>
        NestedRuns(c, run);
        ModesAlone(c, Go(c, run), op);
    }
  }

  lemma SampleKeeps(c: State, signal: Signal)
    requires Good(c)
    ensures var p := Sample(Present(c, signal));
      p == c.(irq := p.irq, lines := signal.lines, viVector := signal.viVector, curOp := signal.curOp)
  {
  }

  /** Every event of the sequence is possible when it comes. */
  ghost predicate AllPossible(c: State, op: Op, next: Addr, events: seq<Event>, dirty: set<nat>)
    requires Good(c) && Fields(op) && CountsAlone(c, op) && next.seg < 0x80
    decreases |events|
  {
    hide Happen, CountsAlone, Possible;
    events == [] ||
    (Possible(c, events[0], dirty)
     && var d := Happen(c, op, next, events[0]);
        (d.again ==> (HappenModes(c, op, next, events[0], dirty);
                      AllPossible(d.c, op, next, events[1..], dirty))))
  }

  /** The instruction played through a sequence of events, up to when it is done. */
  ghost function Play(c: State, op: Op, next: Addr, events: seq<Event>, dirty: set<nat>): (d: Did)
    requires Good(c) && Fields(op) && CountsAlone(c, op) && next.seg < 0x80
    requires AllPossible(c, op, next, events, dirty)
    decreases |events|
  {
    hide Happen, CountsAlone, Possible;
    if events == [] then Did(c, true) else
    var d := Happen(c, op, next, events[0]);
    HappenModes(c, op, next, events[0], dirty);
    if d.again then Play(d.c, op, next, events[1..], dirty) else d
  }

  function Steps(events: seq<Event>): nat {
    if events == [] then 0 else (if events[0].Resume? then 1 else 0) + Steps(events[1..])
  }

  lemma {:induction false} AfterAdd(c: State, op: Op, k: nat, m: nat)
    requires Good(c) && Fields(op) && After(c, op, k).again
    ensures After(After(c, op, k).c, op, m) == After(c, op, k + m)
  {
    hide Element;
    if m > 0 { AfterAdd(c, op, k, m - 1); }
  }

  lemma ClearLater(c: State, op: Op, k: nat, dirty: set<nat>)
    requires Good(c) && Fields(op) && After(c, op, k).again && AllClear(c, op, dirty)
    ensures AllClear(After(c, op, k).c, op, dirty)
  {
    hide After, Clear;
    forall n: nat | After(After(c, op, k).c, op, n).again ensures Clear(After(After(c, op, k).c, op, n).c, op, dirty) {
      AfterAdd(c, op, k, n);
    }
  }

  lemma {:induction false} AfterLike(c: State, d: State, op: Op, m: nat, dirty: set<nat>)
    requires Fields(op) && Like(c, d, dirty) && AllClear(d, op, dirty)
    ensures After(c, op, m).again == After(d, op, m).again
    ensures Like(After(c, op, m).c, After(d, op, m).c, dirty)
  {
    hide Element, Clear;
    if m > 0 {
      AfterLike(c, d, op, m - 1, dirty);
      if After(d, op, m - 1).again { ElementLike(After(c, op, m - 1).c, After(d, op, m - 1).c, op, dirty); }
    }
  }

  lemma InterruptedLike(c: State, run: Run, dirty: set<nat>)
    requires Good(c) && Possible(c, Interrupted(run), dirty)
    ensures Like(Go(c, run), c, dirty) && Go(c, run).pc == c.pc
  {
    hide Go, Proper, Reduced, Below, EntryStack;
    NestedRuns(c, run);
    NestedWritesFrames(c, run);
  }

  lemma LikeTrans(c: State, d: State, e: State, dirty: set<nat>)
    requires Like(c, d, dirty) && Like(d, e, dirty)
    ensures Like(c, e, dirty)
  {
  }

  /** One event: some elements further on, and alike outside `dirty`. */
  lemma HappenLike(c: State, ref: State, op: Op, next: Addr, e: Event, dirty: set<nat>) returns (m: nat)
    requires Fields(op) && Good(c) && CountsAlone(c, op) && next.seg == c.pc.seg
    requires Like(c, ref, dirty) && AllClear(ref, op, dirty) && Possible(c, e, dirty)
    ensures var d := Happen(c, op, next, e);
            var a := After(ref, op, m);
      && d.again == a.again && Like(d.c, a.c, dirty) && d.c.pc == (if d.again then c.pc else next)
      && (e.Resume? ==> m >= 1)
  {
    hide CountsAlone, After, Execute, Go, AllClear, Reduced, Proper, Sample, Preempts, Remaining, Select, Present,
         Below;
    match e {
      case Resume(signal) =>
        var p := Sample(Present(c, signal));
        SampleKeeps(c, signal);
        ModesAlone(c, p, op);
        m := ExecuteIsElements(p, op, next);
        assert Like(p.(pc := next), ref, dirty);
        AfterLike(p.(pc := next), ref, op, m, dirty);
        ModesAlone(c, p.(pc := next), op);
        AfterCounts(p.(pc := next), op, m);
        LikePc(After(p.(pc := next), op, m).c, After(ref, op, m).c, c.pc, dirty);
        LikePc(After(p.(pc := next), op, m).c, After(ref, op, m).c, next, dirty);
      case Interrupted(run) =>
        m := 0;
        assert After(ref, op, 0) == Did(ref, true) by { AfterNone(ref, op); }
        InterruptedLike(c, run, dirty);
        LikeTrans(Go(c, run), c, ref, dirty);
    }
  }

  lemma LikePc(c: State, d: State, pc: Addr, dirty: set<nat>)
    requires Like(c, d, dirty) && pc.seg == c.pc.seg
    ensures Like(c.(pc := pc), d, dirty)
  {
  }

  lemma AfterNone(c: State, op: Op)
    requires Good(c) && Fields(op)
    ensures After(c, op, 0) == Did(c, true)
  {
  }

  /** However the instruction is interrupted, rewound and entered again, it is always some
      number of one-element steps on: same registers, flags and stack pointers, the same
      memory outside the handlers' frames, and the PC at the instruction until it is
      done and past it then. Every resumed step does at least one element. */
  lemma {:induction false} Interleaved(c: State, ref: State, op: Op, next: Addr, events: seq<Event>, dirty: set<nat>)
    returns (n: nat)
    requires Fields(op) && Good(c) && CountsAlone(c, op) && next.seg == c.pc.seg
    requires Like(c, ref, dirty) && AllClear(ref, op, dirty) && AllPossible(c, op, next, events, dirty)
    ensures var d := Play(c, op, next, events, dirty);
            var a := After(ref, op, n);
      && d.again == a.again && Like(d.c, a.c, dirty) && d.c.pc == (if d.again then c.pc else next)
      && (n >= Steps(events) || !d.again)
    decreases |events|
  {
    hide CountsAlone, After, Happen, AllClear, Possible, Like;
    AfterNone(ref, op) by { assert Good(ref) by { LikeGood(c, ref, dirty); } }
    n := 0;
    if events != [] {
      var m := HappenLike(c, ref, op, next, events[0], dirty);
      var d := Happen(c, op, next, events[0]);
      HappenModes(c, op, next, events[0], dirty);
      if d.again {
        ClearLater(ref, op, m, dirty);
        var n' := Interleaved(d.c, After(ref, op, m).c, op, next, events[1..], dirty);
        AfterAdd(ref, op, m, n');
        n := m + n';
      } else {
        n := m;
      }
    }
  }

  lemma LikeGood(c: State, d: State, dirty: set<nat>)
    requires Like(c, d, dirty)
    ensures Good(c) && Good(d)
  {
  }

  // ----- what the instructions compute ---------------------------------------------------------------------------

  /** Pointer and count registers are distinct, and a compare register is neither. */
  predicate Distinct(c: State, op: Op)
    requires Fields(op)
  {
    && CountsAlone(c, op)
    && (Seg(c.fcw) ==> op.cnt / 2 != op.src / 2)
    && if op.kind == CompareRegister then
         var k := if op.word || op.dst < 8 then op.dst else op.dst - 8;
         k != OffsetReg(c, op.src) && k != op.cnt
       else
         OffsetReg(c, op.src) != OffsetReg(c, op.dst) && (Seg(c.fcw) ==> op.cnt / 2 != op.dst / 2)
  }

  /** A pointer `n` elements on: only the offset moves. */
  function Moved(a: Addr, delta: int, n: nat): Addr { Addr(a.seg, Wrap(a.off + n * delta)) }

  /** The first `n` elements were all executed. */
  ghost predicate DidAll(c: State, op: Op, n: nat)
    requires Good(c) && Fields(op)
  {
    n == 0 || After(c, op, n - 1).again
  }

  /** Register `i` is the count or an offset the instruction advances. */
  predicate Changes(c: State, op: Op, i: nat)
    requires Fields(op)
  {
    i == op.cnt || i == OffsetReg(c, op.src) || (op.kind != CompareRegister && i == OffsetReg(c, op.dst))
  }

  /** What an element does to the pointers, the count and the compare register. */
  lemma ElementMoves(c: State, op: Op)
    requires Good(c) && Fields(op) && Distinct(c, op)
    ensures var d := MoveOn(c, op);
      && Pointer(d, op.src) == Moved(Pointer(c, op.src), Delta(op), 1)
      && (op.kind != CompareRegister ==> Pointer(d, op.dst) == Moved(Pointer(c, op.dst), Delta(op), 1))
      && (op.kind == CompareRegister ==> Register(d, op.dst, op.word) == Register(c, op.dst, op.word))
      && d.r[op.cnt] == Wrap((c.r[op.cnt] as int) - 1)
      && forall i :: 0 <= i < 16 && !Changes(c, op, i) ==> d.r[i] == c.r[i]
  {
    hide Wrap, Delta;
  }

  lemma MovedOnce(a: Addr, delta: int, n: nat)
    ensures Moved(Moved(a, delta, n), delta, 1) == Moved(a, delta, n + 1)
  {
    assert (n + 1) * delta == n * delta + delta;
    WrapTwice(a.off + n * delta, delta);
  }

  lemma WrapTwice(x: int, y: int)
    ensures Wrap((Wrap(x) as int) + y) == Wrap(x + y)
  {
  }

  lemma MovedNone(a: Addr, delta: int)
    ensures Moved(a, delta, 0) == a
  {
  }

  lemma DistinctKept(c: State, d: State, op: Op)
    requires Fields(op) && c.fcw / 0x100 == d.fcw / 0x100
    ensures Distinct(c, op) == Distinct(d, op)
    ensures forall i: nat :: Changes(c, op, i) == Changes(d, op, i)
  {
    SameModes(c.fcw, d.fcw);
  }

  /** An element's registers are those of `MoveOn`. */
  lemma ElementRegisters(c: State, op: Op)
    requires Good(c) && Fields(op)
    ensures Element(c, op).c.r == MoveOn(c, op).r && Element(c, op).c.fcw / 0x100 == c.fcw / 0x100
    ensures Element(c, op).c.pc == c.pc
    ensures op.kind != Transfer ==> Element(c, op).c.mem == c.mem
  {
    hide MoveOn, TransferOne, Good, Compared, Left, Right, PutFlags, CountsAlone, Wrap;
    if op.kind == Transfer { TransferShape(c, op); } else { MoveOnShape(c, op); }
    ElementCounts(c, op);
  }

  lemma SamePointers(c: State, d: State, op: Op)
    requires Good(c) && Good(d) && Fields(op) && c.r == d.r && c.fcw / 0x100 == d.fcw / 0x100 && c.pc.seg == d.pc.seg
    ensures Pointer(c, op.src) == Pointer(d, op.src) && Pointer(c, op.dst) == Pointer(d, op.dst)
    ensures Register(c, op.dst, op.word) == Register(d, op.dst, op.word)
  {
    SameModes(c.fcw, d.fcw);
  }

  lemma DidEarlier(c: State, op: Op, n: nat)
    requires Good(c) && Fields(op) && n > 0 && DidAll(c, op, n)
    ensures DidAll(c, op, n - 1)
  {
    hide Element;
  }

  /** After `n` elements: the pointers `n` elements on, the count down by `n`, and every other
      register as it was. */
  lemma {:induction false} Positions(c: State, op: Op, n: nat)
    requires Good(c) && Fields(op) && Distinct(c, op) && DidAll(c, op, n)
    ensures var d := After(c, op, n).c;
      && Pointer(d, op.src) == Moved(Pointer(c, op.src), Delta(op), n)
      && (op.kind != CompareRegister ==> Pointer(d, op.dst) == Moved(Pointer(c, op.dst), Delta(op), n))
      && (op.kind == CompareRegister ==> Register(d, op.dst, op.word) == Register(c, op.dst, op.word))
      && d.r[op.cnt] == Wrap((c.r[op.cnt] as int) - n)
      && d.fcw / 0x100 == c.fcw / 0x100 && d.pc == c.pc
      && (forall i :: 0 <= i < 16 && !Changes(c, op, i) ==> d.r[i] == c.r[i])
      && (op.kind != Transfer ==> d.mem == c.mem)
  {
    hide Element, Pointer, Register, Moved, Delta, MoveOn, Distinct, Wrap, Changes, Good, DidAll;
    GoodRegisters(c);
    if n == 0 {
      AfterNone(c, op);
      MovedNone(Pointer(c, op.src), Delta(op));
      MovedNone(Pointer(c, op.dst), Delta(op));
      WrapNothing(c.r[op.cnt]);
    } else {
      DidEarlier(c, op, n);
      Positions(c, op, n - 1);
      var b := After(c, op, n - 1);
      assert b.again && After(c, op, n) == Element(b.c, op) by { WentOn(c, op, n); }
      DistinctKept(c, b.c, op);
      ElementMoves(b.c, op);
      ElementRegisters(b.c, op);
      SamePointers(Element(b.c, op).c, MoveOn(b.c, op), op) by { MoveOnShape(b.c, op); }
      MovedOnce(Pointer(c, op.src), Delta(op), n - 1);
      MovedOnce(Pointer(c, op.dst), Delta(op), n - 1);
      WrapTwice((c.r[op.cnt] as int) - (n - 1), -1);
      GoodRegisters(b.c);
    }
  }

  lemma WrapNothing(n: u16)
    ensures Wrap((n as int) - 0) == n
  {
  }

  lemma WentOn(c: State, op: Op, n: nat)
    requires Good(c) && Fields(op) && n > 0 && DidAll(c, op, n)
    ensures After(c, op, n - 1).again && After(c, op, n) == Element(After(c, op, n - 1).c, op)
  {
    hide Element;
  }

  // Flags: the six bits read back as they were put.

  lemma FlagsBack(f: u16, fl: Alu.Flags)
    ensures FlagsOf(PutFlags(f, fl)) == fl && PutFlags(f, fl) % 4 == f % 4
  {
    hide Has;
    var g := PutFlags(f, fl);
    LowByte(g, f / 0x100, f % 4, fl);
    LowTwo(g, f, fl);
  }

  lemma LowTwo(g: u16, f: u16, fl: Alu.Flags)
    requires g == PutFlags(f, fl)
    ensures g % 4 == f % 4
  {
    var q := f / 0x100 * 0x40 + Bit(fl.c, 0x20) + Bit(fl.z, 0x10) + Bit(fl.s, 8) + Bit(fl.pv, 4) + Bit(fl.da, 2)
           + Bit(fl.h, 1);
    Quotient(g, q, 4, f % 4);
  }

  lemma LowByte(g: u16, hi: nat, low: nat, fl: Alu.Flags)
    requires low < 4
    requires g == hi * 0x100 + low + Bit(fl.c, 0x80) + Bit(fl.z, 0x40) + Bit(fl.s, 0x20) + Bit(fl.pv, 0x10)
                  + Bit(fl.da, 0x08) + Bit(fl.h, 0x04)
    ensures Has(g, 0x80) == fl.c && Has(g, 0x40) == fl.z && Has(g, 0x20) == fl.s
    ensures Has(g, 0x10) == fl.pv && Has(g, 0x08) == fl.da && Has(g, 0x04) == fl.h
  {
    hide Has, Bit;
    Scaled(fl.c, 0x80); Scaled(fl.z, 0x40); Scaled(fl.s, 0x20); Scaled(fl.pv, 0x10); Scaled(fl.da, 0x08);
    Scaled(fl.h, 0x04);
    var b7, b6, b5, b4, b3, b2 := Bit(fl.c, 1), Bit(fl.z, 1), Bit(fl.s, 1), Bit(fl.pv, 1), Bit(fl.da, 1), Bit(fl.h, 1);
    LowBits(g, hi, b7, b6, b5, b4, b3, b2, low);
  }

  lemma LowBits(g: u16, hi: nat, b7: nat, b6: nat, b5: nat, b4: nat, b3: nat, b2: nat, low: nat)
    requires b7 < 2 && b6 < 2 && b5 < 2 && b4 < 2 && b3 < 2 && b2 < 2 && low < 4
    requires g == 0x100 * hi + 0x80 * b7 + 0x40 * b6 + 0x20 * b5 + 0x10 * b4 + 0x08 * b3 + 0x04 * b2 + low
    ensures Has(g, 0x80) == (b7 == 1) && Has(g, 0x40) == (b6 == 1) && Has(g, 0x20) == (b5 == 1)
    ensures Has(g, 0x10) == (b4 == 1) && Has(g, 0x08) == (b3 == 1) && Has(g, 0x04) == (b2 == 1)
  {
    hide Has;
    var q6 := 2 * hi + b7;
    var q5 := 2 * q6 + b6;
    var q4 := 2 * q5 + b5;
    var q3 := 2 * q4 + b4;
    var q2 := 2 * q3 + b3;
    var q1 := 2 * q2 + b2;
    var r3 := BitBack(g, 0x04, q1, q2, b2, low);
    var r4 := BitBack(g, 0x08, q2, q3, b3, r3);
    var r5 := BitBack(g, 0x10, q3, q4, b4, r4);
    var r6 := BitBack(g, 0x20, q4, q5, b5, r5);
    var r7 := BitBack(g, 0x40, q5, q6, b6, r6);
    var r8 := BitBack(g, 0x80, q6, hi, b7, r7);
  }

  lemma Scaled(b: bool, v: nat)
    ensures Bit(b, v) == v * Bit(b, 1) && Bit(b, 1) < 2 && (b <==> Bit(b, 1) == 1)
  {
  }

  lemma BitBack(g: u16, bit: nat, v: nat, q: nat, b: nat, r: nat) returns (r': nat)
    requires bit == 0x80 || bit == 0x40 || bit == 0x20 || bit == 0x10 || bit == 0x08 || bit == 0x04
    requires b < 2 && r < bit && v == 2 * q + b && g == bit * v + r
    ensures Has(g, bit) == (b == 1)
    ensures r' < 2 * bit && g == 2 * bit * q + r'
  {
    Alu.Remainder(g, v, bit, r);
    r' := r + bit * b;
  }

  // Transfers.

  /** The sequential copy: element after element, each read after the writes before it. */
  function Copied(mem: seq<byte>, s: Addr, d: Addr, delta: int, word: bool, n: nat): (m: seq<byte>)
    requires |mem| == RAM && s.seg < 0x80 && d.seg < 0x80
    ensures |m| == RAM
  {
    if n == 0 then mem else
    var m := Copied(mem, s, d, delta, word, n - 1);
    Write(m, Moved(d, delta, n - 1), word, Read(m, Moved(s, delta, n - 1), word))
  }

  /** A block transfer is the sequential copy. */
  lemma {:induction false} TransferCopies(c: State, op: Op, n: nat)
    requires Good(c) && Fields(op) && op.kind == Transfer && Distinct(c, op) && DidAll(c, op, n)
    ensures After(c, op, n).c.mem == Copied(c.mem, Pointer(c, op.src), Pointer(c, op.dst), Delta(op), op.word, n)
  {
    hide Element, TransferOne, Pointer, Moved, Delta, MoveOn, Distinct, Wrap, Changes, Good, DidAll, Read, Write,
         PutFlags, FlagsOf, CountsAlone;
    RamSize(c);
    if n == 0 {
      AfterNone(c, op);
    } else {
      DidEarlier(c, op, n);
      TransferCopies(c, op, n - 1);
      Positions(c, op, n - 1);
      WentOn(c, op, n);
      var b := After(c, op, n - 1).c;
      TransferShape(b, op);
      assert Element(b, op) == TransferOne(b, op) by { TransferElement(b, op); }
    }
  }

  lemma TransferElement(c: State, op: Op)
    requires Good(c) && Fields(op) && op.kind == Transfer
    ensures Element(c, op) == TransferOne(c, op)
  {
    hide TransferOne;
  }

  /** A repeating transfer does exactly its count of elements (0 meaning 65536), and ends with
      the count at zero, PV set and the other flags as they were. */
  lemma TransferEnds(c: State, op: Op)
    requires Good(c) && Fields(op) && op.kind == Transfer && op.rept && Distinct(c, op)
    ensures var n := Remaining(c.r[op.cnt]);
            var d := After(c, op, n);
      && DidAll(c, op, n) && !d.again && d.c.r[op.cnt] == 0
      && FlagsOf(d.c.fcw) == FlagsOf(c.fcw).(pv := true)
  {
    hide Element, Pointer, Moved, Delta, MoveOn, Distinct, Changes, Good, Read, Write, PutFlags, FlagsOf,
         CountsAlone, After, DidAll, Register;
    GoodRegisters(c);
    var n := Remaining(c.r[op.cnt]);
    DistinctCounts(c, op);
    TransferGoesOn(c, op, n);
    Terminates(c, op);
    Positions(c, op, n);
  }

  lemma DistinctCounts(c: State, op: Op)
    requires Fields(op) && Distinct(c, op)
    ensures CountsAlone(c, op)
  {
  }

  lemma {:induction false} TransferGoesOn(c: State, op: Op, n: nat)
    requires Good(c) && Fields(op) && op.kind == Transfer && op.rept && Distinct(c, op) && n <= Remaining(c.r[op.cnt])
    ensures DidAll(c, op, n)
    ensures FlagsOf(After(c, op, n).c.fcw)
            == FlagsOf(c.fcw).(pv := if n == 0 then FlagsOf(c.fcw).pv else n == Remaining(c.r[op.cnt]))
  {
    hide Element, TransferOne, Pointer, Moved, Delta, MoveOn, Distinct, Changes, Good, Read, Write, PutFlags,
         FlagsOf, CountsAlone, Register;
    GoodRegisters(c);
    if n == 0 {
      AfterNone(c, op);
    } else {
      TransferGoesOn(c, op, n - 1);
      if n > 1 {
        var b := After(c, op, n - 2).c;
        TransferShape(b, op);
        TransferElement(b, op);
        Positions(c, op, n - 1);
        assert After(c, op, n - 1) == Element(b, op) by { WentOn(c, op, n - 1); }
      } else {
        AfterNone(c, op);
      }
      var a := After(c, op, n - 1);
      assert a.again;
      assert DidAll(c, op, n);
      WentOn(c, op, n);
      Positions(c, op, n);
      TransferShape(a.c, op);
      TransferElement(a.c, op);
      GoodRegisters(After(c, op, n).c);
      FlagsBack(a.c.fcw, FlagsOf(a.c.fcw).(pv := After(c, op, n).c.r[op.cnt] == 0));
    }
  }

  /** Two operands share no byte. */
  predicate OperandsApart(a: Addr, b: Addr, word: bool) {
    var w := if word then 2 else 1;
    Linear(a) + w <= Linear(b) || Linear(b) + w <= Linear(a)
  }

  lemma ReadWritten(m: seq<byte>, a: Addr, word: bool, v: u16)
    requires |m| == RAM && a.seg < 0x80 && (!word ==> v < 0x100)
    ensures Read(Write(m, a, word, v), a, word) == v
  {
  }

  lemma ReadElsewhere(m: seq<byte>, a: Addr, word: bool, v: u16, b: Addr)
    requires |m| == RAM && a.seg < 0x80 && b.seg < 0x80 && OperandsApart(a, b, word)
    ensures Read(Write(m, a, word, v), b, word) == Read(m, b, word)
  {
  }

  lemma ReadByte(m: seq<byte>, a: Addr)
    requires |m| == RAM && a.seg < 0x80
    ensures Read(m, a, false) < 0x100
  {
  }

  /** An operand none of the first `n` writes touches still reads the same. */
  lemma {:induction false} CopyElsewhere(mem: seq<byte>, s: Addr, d: Addr, delta: int, word: bool, n: nat, at: Addr)
    requires |mem| == RAM && s.seg < 0x80 && d.seg < 0x80 && at.seg < 0x80
    requires forall j :: 0 <= j < n ==> OperandsApart(Moved(d, delta, j), at, word)
    ensures Read(Copied(mem, s, d, delta, word, n), at, word) == Read(mem, at, word)
  {
    hide Read, Write, Moved, OperandsApart;
    MovedSeg(s, delta); MovedSeg(d, delta);
    if n > 0 {
      CopyElsewhere(mem, s, d, delta, word, n - 1, at);
      var m := Copied(mem, s, d, delta, word, n - 1);
      ReadElsewhere(m, Moved(d, delta, n - 1), word, Read(m, Moved(s, delta, n - 1), word), at);
    }
  }

  lemma MovedSeg(a: Addr, delta: int)
    ensures forall n: nat :: Moved(a, delta, n).seg == a.seg
  {
  }

  /** When no element is written over a later element's source, nor over another's
      destination, the sequential copy moves the whole run: element `i` of the destination
      is element `i` of the source as it was. */
  lemma {:induction false} CopyMovesAll(mem: seq<byte>, s: Addr, d: Addr, delta: int, word: bool, n: nat, i: nat)
    requires |mem| == RAM && s.seg < 0x80 && d.seg < 0x80 && i < n
    requires forall j :: 0 <= j < i ==> OperandsApart(Moved(d, delta, j), Moved(s, delta, i), word)
    requires forall j :: i < j < n ==> OperandsApart(Moved(d, delta, j), Moved(d, delta, i), word)
    ensures Read(Copied(mem, s, d, delta, word, n), Moved(d, delta, i), word) == Read(mem, Moved(s, delta, i), word)
  {
    hide Read, Write, Moved, OperandsApart;
    MovedSeg(s, delta); MovedSeg(d, delta);
    var m := Copied(mem, s, d, delta, word, n - 1);
    var v := Read(m, Moved(s, delta, n - 1), word);
    if i == n - 1 {
      CopyElsewhere(mem, s, d, delta, word, i, Moved(s, delta, i));
      if !word { ReadByte(m, Moved(s, delta, n - 1)); }
      ReadWritten(m, Moved(d, delta, i), word, v);
    } else {
      CopyMovesAll(mem, s, d, delta, word, n - 1, i);
      ReadElsewhere(m, Moved(d, delta, n - 1), word, v, Moved(d, delta, i));
    }
  }

  /** Copying upwards without wrapping moves the whole run when the destination starts at or
      below the source, or past its end. */
  lemma ForwardSafe(mem: seq<byte>, s: Addr, d: Addr, word: bool, n: nat, i: nat)
    requires |mem| == RAM && s.seg < 0x80 && d.seg < 0x80 && i < n
    requires s.off + n * Delta1(word) <= 0x1_0000 && d.off + n * Delta1(word) <= 0x1_0000
    requires Linear(d) <= Linear(s) || Linear(s) + n * Delta1(word) <= Linear(d)
    ensures Read(Copied(mem, s, d, Delta1(word), word, n), Moved(d, Delta1(word), i), word)
            == Read(mem, Moved(s, Delta1(word), i), word)
  {
    hide Read, Write, Copied, Moved, Linear, Delta1;
    var w := Delta1(word);
    assert w > 0 && w == if word then 2 else 1 by { DeltaSize(word); }
    Times(i + 1, n, w);
    forall j | 0 <= j < i ensures OperandsApart(Moved(d, w, j), Moved(s, w, i), word) {
      Times(j + 1, i, w);
      MovedPlain(s, word, i); MovedPlain(d, word, j);
    }
    forall j | i < j < n ensures OperandsApart(Moved(d, w, j), Moved(d, w, i), word) {
      Times(i + 1, j, w); Times(j + 1, n, w);
      MovedPlain(d, word, i); MovedPlain(d, word, j);
    }
    CopyMovesAll(mem, s, d, w, word, n, i);
  }

  lemma DeltaSize(word: bool)
    ensures Delta1(word) == if word then 2 else 1
  {
  }

  lemma Times(a: nat, b: nat, w: nat)
    requires 0 < a <= b
    ensures (a - 1) * w + w == a * w <= b * w
  {
  }

  lemma MovedPlain(a: Addr, word: bool, i: nat)
    requires a.off + i * Delta1(word) < 0x1_0000
    ensures Linear(Moved(a, Delta1(word), i)) == Linear(a) + i * Delta1(word)
  {
  }

  /** The fill idiom: copying forward to one element above the source spreads the first
      element over the whole run. */
  lemma {:induction false} CopyFills(mem: seq<byte>, s: Addr, word: bool, n: nat, i: nat)
    requires |mem| == RAM && s.seg < 0x80 && i <= n
    requires forall j, k :: 0 <= j < k <= n ==>
        OperandsApart(Moved(s, Delta1(word), k), Moved(s, Delta1(word), j), word)
    ensures Read(Copied(mem, s, Moved(s, Delta1(word), 1), Delta1(word), word, n), Moved(s, Delta1(word), i), word)
            == Read(mem, s, word)
  {
    hide Read, Write, Moved, OperandsApart, Delta1;
    var delta := Delta1(word);
    var d := Moved(s, delta, 1);
    MovedSeg(s, delta); MovedSeg(d, delta);
    MovedNone(s, delta);
    if n > 0 {
      var m := Copied(mem, s, d, delta, word, n - 1);
      MovedUp(s, delta, n - 1);
      var v := Read(m, Moved(s, delta, n - 1), word);
      CopyFills(mem, s, word, n - 1, n - 1);
      if i < n {
        CopyFills(mem, s, word, n - 1, i);
        ReadElsewhere(m, Moved(s, delta, n), word, v, Moved(s, delta, i));
      } else {
        if !word { ReadByte(m, Moved(s, delta, n - 1)); }
        ReadWritten(m, Moved(s, delta, n), word, v);
      }
    }
  }

  function Delta1(word: bool): int { if word then 2 else 1 }

  lemma MovedUp(a: Addr, delta: int, n: nat)
    ensures Moved(Moved(a, delta, 1), delta, n) == Moved(a, delta, n + 1)
  {
    assert (n + 1) * delta == delta + n * delta;
    WrapTwice(a.off + delta, n * delta);
  }

  // Compares.

  /** The operands of element `i`, read from the memory the instruction started with. */
  function LeftAt(c: State, op: Op, i: nat): u16
    requires Good(c) && Fields(op)
  {
    if op.kind == CompareRegister then Register(c, op.dst, op.word)
    else Read(c.mem, Moved(Pointer(c, op.src), Delta(op), i), op.word)
  }

  function RightAt(c: State, op: Op, i: nat): u16
    requires Good(c) && Fields(op)
  {
    Read(c.mem, Moved(Pointer(c, if op.kind == CompareRegister then op.src else op.dst), Delta(op), i), op.word)
  }

  /** Element `i` satisfies the condition code. */
  ghost predicate Hit(c: State, op: Op, i: nat)
    requires Good(c) && Fields(op)
  {
    Alu.CondTrue(Compared(0, LeftAt(c, op, i), RightAt(c, op, i), op.word), op.cc)
  }

  lemma CondIgnoresBefore(f: u16, g: u16, a: nat, b: nat, word: bool, cc: nat)
    requires cc < 16
    ensures Alu.CondTrue(Compared(f, a, b, word), cc) == Alu.CondTrue(Compared(g, a, b, word), cc)
  {
    hide FlagsOf;
  }

  /** Condition code 6 hits exactly on equal operands, 7 on an unsigned less-than, and 1 on
      a signed one; the other codes likewise. */
  lemma HitMeans(c: State, op: Op, i: nat)
    requires Good(c) && Fields(op)
    ensures var a, b, n := LeftAt(c, op, i), RightAt(c, op, i), Alu.Bits(WidthOf(op.word));
      && (op.cc == 6 ==> (Hit(c, op, i) <==> a == b)) && (op.cc == 14 ==> (Hit(c, op, i) <==> a != b))
      && (op.cc == 7 ==> (Hit(c, op, i) <==> a < b)) && (op.cc == 15 ==> (Hit(c, op, i) <==> a >= b))
      && (op.cc == 3 ==> (Hit(c, op, i) <==> a <= b)) && (op.cc == 11 ==> (Hit(c, op, i) <==> a > b))
      && (op.cc == 1 ==> (Hit(c, op, i) <==> Alu.Signed(a, n) < Alu.Signed(b, n)))
      && (op.cc == 10 ==> (Hit(c, op, i) <==> Alu.Signed(a, n) > Alu.Signed(b, n)))
      && (op.cc == 2 ==> (Hit(c, op, i) <==> Alu.Signed(a, n) <= Alu.Signed(b, n)))
      && (op.cc == 9 ==> (Hit(c, op, i) <==> Alu.Signed(a, n) >= Alu.Signed(b, n)))
  {
    hide Alu.CondTrue, Alu.Signed, FlagsOf, Pointer, Moved, Alu.SubSpec, Alu.ApplyFlags;
    var a, b := LeftAt(c, op, i), RightAt(c, op, i);
    OperandSizes(c, op, i);
    Alu.CpDecides(a, b, WidthOf(op.word), FlagsOf(0));
  }

  lemma OperandSizes(c: State, op: Op, i: nat)
    requires Good(c) && Fields(op)
    ensures LeftAt(c, op, i) < Alu.Pow2(Alu.Bits(WidthOf(op.word)))
    ensures RightAt(c, op, i) < Alu.Pow2(Alu.Bits(WidthOf(op.word)))
  {
    hide Pointer, Moved, Alu.Pow2, Read;
    Alu.PowFour();
    Alu.PowStep(4); Alu.PowStep(5); Alu.PowStep(6); Alu.PowStep(7);
    Alu.PowStep(8); Alu.PowStep(9); Alu.PowStep(10); Alu.PowStep(11);
    Alu.PowStep(12); Alu.PowStep(13); Alu.PowStep(14); Alu.PowStep(15);
    if !op.word {
      ReadByte(c.mem, Moved(Pointer(c, op.src), Delta(op), i)) by { MovedSeg(Pointer(c, op.src), Delta(op)); }
      ReadByte(c.mem, Moved(Pointer(c, op.dst), Delta(op), i)) by { MovedSeg(Pointer(c, op.dst), Delta(op)); }
    }
  }

  /** What an element of a compare decides. */
  lemma CompareDecides(c: State, op: Op, n: nat)
    requires Good(c) && Fields(op) && op.kind != Transfer && Distinct(c, op) && n > 0 && DidAll(c, op, n)
    ensures var d := After(c, op, n);
      && n <= Remaining(c.r[op.cnt])
      && (d.again <==> op.rept && n < Remaining(c.r[op.cnt]) && !Hit(c, op, n - 1))
      && FlagsOf(d.c.fcw).z == Hit(c, op, n - 1) && FlagsOf(d.c.fcw).pv == (n == Remaining(c.r[op.cnt]))
  {
    hide Element, After, Pointer, Moved, Delta, MoveOn, Distinct, Changes, Good, Read, PutFlags, FlagsOf,
         CountsAlone, Register, Compared, Alu.CondTrue, DidAll;
    var b := After(c, op, n - 1).c;
    DidEarlier(c, op, n);
    Positions(c, op, n - 1);
    Positions(c, op, n);
    WentOn(c, op, n);
    DistinctCounts(c, op);
    AfterCounts(c, op, n - 1);
    CompareElement(b, op);
    assert Left(b, op) == LeftAt(c, op, n - 1) && Right(b, op) == RightAt(c, op, n - 1);
    CondIgnoresBefore(b.fcw, 0, Left(b, op), Right(b, op), op.word, op.cc);
  }

  lemma CompareElement(c: State, op: Op)
    requires Good(c) && Fields(op) && op.kind != Transfer
    ensures var d := Element(c, op);
            var hit := Alu.CondTrue(Compared(c.fcw, Left(c, op), Right(c, op), op.word), op.cc);
      && (d.again <==> op.rept && d.c.r[op.cnt] != 0 && !hit)
      && FlagsOf(d.c.fcw) == Compared(c.fcw, Left(c, op), Right(c, op), op.word).(z := hit, pv := d.c.r[op.cnt] == 0)
  {
    hide Compared, Left, Right, PutFlags, FlagsOf, MoveOn, Alu.CondTrue, TransferOne;
    var fl := Compared(c.fcw, Left(c, op), Right(c, op), op.word);
    var hit := Alu.CondTrue(fl, op.cc);
    FlagsBack(c.fcw, fl.(z := hit, pv := MoveOn(c, op).r[op.cnt] == 0));
  }

  /** A repeating compare stops at the first element that satisfies the condition code, or
      when the count is used up: Z says which, PV whether the count is used up, and
      memory is untouched. */
  lemma CompareStops(c: State, op: Op) returns (n: nat)
    requires Good(c) && Fields(op) && op.kind != Transfer && op.rept && Distinct(c, op)
    ensures var d := After(c, op, n);
            var count := Remaining(c.r[op.cnt]);
      && 1 <= n <= count && !d.again && DidAll(c, op, n)
      && (forall i :: 0 <= i < n - 1 ==> !Hit(c, op, i))
      && (Hit(c, op, n - 1) || n == count)
      && FlagsOf(d.c.fcw).z == Hit(c, op, n - 1) && FlagsOf(d.c.fcw).pv == (n == count)
      && d.c.mem == c.mem
  {
    hide Element, After, Hit, Pointer, Moved, Delta, Distinct, Changes, FlagsOf, CountsAlone, Register, DidAll;
    n := CompareFrom(c, op, 1) by { AtFirst(c, op); DidFirst(c, op); Positive(c.r[op.cnt]); }
    Positions(c, op, n);
  }

  lemma AtFirst(c: State, op: Op)
    requires Good(c) && Fields(op)
    ensures After(c, op, 0).again
  {
  }

  lemma DidFirst(c: State, op: Op)
    requires Good(c) && Fields(op)
    ensures DidAll(c, op, 1)
  {
    AfterNone(c, op);
  }

  lemma {:induction false} CompareFrom(c: State, op: Op, k: nat) returns (n: nat)
    requires Good(c) && Fields(op) && op.kind != Transfer && op.rept && Distinct(c, op)
    requires 1 <= k && DidAll(c, op, k) && forall i :: 0 <= i < k - 1 ==> !Hit(c, op, i)
    ensures var d := After(c, op, n);
            var count := Remaining(c.r[op.cnt]);
      && 1 <= n <= count && !d.again && DidAll(c, op, n)
      && (forall i :: 0 <= i < n - 1 ==> !Hit(c, op, i))
      && (Hit(c, op, n - 1) || n == count)
      && FlagsOf(d.c.fcw).z == Hit(c, op, n - 1) && FlagsOf(d.c.fcw).pv == (n == count)
    decreases 0x1_0000 - k
  {
    hide Element, After, Hit, FlagsOf, Distinct;
    CompareDecides(c, op, k);
    if After(c, op, k).again { n := CompareFrom(c, op, k + 1); } else { n := k; }
  }
}
