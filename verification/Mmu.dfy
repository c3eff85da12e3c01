/** The Z8010 memory management unit: translation with and without the fast-path
    cache, the command port, and the violation latch. */
module Mmu {
  import opened Basics

  /** A descriptor's attribute byte, bit 7 first. */
  datatype Attr = Attr(ref: bool, chg: bool, dirw: bool, dmai: bool, exc: bool, cpu: bool, sys: bool, rd: bool)

  datatype Desc = Desc(base: u16, limit: byte, attr: Attr)

  /** The violation type register, bit 7 first. */
  datatype Kinds = Kinds(fatl: bool, sww: bool, pww: bool, excv: bool, cpuiv: bool, slv: bool, sysv: bool, rdv: bool)

  /** The kinds of violation the protection ladder can find, and the write warning. */
  datatype Violation = Cpuiv | Slv | Rdv | Sysv | Excv | Pww

  /** When memory access by the CPU. */
  datatype Access = Access(sn: byte, off: u16, write: bool, normal: bool, fetch: bool)

  /** Bus cycle status: status code, write flag, normal-mode flag. */
  datatype Bus = Bus(st: nat, write: bool, normal: bool)

  /** The unit's architectural state; the fast-path cache is not part of it. */
  datatype Unit = Unit(desc: seq<Desc>, mode: byte, sar: nat, dsc: nat, kinds: Kinds, sn: byte, off: u16, bus: Bus,
                       captured: bool, segt: bool, warn: bool)

  const NDESC := 64
  const NO_ATTR := Attr(false, false, false, false, false, false, false, false)
  const NO_KINDS := Kinds(false, false, false, false, false, false, false, false)

  function BitOf(v: nat, bit: nat): bool
    requires bit > 0
  {
    v / bit % 2 == 1
  }

  function AttrOf(v: nat): Attr {
    Attr(BitOf(v, 0x80), BitOf(v, 0x40), BitOf(v, 0x20), BitOf(v, 0x10),
         BitOf(v, 0x08), BitOf(v, 0x04), BitOf(v, 0x02), BitOf(v, 0x01))
  }

  function AttrByte(a: Attr): nat {
    When(a.ref, 0x80) + When(a.chg, 0x40) + When(a.dirw, 0x20) + When(a.dmai, 0x10)
    + When(a.exc, 0x08) + When(a.cpu, 0x04) + When(a.sys, 0x02) + When(a.rd, 0x01)
  }

  function KindsByte(k: Kinds): nat {
    When(k.fatl, 0x80) + When(k.sww, 0x40) + When(k.pww, 0x20) + When(k.excv, 0x10)
    + When(k.cpuiv, 0x08) + When(k.slv, 0x04) + When(k.sysv, 0x02) + When(k.rdv, 0x01)
  }

  function BusByte(b: Bus): nat { b.st % 16 + When(b.write, 0x10) + When(b.normal, 0x20) }

  function ResetUnit(): Unit {
    Unit(seq(NDESC, _ => Desc(0, 0, NO_ATTR)), 0x80, 0, 0, NO_KINDS, 0, 0, Bus(0, false, false), false, false, false)
  }

  // ----- the violation latch ----------------------------------------------------------

  function With(k: Kinds, v: Violation): Kinds {
    match v
    case Cpuiv => k.(cpuiv := true)
    case Slv => k.(slv := true)
    case Rdv => k.(rdv := true)
    case Sysv => k.(sysv := true)
    case Excv => k.(excv := true)
    case Pww => k.(pww := true)
  }

  function Capture(u: Unit, v: Violation, a: Access, st: nat): Unit {
    if u.captured then u.(kinds := With(u.kinds, v))
    else u.(kinds := With(NO_KINDS, v), sn := a.sn, off := a.off, bus := Bus(st, a.write, a.normal), captured := true)
  }

  function Flag(k: Kinds, fatal: bool, sww: bool): Kinds {
    k.(fatl := k.fatl || fatal, sww := k.sww || sww)
  }

  function Raise(u: Unit, isWarn: bool): Unit {
    if u.kinds.fatl || u.kinds.sww then u else u.(segt := true, warn := u.warn || isWarn)
  }

  function Latch(u: Unit, v: Violation, a: Access, st: nat, suppress: bool): Unit {
    var isWarn := !suppress;
    var fatal := u.captured && (suppress || (isWarn && a.normal));
    var sww := isWarn && !a.normal && u.kinds.pww && !fatal;
    var u1 := Capture(u, v, a, st);
    Raise(u1.(kinds := Flag(u1.kinds, fatal, sww)), isWarn)
  }

  // ----- translation by the full protection ladder --------------------------------------

  datatype Translated = Translated(u: Unit, addr: nat, fault: bool)

  function Identity(a: Access): nat { a.sn % 128 * 0x1_0000 + a.off }

  /** The unit acts on this access: enabled, translating, and the segment in its half. */
  predicate Acts(u: Unit, a: Access) {
    BitOf(u.mode, 0x80) && BitOf(u.mode, 0x40) && BitOf(a.sn, 64) == BitOf(u.mode, 0x20)
  }

  function Status(a: Access): nat { if a.fetch then 0x0D else if a.write then 0x0A else 0x09 }

  function Physical(base: nat, off: nat): nat { (base * 256 + off) % 0x100_0000 }

  function Touched(d: Desc, write: bool): Desc {
    d.(attr := d.attr.(ref := true, chg := d.attr.chg || write))
  }

  /** The first failing test of the ladder. */
  function Ladder(d: Desc, a: Access): (r: (bool, Violation)) {
    var page := a.off / 256;
    if d.attr.cpu then (true, Cpuiv)
    else if (if d.attr.dirw then page < d.limit else page > d.limit) then (true, Slv)
    else if d.attr.rd && a.write then (true, Rdv)
    else if d.attr.sys && a.normal then (true, Sysv)
    else if d.attr.exc && !a.fetch then (true, Excv)
    else (false, Pww)
  }

  function Translate(u: Unit, a: Access): Translated
    requires |u.desc| == NDESC
  {
    if !Acts(u, a) then Translated(u, Identity(a), false) else
    var seg := a.sn % NDESC;
    var d := u.desc[seg];
    var bad := Ladder(d, a);
    if bad.0 then Translated(Latch(u, bad.1, a, Status(a), true), Identity(a), true) else
    var u1 := u.(desc := u.desc[seg := Touched(d, a.write)]);
    var u2 := if d.attr.dirw && a.write && a.off / 256 == d.limit then Latch(u1, Pww, a, Status(a), false) else u1;
    Translated(u2, Physical(d.base, a.off), false)
  }

  // ----- the command port ------------------------------------------------------------------

  function DescByte(d: Desc, which: nat): nat {
    if which == 0 then d.base / 256 % 256 else if which == 1 then d.base % 256
    else if which == 2 then d.limit else AttrByte(d.attr)
  }

  function SetDescByte(d: Desc, which: nat, v: byte): Desc {
    if which == 0 then d.(base := d.base % 256 + v * 256)
    else if which == 1 then d.(base := d.base / 256 * 256 + v)
    else if which == 2 then d.(limit := v) else d.(attr := AttrOf(v))
  }

  /** The descriptor with CPU accesses inhibited, or else DMA accesses. */
  function Inhibit(d: Desc, cpu: bool): Desc {
    if cpu then d.(attr := d.attr.(cpu := true)) else d.(attr := d.attr.(dmai := true))
  }

  /** The descriptor byte a field command addresses. */
  function Field(dsc: nat, cmd: byte): nat {
    if cmd == 0x08 || cmd == 0x0C then dsc % 2
    else if cmd == 0x09 || cmd == 0x0D then 2
    else if cmd == 0x0A || cmd == 0x0E then 3
    else dsc % 4
  }

  predicate FieldCommand(cmd: byte) { 0x08 <= cmd <= 0x0F }

  /** The descriptor pointers after a field command, read or write: the ...C to ...F forms
      step to the next descriptor when the field is complete. */
  function Stepped(u: Unit, cmd: byte): Unit {
    var inc := cmd >= 0x0C;
    if cmd == 0x08 || cmd == 0x0C then
      (if u.dsc % 2 == 1 then u.(dsc := 0, sar := if inc then (u.sar + 1) % NDESC else u.sar) else u.(dsc := 1))
    else if cmd == 0x0B || cmd == 0x0F then
      var nd := (u.dsc + 1) % 4;
      u.(dsc := nd, sar := if nd == 0 && inc then (u.sar + 1) % NDESC else u.sar)
    else u.(sar := if inc then (u.sar + 1) % NDESC else u.sar)
  }

  datatype ReadBack = ReadBack(u: Unit, v: nat)

  function CmdRead(u: Unit, cmd: byte): ReadBack
    requires |u.desc| == NDESC
  {
    if FieldCommand(cmd) then ReadBack(Stepped(u, cmd), DescByte(u.desc[u.sar % NDESC], Field(u.dsc, cmd)))
    else ReadBack(u,
      if cmd == 0x00 then u.mode else if cmd == 0x01 then u.sar else if cmd == 0x20 then u.dsc
      else if cmd == 0x02 then KindsByte(u.kinds) else if cmd == 0x03 then u.sn
      else if cmd == 0x04 then u.off / 256 % 256 else if cmd == 0x05 then BusByte(u.bus) else 0)
  }

  function CmdWrite(u: Unit, cmd: byte, data: byte): Unit
    requires |u.desc| == NDESC
  {
    if cmd == 0x00 then u.(mode := data)
    else if cmd == 0x01 then u.(sar := data % NDESC, dsc := 0)
    else if cmd == 0x20 then u.(dsc := data % 4)
    else if FieldCommand(cmd) then
      var t := u.sar % NDESC;
      Stepped(u.(desc := u.desc[t := SetDescByte(u.desc[t], Field(u.dsc, cmd), data)]), cmd)
    else if cmd == 0x11 then u.(kinds := NO_KINDS, captured := false, segt := false)
    else if cmd == 0x13 then u.(kinds := u.kinds.(sww := false))
    else if cmd == 0x14 then u.(kinds := u.kinds.(fatl := false))
    else if cmd == 0x15 then u.(desc := seq(NDESC, i requires 0 <= i < NDESC => Inhibit(u.desc[i], true)))
    else if cmd == 0x16 then u.(desc := seq(NDESC, i requires 0 <= i < NDESC => Inhibit(u.desc[i], false)))
    else u
  }

  // ----- runs --------------------------------------------------------------------------------

  /** What reaches the unit; `TakeWarning` is the CPU consuming a pending write warning. */
  datatype Op = Reset | Translation(a: Access) | Read(cmd: byte) | Write(cmd: byte, data: byte) | TakeWarning

  /** What the unit answers: an address and fault flag, or a register value. */
  datatype Answer = Nothing | Address(addr: nat, fault: bool) | Value(v: nat)

  function Do(u: Unit, op: Op): (Unit, Answer)
    requires |u.desc| == NDESC
  {
    match op
    case Reset => (ResetUnit(), Nothing)
    case Translation(a) => var t := Translate(u, a); (t.u, Address(t.addr, t.fault))
    case Read(cmd) => var r := CmdRead(u, cmd); (r.u, Value(r.v))
    case Write(cmd, data) => (CmdWrite(u, cmd, data), Nothing)
    case TakeWarning => (u.(warn := false), Nothing)
  }

  lemma LatchKeepsTable(u: Unit, v: Violation, a: Access, st: nat, suppress: bool)
    ensures Latch(u, v, a, st, suppress).desc == u.desc
  {
    hide With;
  }

  lemma TranslateKeepsTable(u: Unit, a: Access)
    requires |u.desc| == NDESC
    ensures |Translate(u, a).u.desc| == NDESC
  {
    hide Latch, Acts, Ladder, Identity, Physical;
    var d := u.desc[a.sn % NDESC];
    LatchKeepsTable(u, Ladder(d, a).1, a, Status(a), true);
    LatchKeepsTable(u.(desc := u.desc[a.sn % NDESC := Touched(d, a.write)]), Pww, a, Status(a), false);
  }

  lemma DoKeepsTable(u: Unit, op: Op)
    requires |u.desc| == NDESC
    ensures |Do(u, op).0.desc| == NDESC
  {
    hide Latch, Acts, Ladder, Identity, Physical, SetDescByte, DescByte, Field, KindsByte, BusByte;
    if op.Translation? { TranslateKeepsTable(u, op.a); }
  }

  function Run(u: Unit, ops: seq<Op>): (r: (Unit, seq<Answer>))
    requires |u.desc| == NDESC
    ensures |r.0.desc| == NDESC
    decreases |ops|
  {
    if ops == [] then (u, []) else
    var s := Do(u, ops[0]);
    DoKeepsTable(u, ops[0]);
    var rest := Run(s.0, ops[1..]);
    (rest.0, [s.1] + rest.1)
  }

  // ----- what the ladder permits ----------------------------------------------------------------

  /** The offset's page is inside an ascending or a descending segment. */
  predicate InSegment(d: Desc, off: nat) {
    if d.attr.dirw then d.limit <= off / 256 else off / 256 <= d.limit
  }

  predicate Permitted(d: Desc, a: Access) {
    && !d.attr.cpu && InSegment(d, a.off)
    && (a.write ==> !d.attr.rd) && (a.normal ==> !d.attr.sys) && (!a.fetch ==> !d.attr.exc)
  }

  /** An access faults exactly when the unit acts on it and the descriptor does not permit it. A
      faulting access leaves every descriptor alone; a permitted one goes to 256 times the base plus
      the offset, and sets the referenced (and for a write the changed) bit of its own descriptor only. */
  lemma FaultsExactly(u: Unit, a: Access)
    requires |u.desc| == NDESC
    ensures var t := Translate(u, a);
            var seg := a.sn % NDESC;
            var d := u.desc[seg];
      && (t.fault <==> Acts(u, a) && !Permitted(d, a))
      && (t.fault || !Acts(u, a) ==> t.u.desc == u.desc && t.addr == a.sn % 128 * 0x1_0000 + a.off)
      && (!t.fault && Acts(u, a) ==>
            && t.addr == (256 * d.base + a.off) % RAM
            && t.u.desc == u.desc[seg := d.(attr := d.attr.(ref := true, chg := d.attr.chg || a.write))])
  {
  }

  // ----- the latch over whole runs -----------------------------------------------------------------

  /** The operations that unlatch a violation. */
  predicate Unlatches(op: Op) { op.Reset? || (op.Write? && op.cmd == 0x11) }

  ghost predicate Grew(k: Kinds, k': Kinds) {
    && (k.pww ==> k'.pww) && (k.excv ==> k'.excv) && (k.cpuiv ==> k'.cpuiv)
    && (k.slv ==> k'.slv) && (k.sysv ==> k'.sysv) && (k.rdv ==> k'.rdv)
  }

  ghost predicate SameCapture(u: Unit, w: Unit) {
    w.captured && w.sn == u.sn && w.off == u.off && w.bus == u.bus && Grew(u.kinds, w.kinds)
  }

  lemma WithGrows(k: Kinds, v: Violation)
    ensures Grew(k, With(k, v)) && With(k, v).fatl == k.fatl && With(k, v).sww == k.sww
  {
    match v {
      case Cpuiv => assert With(k, v) == k.(cpuiv := true);
      case Slv => assert With(k, v) == k.(slv := true);
      case Rdv => assert With(k, v) == k.(rdv := true);
      case Sysv => assert With(k, v) == k.(sysv := true);
      case Excv => assert With(k, v) == k.(excv := true);
      case Pww => assert With(k, v) == k.(pww := true);
    }
  }

  lemma LatchFrozen(u: Unit, v: Violation, a: Access, st: nat, suppress: bool)
    requires u.captured
    ensures var w := Latch(u, v, a, st, suppress);
      && SameCapture(u, w) && w.desc == u.desc
      && (u.kinds.fatl ==> w.kinds.fatl) && (u.kinds.sww ==> w.kinds.sww)
      && (u.kinds.fatl || u.kinds.sww ==> w.segt == u.segt && w.warn == u.warn)
  {
    hide With;
    WithGrows(u.kinds, v);
  }

  lemma TranslateFrozen(u: Unit, a: Access)
    requires |u.desc| == NDESC && u.captured
    ensures var w := Translate(u, a).u;
      && SameCapture(u, w)
      && (u.kinds.fatl ==> w.kinds.fatl) && (u.kinds.sww ==> w.kinds.sww)
      && (u.kinds.fatl || u.kinds.sww ==> w.segt == u.segt && w.warn == u.warn)
  {
    hide Latch, Acts, Ladder, Physical, Identity, Status;
    var d := u.desc[a.sn % NDESC];
    LatchFrozen(u, Ladder(d, a).1, a, Status(a), true);
    LatchFrozen(u.(desc := u.desc[a.sn % NDESC := Touched(d, a.write)]), Pww, a, Status(a), false);
  }

  lemma StepFrozen(u: Unit, op: Op)
    requires |u.desc| == NDESC && u.captured && !Unlatches(op)
    ensures var w := Do(u, op).0;
      && SameCapture(u, w)
      && (u.kinds.fatl && !(op.Write? && op.cmd == 0x14) ==> w.kinds.fatl)
      && (u.kinds.sww && !(op.Write? && op.cmd == 0x13) ==> w.kinds.sww)
      && ((u.kinds.fatl || u.kinds.sww) ==> w.segt == u.segt && (w.warn ==> u.warn))
  {
    hide Translate, SetDescByte, DescByte, Field, KindsByte, BusByte, When, AttrByte, AttrOf;
    if op.Translation? { TranslateFrozen(u, op.a); }
  }

  /** From the first violation until the latch is reset the captured segment, offset and
      bus status stay those of that access, and type bits only accumulate; FATL and SWW
      go only by their own clearing commands. */
  lemma {:induction false} Frozen(u: Unit, ops: seq<Op>)
    requires |u.desc| == NDESC && u.captured && forall op :: op in ops ==> !Unlatches(op)
    ensures var w := Run(u, ops).0;
      && SameCapture(u, w)
      && (u.kinds.fatl && (forall op :: op in ops && op.Write? ==> op.cmd != 0x14) ==> w.kinds.fatl)
      && (u.kinds.sww && (forall op :: op in ops && op.Write? ==> op.cmd != 0x13) ==> w.kinds.sww)
    decreases |ops|
  {
    hide Do, Unlatches;
    if ops != [] {
      assert ops[0] in ops;
      StepFrozen(u, ops[0]);
      DoKeepsTable(u, ops[0]);
      Frozen(Do(u, ops[0]).0, ops[1..]);
    }
  }

  /** The access raises a write warning: it succeeds on the boundary page of a descending segment. */
  predicate Warns(u: Unit, a: Access)
    requires |u.desc| == NDESC
  {
    var d := u.desc[a.sn % NDESC];
    Acts(u, a) && Permitted(d, a) && d.attr.dirw && a.write && a.off / 256 == d.limit
  }

  predicate Violates(u: Unit, a: Access)
    requires |u.desc| == NDESC
  {
    Acts(u, a) && !Permitted(u.desc[a.sn % NDESC], a)
  }

  /** With nothing captured no type bit is set. */
  predicate Armed(u: Unit) { !u.captured ==> u.kinds == NO_KINDS }

  lemma TranslateArmed(u: Unit, a: Access)
    requires |u.desc| == NDESC && Armed(u)
    ensures Armed(Translate(u, a).u)
  {
    hide With, Acts, Ladder, Identity, Physical;
  }

  lemma StepArmed(u: Unit, op: Op)
    requires |u.desc| == NDESC && Armed(u)
    ensures Armed(Do(u, op).0)
  {
    hide SetDescByte, DescByte, Field, KindsByte, BusByte, Translate;
    if op.Translation? { TranslateArmed(u, op.a); }
  }

  /** `Armed` holds after any run from reset. */
  lemma {:induction false} RunArmed(u: Unit, ops: seq<Op>)
    requires |u.desc| == NDESC && Armed(u)
    ensures Armed(Run(u, ops).0)
    decreases |ops|
  {
    hide Do, Armed;
    if ops != [] {
      StepArmed(u, ops[0]);
      DoKeepsTable(u, ops[0]);
      RunArmed(Do(u, ops[0]).0, ops[1..]);
    }
  }

  lemma LatchedBy(u: Unit, v: Violation, a: Access, st: nat, suppress: bool)
    requires Armed(u) && (suppress || v == Pww)
    ensures var w := Latch(u, v, a, st, suppress);
      && w.captured
      && (!u.captured ==>
            w.sn == a.sn && w.off == a.off && w.bus == Bus(st, a.write, a.normal) && w.kinds == With(NO_KINDS, v)
            && w.segt && (w.warn <==> u.warn || !suppress))
      && (u.captured ==>
            && w.sn == u.sn && w.off == u.off && w.bus == u.bus
            && w.kinds == With(u.kinds, v).(fatl := u.kinds.fatl || suppress || a.normal,
                                            sww := u.kinds.sww || (!suppress && !a.normal && u.kinds.pww))
            && (w.segt <==> u.segt || !(w.kinds.fatl || w.kinds.sww))
            && (w.warn <==> u.warn || (!suppress && !(w.kinds.fatl || w.kinds.sww))))
  {
  }

  /** Exactly what an access does to the latch. Nothing, unless it violates or warns. The
      first event captures the access; later ones set FATL when they are violations or
      normal-mode warnings, and SWW when they are system-mode warnings after a PWW. A
      trap is requested unless FATL or SWW is then set. */
  lemma LatchExact(u: Unit, a: Access)
    requires |u.desc| == NDESC && Armed(u)
    ensures var t := Translate(u, a);
            var w := t.u;
            var warns := Warns(u, a);
            var event := Violates(u, a) || warns;
            var kind := if warns then Pww else Ladder(u.desc[a.sn % NDESC], a).1;
      && (t.fault <==> Violates(u, a))
      && (!event ==> w == u.(desc := w.desc))
      && (event ==> w.captured)
      && (event && !u.captured ==>
            && w.sn == a.sn && w.off == a.off && w.bus == Bus(Status(a), a.write, a.normal)
            && w.kinds == With(NO_KINDS, kind) && w.segt && (w.warn <==> u.warn || warns))
      && (event && u.captured ==>
            && w.sn == u.sn && w.off == u.off && w.bus == u.bus
            && w.kinds == With(u.kinds, kind).(fatl := u.kinds.fatl || !warns || a.normal,
                                               sww := u.kinds.sww || (warns && !a.normal && u.kinds.pww))
            && (w.segt <==> u.segt || !(w.kinds.fatl || w.kinds.sww))
            && (w.warn <==> u.warn || (warns && !(w.kinds.fatl || w.kinds.sww))))
  {
    hide Latch, With, Identity, Physical, Status, Acts;
    FaultsExactly(u, a);
    var d := u.desc[a.sn % NDESC];
    if Violates(u, a) {
      LatchedBy(u, Ladder(d, a).1, a, Status(a), true);
    } else if Warns(u, a) {
      LatchedBy(u.(desc := u.desc[a.sn % NDESC := Touched(d, a.write)]), Pww, a, Status(a), false);
    }
  }

  lemma StaysCaptured(u: Unit, op: Op)
    requires |u.desc| == NDESC && u.captured && !Unlatches(op)
    ensures Do(u, op).0.captured
  {
    hide Do, Unlatches;
    StepFrozen(u, op);
  }

  /** While FATL or SWW is set nothing raises a new trap or warning, until it is cleared. */
  lemma {:induction false} Inhibited(u: Unit, ops: seq<Op>)
    requires |u.desc| == NDESC && u.captured && (u.kinds.fatl || u.kinds.sww)
    requires forall op :: op in ops ==> !Unlatches(op) && (op.Write? ==> op.cmd != 0x13 && op.cmd != 0x14)
    ensures var w := Run(u, ops).0;
      w.segt == u.segt && (w.warn ==> u.warn) && (w.kinds.fatl || w.kinds.sww)
    decreases |ops|
  {
    hide Do, Unlatches, SameCapture;
    if ops != [] {
      assert ops[0] in ops;
      StepFrozen(u, ops[0]);
      StaysCaptured(u, ops[0]);
      DoKeepsTable(u, ops[0]);
      Inhibited(Do(u, ops[0]).0, ops[1..]);
    }
  }

  // ----- descriptor programming ---------------------------------------------------------------------

  function Bit(v: nat, k: nat): nat
    requires k > 0
  {
    v / k % 2
  }

  lemma BitWeighs(v: nat, k: nat)
    requires k > 0
    ensures When(BitOf(v, k), k) == k * Bit(v, k)
  {
  }

  lemma BitsAddUp(v: byte)
    ensures v == 0x80 * Bit(v, 0x80) + 0x40 * Bit(v, 0x40) + 0x20 * Bit(v, 0x20) + 0x10 * Bit(v, 0x10)
                 + 0x08 * Bit(v, 0x08) + 0x04 * Bit(v, 0x04) + 0x02 * Bit(v, 0x02) + 0x01 * Bit(v, 0x01)
  {
    hide Bit;
    Halves(v, 1); Halves(v, 2); Halves(v, 4); Halves(v, 8);
    Halves(v, 0x10); Halves(v, 0x20); Halves(v, 0x40); Halves(v, 0x80);
    assert v / 0x100 == 0;
  }

  lemma Halves(v: nat, k: nat)
    requires k > 0
    ensures v / k == 2 * (v / (2 * k)) + Bit(v, k)
  {
    var q := v / k;
    var h, b, r := q / 2, q % 2, v % k;
    assert v == (2 * k) * h + (k * b + r) by { Regroup(k, h, b, r); assert v == k * q + r; }
    assert k * b + r < 2 * k by { if b == 1 { assert k * b == k; } }
    Quotient(v, h, 2 * k, k * b + r);
  }

  lemma Regroup(k: nat, h: nat, b: nat, r: nat)
    ensures k * (2 * h + b) + r == (2 * k) * h + (k * b + r)
  {
  }

  /** An attribute byte survives being split into its flags. */
  lemma AttrCodec(v: byte)
    ensures AttrByte(AttrOf(v)) == v
  {
    hide BitOf, When, Bit;
    BitWeighs(v, 0x80); BitWeighs(v, 0x40); BitWeighs(v, 0x20); BitWeighs(v, 0x10);
    BitWeighs(v, 0x08); BitWeighs(v, 0x04); BitWeighs(v, 0x02); BitWeighs(v, 0x01);
    BitsAddUp(v);
  }

  lemma SetThenGet(d: Desc, which: nat, v: byte, other: nat)
    requires which < 4 && other < 4
    ensures DescByte(SetDescByte(d, which, v), which) == v
    ensures other != which ==> DescByte(SetDescByte(d, which, v), other) == DescByte(d, other)
  {
    hide AttrOf, AttrByte;
    AttrCodec(v);
    BytesOfWord(d.base, v);
  }

  lemma BytesOfWord(base: u16, v: byte)
    ensures (base % 256 + v * 256) / 256 == v && (base % 256 + v * 256) % 256 == base % 256
    ensures (base / 256 * 256 + v) / 256 == base / 256 && (base / 256 * 256 + v) % 256 == v
    ensures base / 256 % 256 == base / 256
  {
  }

  /** The four writes of a whole descriptor through command 0x0F, after selecting it. */
  function Program(s: byte, b: seq<byte>): seq<Op>
    requires |b| == 4
  {
    [Write(0x01, s), Write(0x0F, b[0]), Write(0x0F, b[1]), Write(0x0F, b[2]), Write(0x0F, b[3])]
  }

  /** A descriptor programmed byte by byte holds exactly those bytes, its neighbours are
      untouched, and the pointers stand at the next descriptor's first byte. */
  lemma ProgramSets(u: Unit, s: byte, b: seq<byte>)
    requires |u.desc| == NDESC && |b| == 4
    ensures var w := Run(u, Program(s, b)).0;
            var t := s % NDESC;
      && w == u.(desc := w.desc, sar := (t + 1) % NDESC, dsc := 0)
      && w.desc == u.desc[t := Desc(256 * b[0] as int + b[1], b[2], AttrOf(b[3]))]
      && forall k :: 0 <= k < 4 ==> DescByte(w.desc[t], k) == b[k]
  {
    hide Do, SetDescByte, DescByte;
    var t := s % NDESC;
    var d1 := SetDescByte(u.desc[t], 0, b[0]);
    var d2 := SetDescByte(d1, 1, b[1]);
    var d3 := SetDescByte(d2, 2, b[2]);
    var d4 := SetDescByte(d3, 3, b[3]);
    var ops := Program(s, b);
    var u0 := u.(sar := t, dsc := 0);
    Select(u, s);
    RunStep(u, ops, u0);
    var u1 := WroteField(u0, b[0]);
    RunStep(u0, ops[1..], u1);
    var u2 := WroteField(u1, b[1]);
    RunStep(u1, ops[2..], u2);
    var u3 := WroteField(u2, b[2]);
    RunStep(u2, ops[3..], u3);
    var u4 := WroteField(u3, b[3]);
    RunStep(u3, ops[4..], u4);
    assert u4.desc == u.desc[t := d4];
    SetThenGet(u.desc[t], 0, b[0], 0);
    SetThenGet(d1, 1, b[1], 0);
    SetThenGet(d2, 2, b[2], 0); SetThenGet(d2, 2, b[2], 1);
    SetThenGet(d3, 3, b[3], 0); SetThenGet(d3, 3, b[3], 1); SetThenGet(d3, 3, b[3], 2);
    FourFields(u.desc[t], b);
  }

  lemma FourFields(d: Desc, b: seq<byte>)
    requires |b| == 4
    ensures SetDescByte(SetDescByte(SetDescByte(SetDescByte(d, 0, b[0]), 1, b[1]), 2, b[2]), 3, b[3])
         == Desc(256 * b[0] as int + b[1], b[2], AttrOf(b[3]))
  {
    hide AttrOf;
    BytesOfWord(d.base, b[0]);
  }

  lemma Select(u: Unit, s: byte)
    requires |u.desc| == NDESC
    ensures Do(u, Write(0x01, s)).0 == u.(sar := s % NDESC, dsc := 0)
  {
    hide SetDescByte, Field, Stepped;
  }

  lemma WroteField(u: Unit, v: byte) returns (w: Unit)
    requires |u.desc| == NDESC && u.sar < NDESC && u.dsc < 4
    ensures w == Do(u, Write(0x0F, v)).0
    ensures w == u.(desc := u.desc[u.sar := SetDescByte(u.desc[u.sar], u.dsc, v)], dsc := (u.dsc + 1) % 4,
                    sar := if u.dsc == 3 then (u.sar + 1) % NDESC else u.sar)
  {
    hide SetDescByte;
    w := u.(desc := u.desc[u.sar := SetDescByte(u.desc[u.sar], u.dsc, v)], dsc := (u.dsc + 1) % 4,
            sar := if u.dsc == 3 then (u.sar + 1) % NDESC else u.sar);
  }

  lemma RunStep(u: Unit, ops: seq<Op>, w: Unit)
    requires |u.desc| == NDESC && |w.desc| == NDESC && ops != [] && Do(u, ops[0]).0 == w
    ensures Run(u, ops).0 == Run(w, ops[1..]).0
    ensures |ops| == 1 ==> Run(u, ops).0 == w
  {
    hide Do;
  }

  // ----- the fast path -----------------------------------------------------------------------------------

  /** Nothing about the descriptor can make an access trap. */
  predicate Simple(d: Desc) {
    d.limit == 0xFF && !d.attr.cpu && !d.attr.rd && !d.attr.sys && !d.attr.exc && !d.attr.dirw
  }

  /** The simple descriptors are exactly those on which no access can fault or warn. */
  lemma SimpleExactly(d: Desc)
    ensures Simple(d) <==> forall a :: Permitted(d, a) && !(d.attr.dirw && a.write && a.off / 256 == d.limit)
  {
    if Simple(d) {
      forall a: Access ensures Permitted(d, a) { assert a.off / 256 <= 0xFF; }
    } else {
      var top := if d.attr.dirw then d.limit * 256 else 0xFFFF;
      var write := if d.attr.exc then Access(0, top, false, true, false) else Access(0, top, true, true, true);
      assert d.limit * 256 / 256 == d.limit;
      assert !Permitted(d, write) || (d.attr.dirw && write.write && write.off / 256 == d.limit);
    }
  }

  /** On a simple descriptor the whole ladder comes down to base plus offset. */
  lemma FastAgrees(u: Unit, a: Access)
    requires |u.desc| == NDESC && Acts(u, a) && Simple(u.desc[a.sn % NDESC])
    ensures var seg := a.sn % NDESC;
      Translate(u, a) == Translated(u.(desc := u.desc[seg := Touched(u.desc[seg], a.write)]),
                                    (256 * u.desc[seg].base + a.off) % RAM, false)
  {
    hide Acts;
    assert a.off / 256 <= 0xFF;
  }
}
