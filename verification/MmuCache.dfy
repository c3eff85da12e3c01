/** The memory management unit as it runs: descriptors in an array, with a fast-path cache
    beside them that translation trusts. Every operation keeps the cache in step, and
    answers and changes state exactly as the unit of `Mmu`, which has no cache. */
module MmuCache {
  import opened Basics
  import opened Mmu

  /** A cache entry agrees with its descriptor. */
  predicate Matches(d: Desc, ok: bool, base: nat) {
    ok == Simple(d) && base == d.base * 256
  }

  class MmuUnit {
    const desc: array<Desc>
    const fastOk: array<bool>
    const fastBase: array<nat>
    var mode: byte
    var sar: nat
    var dsc: nat
    var kinds: Kinds
    var sn: byte
    var off: u16
    var bus: Bus
    var captured: bool
    var segt: bool
    var warn: bool

    ghost predicate Sized() {
      desc.Length == NDESC && fastOk.Length == NDESC && fastBase.Length == NDESC
    }

    ghost predicate Valid()
      reads this, desc, fastOk, fastBase
    {
      Sized() && forall s :: 0 <= s < NDESC ==> Matches(desc[s], fastOk[s], fastBase[s])
    }

    /** The architectural state, without the cache. */
    ghost function State(): Unit
      reads this, desc
    {
      Unit(desc[..], mode, sar, dsc, kinds, sn, off, bus, captured, segt, warn)
    }

    constructor ()
      ensures Valid() && State() == ResetUnit() && fresh(desc) && fresh(fastOk) && fresh(fastBase)
    {
      desc := new Desc[NDESC](_ => Desc(0, 0, NO_ATTR));
      fastOk := new bool[NDESC](_ => false);
      fastBase := new nat[NDESC](_ => 0);
      mode, sar, dsc, kinds, sn, off, bus := 0x80, 0, 0, NO_KINDS, 0, 0, Bus(0, false, false);
      captured, segt, warn := false, false, false;
    }

    method RefreshFast(seg: nat)
      requires Sized()
      modifies fastOk, fastBase
      ensures var s := seg % NDESC; Matches(desc[s], fastOk[s], fastBase[s])
      ensures forall s :: 0 <= s < NDESC && s != seg % NDESC ==>
        fastOk[s] == old(fastOk[s]) && fastBase[s] == old(fastBase[s])
    {
      var s := seg % NDESC;
      var d := desc[s];
      fastOk[s] := d.limit == 0xFF && !(d.attr.cpu || d.attr.rd || d.attr.sys || d.attr.exc || d.attr.dirw);
      fastBase[s] := d.base * 256;
    }

    method Reset()
      requires Sized()
      modifies this, desc, fastOk, fastBase
      ensures Valid() && State() == ResetUnit()
    {
      for i := 0 to NDESC
        invariant forall s :: 0 <= s < i ==> desc[s] == Desc(0, 0, NO_ATTR)
      {
        desc[i] := Desc(0, 0, NO_ATTR);
      }
      mode, sar, dsc := 0x80, 0, 0;
      kinds, sn, off, bus := NO_KINDS, 0, 0, Bus(0, false, false);
      captured, segt, warn := false, false, false;
      for i := 0 to NDESC
        invariant State() == ResetUnit()
        invariant forall s :: 0 <= s < i ==> Matches(desc[s], fastOk[s], fastBase[s])
      {
        RefreshFast(i);
      }
    }

    method LatchViol(v: Violation, a: Access, st: nat, suppress: bool)
      modifies this`kinds, this`sn, this`off, this`bus, this`captured, this`segt, this`warn
      ensures State() == Latch(old(State()), v, a, st, suppress)
    {
      hide Capture, Flag, Raise;
      var isWarn := !suppress;
      var fatal := captured && (suppress || (isWarn && a.normal));
      var sww := isWarn && !a.normal && kinds.pww && !fatal;
      CaptureFirst(v, a, st);
      AddFlags(fatal, sww);
      RequestTrap(isWarn);
    }

    method CaptureFirst(v: Violation, a: Access, st: nat)
      modifies this`kinds, this`sn, this`off, this`bus, this`captured
      ensures State() == Capture(old(State()), v, a, st)
    {
      hide With;
      if !captured {
        kinds, sn, off, bus := With(NO_KINDS, v), a.sn, a.off, Bus(st, a.write, a.normal);
        captured := true;
      } else {
        kinds := With(kinds, v);
      }
    }

    method AddFlags(fatal: bool, sww: bool)
      modifies this`kinds
      ensures State() == old(State()).(kinds := Flag(old(kinds), fatal, sww))
    {
      if fatal { kinds := kinds.(fatl := true); }
      if sww { kinds := kinds.(sww := true); }
    }

    method RequestTrap(isWarn: bool)
      modifies this`segt, this`warn
      ensures State() == Raise(old(State()), isWarn)
    {
      if !kinds.fatl && !kinds.sww {
        segt := true;
        if isWarn { warn := true; }
      }
    }

    /** Same answer and same state as the ladder run with no cache. */
    method Translate(a: Access) returns (addr: nat, fault: bool)
      requires Valid()
      modifies this, desc
      ensures Valid() && Translated(State(), addr, fault) == Mmu.Translate(old(State()), a)
    {
      hide Latch, Identity, Ladder;
      addr, fault := Identity(a), false;
      if !BitOf(mode, 0x80) || !BitOf(mode, 0x40) || BitOf(a.sn, 64) != BitOf(mode, 0x20) { return; }
      var seg := a.sn % NDESC;
      if fastOk[seg] {
        FastAgrees(State(), a);
        hide Mmu.Translate;
        Touch(seg, a.write);
        addr := (fastBase[seg] + a.off) % 0x100_0000;
        return;
      }
      var d := desc[seg];
      var v;
      fault, v := FirstViolation(d, a);
      if fault {
        LatchViol(v, a, Status(a), true);
        return;
      }
      Touch(seg, a.write);
      if d.attr.dirw && a.write && a.off / 256 == d.limit { LatchViol(Pww, a, Status(a), false); }
      addr := (d.base * 256 + a.off) % 0x100_0000;
    }

    /** The protection ladder: the first failing test wins. */
    method FirstViolation(d: Desc, a: Access) returns (bad: bool, v: Violation)
      ensures (bad, v) == Ladder(d, a)
    {
      var page := a.off / 256;
      if d.attr.cpu { return true, Cpuiv; }
      if d.attr.dirw {
        if page < d.limit { return true, Slv; }
      } else {
        if page > d.limit { return true, Slv; }
      }
      if d.attr.rd && a.write { return true, Rdv; }
      if d.attr.sys && a.normal { return true, Sysv; }
      if d.attr.exc && !a.fetch { return true, Excv; }
      return false, Pww;
    }

    /** REF and CHG accounting, which no cache entry depends on. */
    method Touch(seg: nat, write: bool)
      requires Valid() && seg < NDESC
      modifies desc
      ensures Valid() && desc[..] == old(desc[..])[seg := Touched(old(desc[seg]), write)]
    {
      var d := desc[seg];
      d := d.(attr := d.attr.(ref := true));
      if write { d := d.(attr := d.attr.(chg := true)); }
      desc[seg] := d;
    }

    /** The descriptor byte a field command reads. */
    method ReadDescByte(which: nat) returns (v: nat)
      requires Sized()
      ensures v == DescByte(desc[sar % NDESC], which)
    {
      var d := desc[sar % NDESC];
      if which == 0 { v := d.base / 256 % 256; }
      else if which == 1 { v := d.base % 256; }
      else if which == 2 { v := d.limit; }
      else { v := AttrByte(d.attr); }
    }

    method WriteDescByte(which: nat, v: byte)
      requires Sized()
      modifies desc
      ensures desc[..] == old(desc[..])[sar % NDESC := SetDescByte(old(desc[sar % NDESC]), which, v)]
    {
      var t := sar % NDESC;
      var d := desc[t];
      if which == 0 { desc[t] := d.(base := d.base % 256 + v * 256); }
      else if which == 1 { desc[t] := d.(base := d.base / 256 * 256 + v); }
      else if which == 2 { desc[t] := d.(limit := v); }
      else { desc[t] := d.(attr := AttrOf(v)); }
    }

    /** DSC and SAR after any field command. */
    method Step(cmd: byte)
      requires FieldCommand(cmd)
      modifies this`sar, this`dsc
      ensures State() == Stepped(old(State()), cmd)
    {
      var inc := cmd >= 0x0C;
      if cmd == 0x08 || cmd == 0x0C {
        if dsc % 2 == 1 {
          dsc := 0;
          if inc { sar := (sar + 1) % NDESC; }
        } else {
          dsc := 1;
        }
      } else if cmd == 0x0B || cmd == 0x0F {
        var nd := (dsc + 1) % 4;
        if nd == 0 && inc { sar := (sar + 1) % NDESC; }
        dsc := nd;
      } else if inc {
        sar := (sar + 1) % NDESC;
      }
    }

    method CmdRead(cmd: byte) returns (v: nat)
      requires Valid()
      modifies this`sar, this`dsc
      ensures Valid() && ReadBack(State(), v) == Mmu.CmdRead(old(State()), cmd)
    {
      if FieldCommand(cmd) {
        v := ReadDescByte(Field(dsc, cmd));
        Step(cmd);
      } else if cmd == 0x00 { v := mode; }
      else if cmd == 0x01 { v := sar; }
      else if cmd == 0x20 { v := dsc; }
      else if cmd == 0x02 { v := KindsByte(kinds); }
      else if cmd == 0x03 { v := sn; }
      else if cmd == 0x04 { v := off / 256 % 256; }
      else if cmd == 0x05 { v := BusByte(bus); }
      else { v := 0; }
    }

    /** Command 0x15 or 0x16: set one attribute bit in every descriptor. */
    method SetEverywhere(cpu: bool)
      requires Valid()
      modifies desc, fastOk, fastBase
      ensures Valid()
      ensures desc[..] == seq(NDESC, i requires 0 <= i < NDESC => Inhibit(old(desc[i]), cpu))
    {
      for i := 0 to NDESC
        invariant forall s :: 0 <= s < i ==> desc[s] == Inhibit(old(desc[s]), cpu)
        invariant forall s :: i <= s < NDESC ==> desc[s] == old(desc[s])
        invariant Valid()
      {
        ghost var was := desc[..];
        desc[i] := Inhibit(desc[i], cpu);
        RefreshFast(i);
        assert forall s :: 0 <= s < NDESC && s != i ==> desc[s] == was[s];
      }
    }

    method WriteField(cmd: byte, data: byte)
      requires Valid() && FieldCommand(cmd)
      modifies this`sar, this`dsc, desc, fastOk, fastBase
      ensures Valid() && State() == Mmu.CmdWrite(old(State()), cmd, data)
    {
      hide SetDescByte;
      var tgt := sar % NDESC;
      WriteDescByte(Field(dsc, cmd), data);
      Step(cmd);
      RefreshFast(tgt);
    }

    method CmdWrite(cmd: byte, data: byte)
      requires Valid()
      modifies this, desc, fastOk, fastBase
      ensures Valid() && State() == Mmu.CmdWrite(old(State()), cmd, data)
    {
      hide Stepped, SetDescByte, Field;
      if cmd == 0x00 { mode := data; }
      else if cmd == 0x01 { sar, dsc := data % NDESC, 0; }
      else if cmd == 0x20 { dsc := data % 4; }
      else if FieldCommand(cmd) { WriteField(cmd, data); }
      else if cmd == 0x11 { kinds, captured, segt := NO_KINDS, false, false; }
      else if cmd == 0x13 { kinds := kinds.(sww := false); }
      else if cmd == 0x14 { kinds := kinds.(fatl := false); }
      else if cmd == 0x15 { SetEverywhere(true); }
      else if cmd == 0x16 { SetEverywhere(false); }
    }

    /** When thing that reaches the unit. */
    method Do(op: Op) returns (answer: Answer)
      requires Valid()
      modifies this, desc, fastOk, fastBase
      ensures Valid() && (State(), answer) == Mmu.Do(old(State()), op)
    {
      hide Mmu.Translate, Mmu.CmdRead, Mmu.CmdWrite, ResetUnit;
      answer := Nothing;
      match op {
        case Reset => Reset();
        case Translation(a) =>
          var addr, fault := Translate(a);
          answer := Address(addr, fault);
        case Read(cmd) =>
          var v := CmdRead(cmd);
          answer := Value(v);
        case Write(cmd, data) => CmdWrite(cmd, data);
        case TakeWarning => warn := false;
      }
    }

    /** Over any sequence of resets, commands, translations and consumed warnings the cached
        unit keeps its cache in step and gives the answers of the unit without one. */
    method RunAll(ops: seq<Op>) returns (answers: seq<Answer>)
      requires Valid()
      modifies this, desc, fastOk, fastBase
      ensures Valid() && State() == Run(old(State()), ops).0 && answers == Run(old(State()), ops).1
    {
      hide Mmu.Do;
      answers := [];
      ghost var all := Run(State(), ops);
      assert ops[0..] == ops;
      for i := 0 to |ops|
        invariant Valid()
        invariant all.0 == Run(State(), ops[i..]).0
        invariant all.1 == answers + Run(State(), ops[i..]).1
      {
        ghost var rest := Run(State(), ops[i..]);
        assert ops[i..][1..] == ops[i + 1..];
        var answer := Do(ops[i]);
        assert rest.1 == [answer] + Run(State(), ops[i + 1..]).1;
        assert answers + rest.1 == answers + [answer] + Run(State(), ops[i + 1..]).1;
        answers := answers + [answer];
      }
      assert ops[|ops|..] == [];
    }
  }
}
