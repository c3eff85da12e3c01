/** What software sees of the memory management unit: where a permitted access goes, what
    programming a descriptor does to later accesses, and what the status registers say. */
module MmuPort {
  import opened Basics
  import opened Mmu

  // ----- addresses ------------------------------------------------------------------------

  /** An access the unit acts on by its mode: enabled, translating, and the segment in its half. */
  predicate Selected(u: Unit, a: Access) {
    u.mode / 0x80 % 2 == 1 && u.mode / 0x40 % 2 == 1 && a.sn / 0x40 % 2 == u.mode / 0x20 % 2
  }

  /** A permitted access goes to 256 times the base plus the offset, within 24 bits; one the unit
      does not act on, or that faults, keeps its segment and offset. */
  lemma TranslatesTo(u: Unit, a: Access)
    requires |u.desc| == NDESC
    ensures var t := Translate(u, a);
            var d := u.desc[a.sn % NDESC];
      && (!Selected(u, a) ==> t == Translated(u, a.sn % 128 * 0x1_0000 + a.off, false))
      && (Selected(u, a) ==> t.fault == !Permitted(d, a))
      && (t.fault ==> t.addr == a.sn % 128 * 0x1_0000 + a.off)
      && (Selected(u, a) && !t.fault ==>
            t.addr < 0x100_0000 && (256 * d.base + a.off - t.addr) % 0x100_0000 == 0)
  {
    hide Ladder, Permitted, Latch;
    FaultsExactly(u, a);
    Congruent(256 * u.desc[a.sn % NDESC].base + a.off);
  }

  lemma Congruent(n: nat)
    ensures (n - n % 0x100_0000) % 0x100_0000 == 0
  {
  }

  /** Two permitted accesses share an address exactly when 256 times the base plus the offset
      agrees modulo the size of memory. */
  lemma CollideExactly(u: Unit, a: Access, b: Access)
    requires |u.desc| == NDESC && Selected(u, a) && Selected(u, b)
    requires !Translate(u, a).fault && !Translate(u, b).fault
    ensures var x, y := u.desc[a.sn % NDESC], u.desc[b.sn % NDESC];
      Translate(u, a).addr == Translate(u, b).addr
      <==> (256 * x.base + a.off) % RAM == (256 * y.base + b.off) % RAM
  {
    hide Translate, Permitted;
    TranslatesTo(u, a);
    TranslatesTo(u, b);
    Residue(256 * u.desc[a.sn % NDESC].base + a.off, Translate(u, a).addr);
    Residue(256 * u.desc[b.sn % NDESC].base + b.off, Translate(u, b).addr);
  }

  lemma Residue(n: nat, r: nat)
    requires r < RAM && (n - r) % RAM == 0
    ensures n % RAM == r
  {
    Quotient(n, (n - r) / RAM, RAM, r);
  }

  /** The first and last page frame a descriptor lets through. */
  function FirstFrame(d: Desc): nat { if d.attr.dirw then d.base + d.limit else d.base }

  function LastFrame(d: Desc): nat { if d.attr.dirw then d.base + 0xFF else d.base + d.limit }

  /** Segments whose page frames lie apart and below the top of memory never share an address. */
  lemma SegmentsApart(u: Unit, a: Access, b: Access)
    requires |u.desc| == NDESC && Selected(u, a) && Selected(u, b)
    requires !Translate(u, a).fault && !Translate(u, b).fault
    requires var x, y := u.desc[a.sn % NDESC], u.desc[b.sn % NDESC];
             LastFrame(x) < FirstFrame(y) && LastFrame(y) < 0x1_0000
    ensures Translate(u, a).addr < Translate(u, b).addr
  {
    hide Translate;
    TranslatesTo(u, a);
    TranslatesTo(u, b);
    var x, y := u.desc[a.sn % NDESC], u.desc[b.sn % NDESC];
    InFrames(x, a);
    InFrames(y, b);
    Pages(256 * x.base + a.off, 256 * y.base + b.off);
    Residue(256 * x.base + a.off, Translate(u, a).addr);
    Residue(256 * y.base + b.off, Translate(u, b).addr);
  }

  lemma Pages(m: nat, n: nat)
    requires m / 256 < n / 256 < 0x1_0000
    ensures m < n < RAM
  {
  }

  lemma InFrames(d: Desc, a: Access)
    requires Permitted(d, a)
    ensures FirstFrame(d) <= (256 * d.base + a.off) / 256 <= LastFrame(d)
  {
    assert (256 * d.base + a.off) / 256 == d.base + a.off / 256;
  }

  // ----- programming and then using a descriptor --------------------------------------------

  /** What four descriptor bytes permit: no CPU inhibit (bit 2), the page within the limit on the
      side the direction bit says (bit 5), no write if read-only (bit 0), no normal-mode access if
      system-only (bit 1), only fetches if execute-only (bit 3). */
  predicate BytesPermit(limit: byte, attr: byte, a: Access) {
    && attr / 0x04 % 2 == 0
    && (if attr / 0x20 % 2 == 1 then limit <= a.off / 256 else a.off / 256 <= limit)
    && (attr % 2 == 1 ==> !a.write) && (attr / 0x02 % 2 == 1 ==> !a.normal) && (attr / 0x08 % 2 == 1 ==> a.fetch)
  }

  /** After four bytes are programmed into a descriptor, an access to its segment goes where those
      bytes say, or faults when they do not permit it. */
  lemma ProgrammedThenUsed(u: Unit, s: byte, b: seq<byte>, a: Access)
    requires |u.desc| == NDESC && |b| == 4 && a.sn % NDESC == s % NDESC && Selected(u, a)
    ensures Do(Run(u, Program(s, b)).0, Translation(a)).1
         == if BytesPermit(b[2], b[3], a)
            then Address((0x1_0000 * b[0] as int + 0x100 * b[1] as int + a.off) % RAM, false)
            else Address(a.sn % 128 * 0x1_0000 + a.off, true)
  {
    hide Translate, Run, Program;
    ProgramSets(u, s, b);
    var w := Run(u, Program(s, b)).0;
    TranslatesTo(w, a);
    if BytesPermit(b[2], b[3], a) {
      Residue(0x1_0000 * b[0] as int + 0x100 * b[1] as int + a.off, Translate(w, a).addr);
    }
  }

  /** Field by field, through commands 08, 09 and 0A, a descriptor gets the same bytes; these
      commands leave SAR where it stands. */
  lemma ProgramByField(u: Unit, s: byte, b: seq<byte>)
    requires |u.desc| == NDESC && |b| == 4
    ensures var ops := [Write(0x01, s), Write(0x08, b[0]), Write(0x08, b[1]), Write(0x09, b[2]), Write(0x0A, b[3])];
            var t := s % NDESC;
      Run(u, ops).0 == u.(desc := u.desc[t := Desc(256 * b[0] as int + b[1], b[2], AttrOf(b[3]))], sar := t, dsc := 0)
  {
    hide Run, AttrOf, SetDescByte, Stepped, CmdWrite, Do;
    var t := s % NDESC;
    var ops := [Write(0x01, s), Write(0x08, b[0]), Write(0x08, b[1]), Write(0x09, b[2]), Write(0x0A, b[3])];
    var u0 := u.(sar := t, dsc := 0);
    Select(u, s);
    RunStep(u, ops, u0);
    var u1 := FieldWritten(u0, 0x08, b[0]);
    RunStep(u0, ops[1..], u1);
    var u2 := FieldWritten(u1, 0x08, b[1]);
    RunStep(u1, ops[2..], u2);
    var u3 := FieldWritten(u2, 0x09, b[2]);
    RunStep(u2, ops[3..], u3);
    var u4 := FieldWritten(u3, 0x0A, b[3]);
    RunStep(u3, ops[4..], u4);
    FourFields(u.desc[t], b);
    assert u4.desc == u.desc[t := u4.desc[t]];
  }

  lemma FieldWritten(u: Unit, cmd: byte, v: byte) returns (w: Unit)
    requires |u.desc| == NDESC && u.sar < NDESC && u.dsc < 2 && 0x08 <= cmd <= 0x0A
    ensures w == Do(u, Write(cmd, v)).0
    ensures var which := if cmd == 0x08 then u.dsc else if cmd == 0x09 then 2 else 3;
      w == u.(desc := u.desc[u.sar := SetDescByte(u.desc[u.sar], which, v)],
              dsc := if cmd == 0x08 then 1 - u.dsc else u.dsc)
  {
    hide SetDescByte;
    var which := if cmd == 0x08 then u.dsc else if cmd == 0x09 then 2 else 3;
    w := u.(desc := u.desc[u.sar := SetDescByte(u.desc[u.sar], which, v)],
            dsc := if cmd == 0x08 then 1 - u.dsc else u.dsc);
  }

  /** The field a command of the 08 to 0B forms works on is finished with this byte. */
  predicate FieldDone(dsc: nat, cmd: byte) {
    (cmd == 0x08 ==> dsc % 2 == 1) && (cmd == 0x0B ==> dsc % 4 == 3)
  }

  /** Commands 0C to 0F store and return what 08 to 0B do, and step to the next descriptor exactly
      when the field is finished. */
  lemma SteppingForms(u: Unit, cmd: byte, data: byte)
    requires |u.desc| == NDESC && u.sar < NDESC && u.dsc < 4 && 0x08 <= cmd <= 0x0B
    ensures var next := if FieldDone(u.dsc, cmd) then (u.sar + 1) % NDESC else u.sar;
      && CmdWrite(u, cmd, data).sar == u.sar && CmdRead(u, cmd).u.sar == u.sar
      && CmdWrite(u, cmd + 4, data) == CmdWrite(u, cmd, data).(sar := next)
      && CmdRead(u, cmd + 4) == ReadBack(CmdRead(u, cmd).u.(sar := next), CmdRead(u, cmd).v)
  {
    hide SetDescByte, DescByte, Stepped, Field;
    SteppedForms(u, cmd);
    var t := u.sar % NDESC;
    SteppedForms(u.(desc := u.desc[t := SetDescByte(u.desc[t], Field(u.dsc, cmd), data)]), cmd);
    assert Field(u.dsc, cmd + 4) == Field(u.dsc, cmd) by { SameField(u.dsc, cmd); }
  }

  lemma SameField(dsc: nat, cmd: byte)
    requires 0x08 <= cmd <= 0x0B
    ensures Field(dsc, cmd + 4) == Field(dsc, cmd)
  {
  }

  lemma SteppedForms(u: Unit, cmd: byte)
    requires u.sar < NDESC && u.dsc < 4 && 0x08 <= cmd <= 0x0B
    ensures Stepped(u, cmd).sar == u.sar && Stepped(u, cmd).desc == u.desc
    ensures Stepped(u, cmd + 4)
         == Stepped(u, cmd).(sar := if FieldDone(u.dsc, cmd) then (u.sar + 1) % NDESC else u.sar)
  {
  }

  /** Four reads of a whole descriptor through command 0B. */
  function FourReads(): seq<Op> { [Read(0x0B), Read(0x0B), Read(0x0B), Read(0x0B)] }

  /** What is programmed reads back, byte by byte, and reading changes no descriptor. */
  lemma ProgramReadsBack(u: Unit, s: byte, b: seq<byte>)
    requires |u.desc| == NDESC && |b| == 4
    ensures var w := Run(u, Program(s, b)).0;
            var r := Run(w, [Write(0x01, s)] + FourReads());
      r.1 == [Nothing, Value(b[0]), Value(b[1]), Value(b[2]), Value(b[3])] && r.0.desc == w.desc
  {
    hide Run, Do, DescByte, Program, FourReads;
    ProgramSets(u, s, b);
    var w := Run(u, Program(s, b)).0;
    var w0 := w.(sar := s % NDESC, dsc := 0);
    var ops := [Write(0x01, s)] + FourReads();
    Select(w, s);
    Silent(w, Write(0x01, s));
    Answered(w, ops, w0, Nothing);
    assert ops[1..] == FourReads();
    ReadsDescriptor(w0);
  }

  lemma Silent(u: Unit, op: Op)
    requires |u.desc| == NDESC && op.Write?
    ensures Do(u, op).1 == Nothing
  {
    hide CmdWrite;
  }

  lemma ReadsDescriptor(u: Unit)
    requires |u.desc| == NDESC && u.sar < NDESC && u.dsc == 0
    ensures var d := u.desc[u.sar];
      && Run(u, FourReads()).0 == u
      && Run(u, FourReads()).1 ==
           [Value(DescByte(d, 0)), Value(DescByte(d, 1)), Value(DescByte(d, 2)), Value(DescByte(d, 3))]
  {
    hide Run, DescByte, Do;
    var ops := FourReads();
    ReadsField(u, ops);
    ReadsField(u.(dsc := 1), ops[1..]);
    ReadsField(u.(dsc := 2), ops[2..]);
    ReadsField(u.(dsc := 3), ops[3..]);
    Finished(u, ops[4..]);
  }

  lemma ReadsField(u: Unit, ops: seq<Op>)
    requires |u.desc| == NDESC && u.sar < NDESC && u.dsc < 4 && ops != [] && ops[0] == Read(0x0B)
    ensures var w := u.(dsc := (u.dsc + 1) % 4);
      && Run(u, ops).0 == Run(w, ops[1..]).0
      && Run(u, ops).1 == [Value(DescByte(u.desc[u.sar], u.dsc))] + Run(w, ops[1..]).1
  {
    hide Run, DescByte;
    Answered(u, ops, u.(dsc := (u.dsc + 1) % 4), Value(DescByte(u.desc[u.sar], u.dsc)));
  }

  lemma Answered(u: Unit, ops: seq<Op>, w: Unit, answer: Answer)
    requires |u.desc| == NDESC && |w.desc| == NDESC && ops != [] && Do(u, ops[0]) == (w, answer)
    ensures Run(u, ops).0 == Run(w, ops[1..]).0 && Run(u, ops).1 == [answer] + Run(w, ops[1..]).1
  {
    hide Do;
  }

  lemma Finished(u: Unit, ops: seq<Op>)
    requires |u.desc| == NDESC && ops == []
    ensures Run(u, ops) == (u, [])
  {
  }

  /** The three pointer and mode registers read back what was stored, cut to their widths. */
  lemma RegistersReadBack(u: Unit, v: byte)
    requires |u.desc| == NDESC
    ensures CmdRead(CmdWrite(u, 0x00, v), 0x00).v == v
    ensures CmdRead(CmdWrite(u, 0x01, v), 0x01).v == v % 64
    ensures CmdRead(CmdWrite(u, 0x20, v), 0x20).v == v % 4
  {
  }

  /** From reset the unit passes every access through; its mode reads 0x80 and every other register,
      and every descriptor byte, 0; nothing is requested. */
  lemma ResetPassesThrough(a: Access, cmd: byte)
    ensures Translate(ResetUnit(), a) == Translated(ResetUnit(), a.sn % 128 * 0x1_0000 + a.off, false)
    ensures CmdRead(ResetUnit(), cmd).v == if cmd == 0x00 then 0x80 else 0
    ensures forall d :: d in ResetUnit().desc ==> d == Desc(0, 0, NO_ATTR)
    ensures !ResetUnit().captured && !ResetUnit().segt && !ResetUnit().warn
  {
  }

  /** Commands that are none of those listed read 0 and do nothing. */
  lemma OtherCommands(u: Unit, cmd: byte, v: byte)
    requires |u.desc| == NDESC
    ensures cmd > 0x05 && !(0x08 <= cmd < 0x10) && cmd != 0x20 ==> CmdRead(u, cmd) == ReadBack(u, 0)
    ensures cmd > 0x01 && !(0x08 <= cmd < 0x10) && cmd !in {0x11, 0x13, 0x14, 0x15, 0x16, 0x20} ==>
              CmdWrite(u, cmd, v) == u
  {
  }

  /** After command 15 every access the unit acts on faults; command 16 changes no answer. */
  lemma InhibitCommands(u: Unit, v: byte, a: Access)
    requires |u.desc| == NDESC && Selected(u, a)
    ensures Translate(CmdWrite(u, 0x15, v), a).fault
    ensures var x, y := Translate(CmdWrite(u, 0x16, v), a), Translate(u, a);
      x.fault == y.fault && x.addr == y.addr
  {
    hide Translate;
    TranslatesTo(CmdWrite(u, 0x15, v), a);
    var w := CmdWrite(u, 0x16, v);
    var d := u.desc[a.sn % NDESC];
    assert w.desc[a.sn % NDESC] == d.(attr := d.attr.(dmai := true));
    TranslatesTo(w, a);
    TranslatesTo(u, a);
    if !Translate(u, a).fault {
      Residue(256 * d.base + a.off, Translate(u, a).addr);
      Residue(256 * d.base + a.off, Translate(w, a).addr);
    }
  }

  // ----- the status registers ----------------------------------------------------------------

  /** The violation type register after one violation: CPU inhibit before segment length before
      read-only before system-only before execute-only. */
  function Reason(d: Desc, a: Access): nat {
    if d.attr.cpu then 0x08
    else if !InSegment(d, a.off) then 0x04
    else if d.attr.rd && a.write then 0x01
    else if d.attr.sys && a.normal then 0x02
    else 0x10
  }

  /** The violation type register, bit by bit. */
  lemma KindBits(u: Unit)
    requires |u.desc| == NDESC
    ensures var v, k := CmdRead(u, 0x02).v, u.kinds;
      && v < 0x100
      && (k.fatl <==> v / 0x80 % 2 == 1) && (k.sww <==> v / 0x40 % 2 == 1) && (k.pww <==> v / 0x20 % 2 == 1)
      && (k.excv <==> v / 0x10 % 2 == 1) && (k.cpuiv <==> v / 0x08 % 2 == 1) && (k.slv <==> v / 0x04 % 2 == 1)
      && (k.sysv <==> v / 0x02 % 2 == 1) && (k.rdv <==> v / 0x01 % 2 == 1)
  {
    hide AttrOf, KindsByte, BitOf, When, DescByte, BusByte;
    var k := u.kinds;
    KindsSum(k);
    var v := KindsByte(k);
    var a := AttrOf(v);
    AttrCodec(v);
    SameBits(a.ref, a.chg, a.dirw, a.dmai, a.exc, a.cpu, a.sys, a.rd,
             k.fatl, k.sww, k.pww, k.excv, k.cpuiv, k.slv, k.sysv, k.rdv);
    BitsOf(v);
  }

  lemma KindsSum(k: Kinds)
    ensures KindsByte(k) < 0x100
    ensures KindsByte(k) == When(k.fatl, 0x80) + When(k.sww, 0x40) + When(k.pww, 0x20) + When(k.excv, 0x10)
                          + When(k.cpuiv, 0x08) + When(k.slv, 0x04) + When(k.sysv, 0x02) + When(k.rdv, 0x01)
  {
  }

  lemma BitsOf(v: nat)
    ensures AttrOf(v) == Attr(v / 0x80 % 2 == 1, v / 0x40 % 2 == 1, v / 0x20 % 2 == 1, v / 0x10 % 2 == 1,
                              v / 0x08 % 2 == 1, v / 0x04 % 2 == 1, v / 0x02 % 2 == 1, v / 0x01 % 2 == 1)
  {
  }

  /** A byte's eight bits are determined by it. */
  lemma SameBits(a7: bool, a6: bool, a5: bool, a4: bool, a3: bool, a2: bool, a1: bool, a0: bool,
                 b7: bool, b6: bool, b5: bool, b4: bool, b3: bool, b2: bool, b1: bool, b0: bool)
    requires When(a7, 0x80) + When(a6, 0x40) + When(a5, 0x20) + When(a4, 0x10)
             + When(a3, 0x08) + When(a2, 0x04) + When(a1, 0x02) + When(a0, 0x01)
          == When(b7, 0x80) + When(b6, 0x40) + When(b5, 0x20) + When(b4, 0x10)
             + When(b3, 0x08) + When(b2, 0x04) + When(b1, 0x02) + When(b0, 0x01)
    ensures a7 == b7 && a6 == b6 && a5 == b5 && a4 == b4 && a3 == b3 && a2 == b2 && a1 == b1 && a0 == b0
  {
    assert a7 == b7;
    assert a6 == b6;
    assert a5 == b5;
    assert a4 == b4;
  }

  /** The bus status register: the status code of a fetch, a write or a read, then the write and
      normal-mode flags. */
  function Cycle(a: Access): nat {
    (if a.fetch then 13 else if a.write then 10 else 9) + (if a.write then 16 else 0) + (if a.normal then 32 else 0)
  }

  /** The four status registers, read one after the other. */
  const ReadStatus := [Read(0x02), Read(0x03), Read(0x04), Read(0x05)]

  /** After the latch is reset by command 11, the next violation or write warning is what the
      status registers show: its kind, segment, page and bus cycle. */
  lemma StatusAfterEvent(u: Unit, v: byte, a: Access)
    requires |u.desc| == NDESC && (Violates(u, a) || Warns(u, a))
    ensures var w := Do(Do(u, Write(0x11, v)).0, Translation(a)).0;
      && |w.desc| == NDESC && w.segt
      && Run(w, ReadStatus).1 ==
           [Value(if Warns(u, a) then 0x20 else Reason(u.desc[a.sn % NDESC], a)),
            Value(a.sn), Value(a.off / 256), Value(Cycle(a))]
  {
    hide Run, Permitted, Translate, Reason, Ladder, InSegment, KindsByte, With;
    var u0 := u.(kinds := NO_KINDS, captured := false, segt := false);
    var w := Translate(u0, a).u;
    TranslateKeepsTable(u0, a);
    LatchExact(u0, a);
    Kind(u.desc[a.sn % NDESC], a);
    ReadsStatus(w);
  }

  lemma Kind(d: Desc, a: Access)
    ensures !Permitted(d, a) ==> KindsByte(With(NO_KINDS, Ladder(d, a).1)) == Reason(d, a)
    ensures KindsByte(With(NO_KINDS, Pww)) == 0x20
  {
  }

  lemma ReadsStatus(u: Unit)
    requires |u.desc| == NDESC
    ensures Run(u, ReadStatus).1 ==
            [Value(KindsByte(u.kinds)), Value(u.sn), Value(u.off / 256 % 256), Value(BusByte(u.bus))]
  {
    hide Run, KindsByte, BusByte;
    var ops := ReadStatus;
    Answered(u, ops, u, Value(KindsByte(u.kinds)));
    Answered(u, ops[1..], u, Value(u.sn));
    Answered(u, ops[2..], u, Value(u.off / 256 % 256));
    Answered(u, ops[3..], u, Value(BusByte(u.bus)));
    Finished(u, ops[4..]);
  }
}
