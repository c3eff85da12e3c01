/** The processor's state: registers, program status, the stashed stack pointer, memory and
    pending requests; and the steps every other operation is made of. Memory is plain
    RAM and a logical address is its own physical address. */
module Cpu {
  import opened Basics

  /** A segment number and an offset within it. */
  datatype Addr = Addr(seg: nat, off: u16)

  /** Sources of a trap or interrupt, highest priority first. */
  datatype Source = Epu | Trap | SysCall | SegTrap | Nmi | Nvi | Vi

  datatype Lines = Lines(nmi: bool, segt: bool, nvi: bool, vi: bool)

  datatype State = State(r: seq<u16>, pc: Addr, fcw: u16, nspseg: u16, nspoff: u16, psap: Addr, mem: seq<byte>,
                         irq: set<Source>, lines: Lines, viVector: u16, curOp: u16, halted: bool)

  const FCW_SEG := 0x8000
  const FCW_SN := 0x4000
  const FCW_VIE := 0x1000
  const FCW_NVIE := 0x0800

  predicate Good(c: State) {
    |c.r| == 16 && |c.mem| == RAM && c.pc.seg < 0x80 && c.psap.seg < 0x80
  }

  function Has(f: u16, bit: nat): bool
    requires bit > 0
  {
    f / bit % 2 == 1
  }

  function Seg(f: u16): bool { Has(f, FCW_SEG) }
  function System(f: u16): bool { Has(f, FCW_SN) }

  // ----- addresses and memory -----------------------------------------------------------------

  /** Adding within a segment: only the offset wraps. */
  function AddrAdd(a: Addr, n: nat): Addr { Addr(a.seg, (a.off + n) % 0x1_0000) }
  function AddrSub(a: Addr, n: nat): Addr { Addr(a.seg, (a.off - n) % 0x1_0000) }

  function Linear(a: Addr): nat { a.seg * 0x1_0000 + a.off }

  /** A stored word: high byte first, the low byte at the next linear address. */
  function R16(mem: seq<byte>, a: Addr): u16
    requires |mem| == RAM && a.seg < 0x80
  {
    var hi: nat := mem[Linear(a)];
    hi * 0x100 + mem[Linear(a) + 1]
  }

  function W16(mem: seq<byte>, a: Addr, v: u16): (w: seq<byte>)
    requires |mem| == RAM && a.seg < 0x80
    ensures |w| == RAM
  {
    mem[Linear(a) := v / 0x100][Linear(a) + 1 := v % 0x100]
  }

  lemma WordReadBack(mem: seq<byte>, a: Addr, v: u16)
    requires |mem| == RAM && a.seg < 0x80
    ensures R16(W16(mem, a, v), a) == v
  {
  }

  /** Two words whose first bytes are at least two apart do not overlap. */
  predicate Apart(a: Addr, b: Addr) {
    Linear(a) + 2 <= Linear(b) || Linear(b) + 2 <= Linear(a)
  }

  lemma WordReadOther(mem: seq<byte>, a: Addr, v: u16, b: Addr)
    requires |mem| == RAM && a.seg < 0x80 && b.seg < 0x80 && Apart(a, b)
    ensures R16(W16(mem, a, v), b) == R16(mem, b)
  {
  }

  /** A segmented pointer in a register pair: bits 14:8 of the even one, and the odd one. */
  function FromPair(hi: u16, lo: u16): (a: Addr)
    ensures a.seg < 0x80
  {
    Addr(hi / 0x100 % 0x80, lo)
  }

  /** The pair word that holds a segment number. */
  function SegWord(seg: nat): u16
    requires seg < 0x80
  {
    seg * 0x100
  }

  /** Bits outside 14:8 of a segment word are not kept by a push. */
  function Canonical(w: u16): u16 { w / 0x100 % 0x80 * 0x100 }

  // ----- the flag and control word -------------------------------------------------------------

  function SwapR15(c: State): State
    requires Good(c)
  {
    c.(r := c.r[15 := c.nspoff], nspoff := c.r[15])
  }

  function SwapR14(c: State): State
    requires Good(c)
  {
    c.(r := c.r[14 := c.nspseg], nspseg := c.r[14])
  }

  /** Installs a new FCW, exchanging the live stack pointer with the stashed one. */
  function ChangeFcw(c: State, nf: u16): State
    requires Good(c)
  {
    var f := c.fcw;
    var c1 := if System(nf) != System(f) then SwapR15(c) else c;
    var c2 := if System(nf) && (!System(f) || Seg(nf) != Seg(f)) then SwapR14(c1)
              else if !System(nf) && System(f) && Seg(f) then SwapR14(c1)
              else c1;
    c2.(fcw := nf)
  }

  /** One mode is normal and the other system-nonsegmented. */
  predicate Lopsided(f: u16, g: u16) {
    || (!System(f) && System(g) && !Seg(g))
    || (!System(g) && System(f) && !Seg(f))
  }

  /** Changing the FCW and changing it back restores the processor exactly unless the two
      modes are normal and system-nonsegmented: then R14 and the stashed segment end up
      exchanged, which shows exactly when they differ. */
  lemma ChangeBack(c: State, nf: u16)
    requires Good(c)
    ensures ChangeFcw(ChangeFcw(c, nf), c.fcw) == c <==> !Lopsided(c.fcw, nf) || c.r[14] == c.nspseg
    ensures Lopsided(c.fcw, nf) ==> ChangeFcw(ChangeFcw(c, nf), c.fcw) == SwapR14(c)
  {
    var c1 := ChangeFcw(c, nf);
    var c2 := ChangeFcw(c1, c.fcw);
    SwapTwice(c);
    if Lopsided(c.fcw, nf) && c.r[14] != c.nspseg { assert c2.r[14] != c.r[14]; }
  }

  lemma SwapTwice(c: State)
    requires Good(c)
    ensures SwapR14(SwapR14(c)) == c && SwapR15(SwapR15(c)) == c
    ensures SwapR14(SwapR15(c)) == SwapR15(SwapR14(c))
  {
  }

  // ----- the two stacks across mode changes -----------------------------------------------------

  /** Normal, and system-segmented mode, by bits 14 and 15 of the FCW. */
  predicate InNormal(f: u16) { f / 0x4000 % 2 == 0 }
  predicate InSegmented(f: u16) { f / 0x4000 % 2 == 1 && f / 0x8000 % 2 == 1 }

  /** From normal mode straight to system-nonsegmented mode. */
  predicate Crosses(f: u16, nf: u16) { InNormal(f) && !InNormal(nf) && !InSegmented(nf) }

  /** The offsets of the two stack pointers: live in their own mode, else stashed. */
  function NormalOffset(c: State): u16
    requires Good(c)
  {
    if InNormal(c.fcw) then c.r[15] else c.nspoff
  }

  function SystemOffset(c: State): u16
    requires Good(c)
  {
    if InNormal(c.fcw) then c.nspoff else c.r[15]
  }

  /** Their segment words: R14 is the system one in system-segmented mode only. */
  function NormalSegment(c: State): u16
    requires Good(c)
  {
    if InSegmented(c.fcw) then c.nspseg else c.r[14]
  }

  function SystemSegment(c: State): u16
    requires Good(c)
  {
    if InSegmented(c.fcw) then c.r[14] else c.nspseg
  }

  /** The two stack pointers and the general registers of one state are those of another, except
      that the two segment words are exchanged if `crossed`. */
  predicate SameBanks(c: State, d: State, crossed: bool)
    requires Good(c) && Good(d)
  {
    && d.r[..14] == c.r[..14]
    && NormalOffset(d) == NormalOffset(c) && SystemOffset(d) == SystemOffset(c)
    && NormalSegment(d) == (if crossed then SystemSegment(c) else NormalSegment(c))
    && SystemSegment(d) == (if crossed then NormalSegment(c) else SystemSegment(c))
  }

  /** Each mode finds its own stack: a mode change keeps both stack pointers and R0 to R13, except
      that going from normal straight to system-nonsegmented mode exchanges the segment words. */
  lemma BanksKept(c: State, nf: u16)
    requires Good(c)
    ensures var d := ChangeFcw(c, nf);
      && Good(d) && SameBanks(c, d, Crosses(c.fcw, nf))
      && d == c.(r := d.r, nspseg := d.nspseg, nspoff := d.nspoff, fcw := nf)
  {
  }

  /** Several mode changes, one after the other. */
  function ChangeAll(c: State, fs: seq<u16>): (d: State)
    requires Good(c)
    ensures Good(d)
    decreases |fs|
  {
    if fs == [] then c else
    BanksKept(c, fs[0]);
    ChangeAll(ChangeFcw(c, fs[0]), fs[1..])
  }

  /** How many of them go from normal straight to system-nonsegmented mode. */
  function Crossings(f: u16, fs: seq<u16>): nat
    decreases |fs|
  {
    if fs == [] then 0 else (if Crosses(f, fs[0]) then 1 else 0) + Crossings(fs[0], fs[1..])
  }

  /** Over any sequence of mode changes both stack pointers and R0 to R13 survive, with the segment
      words exchanged exactly when the number of such crossings is odd. */
  lemma {:induction false} BanksOverRuns(c: State, fs: seq<u16>)
    requires Good(c)
    ensures SameBanks(c, ChangeAll(c, fs), Crossings(c.fcw, fs) % 2 == 1)
    decreases |fs|
  {
    hide Crosses, NormalOffset, SystemOffset, NormalSegment, SystemSegment, ChangeFcw, Good;
    if fs != [] {
      BanksKept(c, fs[0]);
      BanksOverRuns(ChangeFcw(c, fs[0]), fs[1..]);
    }
  }
}
