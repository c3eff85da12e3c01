/** What the repeating block instructions do to the bytes of memory and to the registers: which
    way they go, where each element is, what a run copies or finds, and where it ends. */
module BlockRuns {
  import opened Basics
  import opened Cpu
  import opened BlockOps

  // ----- where the elements are ---------------------------------------------------------------

  function Width(word: bool): nat { if word then 2 else 1 }

  /** The register whose value moves: the odd one of the pair when segmented. */
  function Moving(c: State, r: nat): (o: nat)
    requires r < 16
    ensures o < 16
  {
    if c.fcw / 0x8000 % 2 == 1 then r - r % 2 + 1 else r
  }

  /** Where pointer register `r` points: segment bits 14:8 and offset of the pair, or the offset
      within the PC's segment. */
  function Start(c: State, r: nat): (a: Addr)
    requires Good(c) && r < 16
    ensures a.seg < 0x80
  {
    if c.fcw / 0x8000 % 2 == 1 then Addr(c.r[r - r % 2] / 0x100 % 0x80, c.r[r - r % 2 + 1])
    else Addr(c.pc.seg, c.r[r])
  }

  /** The offset `i` elements on: up by the element's width each, or down. */
  function Along(off: u16, op: Op, i: nat): u16 {
    (if op.down then off - i * Width(op.word) else off + i * Width(op.word)) % 0x1_0000
  }

  /** Where element `i` of a run is. */
  function ElementAt(a: Addr, op: Op, i: nat): Addr { Addr(a.seg, Along(a.off, op, i)) }

  /** The byte address of a logical address. */
  function Byte(a: Addr): nat { a.seg * 0x1_0000 + a.off }

  /** An operand in memory: a byte, or a word high byte first. */
  function Operand(mem: seq<byte>, a: Addr, word: bool): nat
    requires |mem| == RAM && a.seg < 0x80
  {
    if word then 256 * (mem[Byte(a)] as int) + mem[Byte(a) + 1] else mem[Byte(a)]
  }

  lemma SamePlace(c: State, r: nat)
    requires Good(c) && r < 16
    ensures Pointer(c, r) == Start(c, r) && OffsetReg(c, r) == Moving(c, r) && Start(c, r).off == c.r[Moving(c, r)]
  {
  }

  lemma SameElement(a: Addr, op: Op, i: nat)
    ensures Moved(a, Delta(op), i) == ElementAt(a, op, i)
  {
    if op.word {
      if op.down { assert i * -2 == -(i * 2); }
    } else if op.down {
      assert i * -1 == -(i * 1);
    }
  }

  lemma SameOperand(mem: seq<byte>, a: Addr, word: bool)
    requires |mem| == RAM && a.seg < 0x80
    ensures Read(mem, a, word) == Operand(mem, a, word)
  {
  }

  /** After `n` elements every pointer the instruction moves is `n` widths further, up or down
      modulo 2^16, the count is down by `n`, and every other register is as it was. */
  lemma EndsAt(c: State, op: Op, n: nat)
    requires Good(c) && Fields(op) && Distinct(c, op) && DidAll(c, op, n)
    ensures var d := After(c, op, n).c;
            var s, t := Moving(c, op.src), Moving(c, op.dst);
      && d.r[s] == Along(c.r[s], op, n)
      && (op.kind != CompareRegister ==> d.r[t] == Along(c.r[t], op, n))
      && d.r[op.cnt] == (c.r[op.cnt] - n) % 0x1_0000
      && (forall i :: 0 <= i < 16 && i != s && i != op.cnt && (i != t || op.kind == CompareRegister) ==>
            d.r[i] == c.r[i])
      && Start(d, op.src) == ElementAt(Start(c, op.src), op, n)
      && (op.kind != CompareRegister ==> Start(d, op.dst) == ElementAt(Start(c, op.dst), op, n))
      && d.pc == c.pc && d.fcw / 0x100 == c.fcw / 0x100
  {
    hide After, DidAll, Distinct, Pointer, OffsetReg, Delta, Moved, Along, Start, Moving, Register, Good;
    GoodRegisters(c);
    Positions(c, op, n);
    var d := After(c, op, n).c;
    GoodRegisters(d);
    SamePlace(c, op.src); SamePlace(c, op.dst);
    SamePlace(d, op.src); SamePlace(d, op.dst);
    SameElement(Start(c, op.src), op, n);
    SameElement(Start(c, op.dst), op, n);
    MovingKept(c, d, op.src);
    MovingKept(c, d, op.dst);
  }

  lemma MovingKept(c: State, d: State, r: nat)
    requires r < 16 && c.fcw / 0x100 == d.fcw / 0x100
    ensures Moving(c, r) == Moving(d, r)
  {
    SameModes(c.fcw, d.fcw);
    HighHalf(c.fcw); HighHalf(d.fcw);
  }

  lemma HighHalf(f: u16)
    ensures f / 0x8000 % 2 == f / 0x100 / 0x80 % 2
  {
  }

  /** The count a repeating instruction starts with: 0 stands for 65536. */
  function Count(c: State, op: Op): nat
    requires Good(c) && Fields(op)
  {
    if c.r[op.cnt] == 0 then 0x1_0000 else c.r[op.cnt]
  }

  // ----- what a transfer copies ------------------------------------------------------------------

  /** Memory with one element copied, byte for byte. */
  ghost predicate ElementCopied(m: seq<byte>, m': seq<byte>, from: nat, to: nat, w: nat) {
    && |m| == |m'| == RAM && from + w <= RAM && to + w <= RAM
    && (forall x :: to <= x < to + w ==> m'[x] == m[from + (x - to)])
    && forall x :: 0 <= x < RAM && !(to <= x < to + w) ==> m'[x] == m[x]
  }

  lemma CopiesElement(m: seq<byte>, from: Addr, to: Addr, word: bool)
    requires |m| == RAM && from.seg < 0x80 && to.seg < 0x80
    ensures ElementCopied(m, Write(m, to, word, Read(m, from, word)), Byte(from), Byte(to), Width(word))
  {
    hide Read, Write, Byte;
    SameOperand(m, from, word);
    InMemory(from);
    InMemory(to);
    WritesBytes(m, to, word, Read(m, from, word));
    if word { Quotient(256 * (m[Byte(from)] as int) + m[Byte(from) + 1], m[Byte(from)], 0x100, m[Byte(from) + 1]); }
  }

  lemma InMemory(a: Addr)
    requires a.seg < 0x80
    ensures Byte(a) + 2 <= RAM
  {
  }

  lemma WritesBytes(m: seq<byte>, to: Addr, word: bool, v: u16)
    requires |m| == RAM && to.seg < 0x80
    ensures Byte(to) + 1 < RAM
    ensures Write(m, to, word, v)
         == if word then m[Byte(to) := v / 0x100][Byte(to) + 1 := v % 0x100] else m[Byte(to) := v % 0x100]
  {
  }

  /** Element `i` of a transfer is copied from where `i` elements from the source are to where `i`
      elements from the destination are, wrapping within their segments. */
  lemma TransferElementAt(c: State, op: Op, i: nat)
    requires Good(c) && Fields(op) && op.kind == Transfer && Distinct(c, op) && DidAll(c, op, i + 1)
    ensures ElementCopied(After(c, op, i).c.mem, After(c, op, i + 1).c.mem,
                          Byte(ElementAt(Start(c, op.src), op, i)), Byte(ElementAt(Start(c, op.dst), op, i)),
                          Width(op.word))
  {
    hide After, DidAll, Distinct, Pointer, Delta, Moved, Start, ElementAt, Read, Write, ElementCopied, Copied, Byte;
    TransferCopies(c, op, i + 1);
    DidEarlier(c, op, i + 1);
    TransferCopies(c, op, i);
    CopiedStep(c.mem, Start(c, op.src), Start(c, op.dst), Delta(op), op.word, i);
    SamePlace(c, op.src); SamePlace(c, op.dst);
    SameElement(Start(c, op.src), op, i);
    SameElement(Start(c, op.dst), op, i);
  }

  lemma CopiedStep(mem: seq<byte>, s: Addr, d: Addr, delta: int, word: bool, i: nat)
    requires |mem| == RAM && s.seg < 0x80 && d.seg < 0x80
    ensures ElementCopied(Copied(mem, s, d, delta, word, i), Copied(mem, s, d, delta, word, i + 1),
                          Byte(Moved(s, delta, i)), Byte(Moved(d, delta, i)), Width(word))
  {
    hide Read, Write, ElementCopied, Moved;
    MovedSeg(s, delta); MovedSeg(d, delta);
    CopiesElement(Copied(mem, s, d, delta, word, i), Moved(s, delta, i), Moved(d, delta, i), word);
  }

  /** The byte that an upward copy from `from` to `to` puts at `x`. */
  function SourceOf(from: nat, to: nat, x: nat): (y: nat)
    requires to <= x
    ensures from <= y <= from + (x - to)
  {
    SourceBelow(from, to, x - to);
    from + Source(from, to, x - to)
  }

  /** The part of the source that byte `j` of an upward copy from `from` to `to` shows: itself,
      unless the destination lies above, and then the bytes between the two, over and over. */
  function Source(from: nat, to: nat, j: nat): nat {
    if to <= from then j else j % (to - from)
  }

  /** Bytes `to` to `to + size` hold what was at `from`, and no other byte changed. */
  ghost predicate CopiedUp(m: seq<byte>, m': seq<byte>, from: nat, to: nat, size: nat) {
    && |m| == |m'| == RAM && from + size <= RAM && to + size <= RAM
    && (forall x :: to <= x < to + size ==> m'[x] == m[SourceOf(from, to, x)])
    && forall x :: 0 <= x < RAM && !(to <= x < to + size) ==> m'[x] == m[x]
  }

  lemma SourceBelow(from: nat, to: nat, j: nat)
    ensures Source(from, to, j) <= j
    ensures to > from ==> Source(from, to, j) < to - from && (j < to - from ==> Source(from, to, j) == j)
    ensures to > from && j >= to - from ==> Source(from, to, j) == Source(from, to, from + j - to)
  {
    if to > from {
      var p := to - from;
      if j < p { Quotient(j, 0, p, j); } else { Quotient(j, (j - p) / p + 1, p, (j - p) % p); }
    }
  }

  lemma CopyUpGrows(m: seq<byte>, m1: seq<byte>, m2: seq<byte>, from: nat, to: nat, size: nat, w: nat)
    requires CopiedUp(m, m1, from, to, size) && ElementCopied(m1, m2, from + size, to + size, w) && w > 0
    requires to <= from || w <= to - from
    ensures CopiedUp(m, m2, from, to, size + w)
  {
    hide Source;
    forall x | to <= x < to + size + w ensures m2[x] == m[SourceOf(from, to, x)] {
      if x >= to + size {
        var y := from + (x - to);
        assert m2[x] == m1[y];
        if to <= from {
          SourceUp(from, to, x - to);
        } else {
          SourceBelow(from, to, x - to);
          if y >= to { assert m1[y] == m[SourceOf(from, to, y)]; }
        }
      }
    }
  }

  lemma SourceUp(from: nat, to: nat, j: nat)
    requires to <= from
    ensures Source(from, to, j) == j
  {
  }

  /** A run that goes up without leaving its segments. */
  lemma {:induction false} RunsUp(c: State, op: Op, n: nat)
    requires Good(c) && Fields(op) && op.kind == Transfer && op.rept && Distinct(c, op) && !op.down && n <= Count(c, op)
    requires var w, s, d := Width(op.word), Start(c, op.src), Start(c, op.dst);
      && s.off + n * w <= 0x1_0000 && d.off + n * w <= 0x1_0000
      && (Byte(d) <= Byte(s) || w <= Byte(d) - Byte(s))
    ensures CopiedUp(c.mem, After(c, op, n).c.mem, Byte(Start(c, op.src)), Byte(Start(c, op.dst)), n * Width(op.word))
  {
    hide Distinct, Start, ElementAt, ElementCopied, CopiedUp, DidAll, Width, After, Good, Byte;
    var w, s, d := Width(op.word), Start(c, op.src), Start(c, op.dst);
    if n == 0 {
      AfterNone(c, op);
      RamSize(c);
      NothingUp(c.mem, s, d);
    } else {
      Times(n, n, w);
      WidthPositive(op.word);
      TransferGoesOn(c, op, n);
      RunsUp(c, op, n - 1);
      TransferElementAt(c, op, n - 1);
      UpAt(s, op, n - 1); UpAt(d, op, n - 1);
      CopyUpGrows(c.mem, After(c, op, n - 1).c.mem, After(c, op, n).c.mem, Byte(s), Byte(d), (n - 1) * w, w);
    }
  }

  lemma WidthPositive(word: bool)
    ensures 0 < Width(word) <= 2
  {
  }

  lemma NothingUp(m: seq<byte>, s: Addr, d: Addr)
    requires |m| == RAM && s.seg < 0x80 && d.seg < 0x80
    ensures CopiedUp(m, m, Byte(s), Byte(d), 0)
  {
  }

  lemma UpAt(a: Addr, op: Op, i: nat)
    requires !op.down && a.off + i * Width(op.word) < 0x1_0000
    ensures Byte(ElementAt(a, op, i)) == Byte(a) + i * Width(op.word)
  {
  }

  /** The byte that a downward copy, from below `from` to below `to`, puts at `x`: mirrored, the same. */
  function SourceUnder(from: nat, to: nat, x: nat): (y: nat)
    requires x < to && to - x <= from
    ensures from - (to - x) <= y < from
  {
    SourceBelow(to, from, to - 1 - x);
    from - 1 - Source(to, from, to - 1 - x)
  }

  /** The `size` bytes below `to` hold what was below `from`, and no other byte changed. */
  ghost predicate CopiedDown(m: seq<byte>, m': seq<byte>, from: nat, to: nat, size: nat) {
    && |m| == |m'| == RAM && size <= from <= RAM && size <= to <= RAM
    && (forall x :: to - size <= x < to ==> m'[x] == m[SourceUnder(from, to, x)])
    && forall x :: 0 <= x < RAM && !(to - size <= x < to) ==> m'[x] == m[x]
  }

  lemma CopyDownGrows(m: seq<byte>, m1: seq<byte>, m2: seq<byte>, from: nat, to: nat, size: nat, w: nat)
    requires CopiedDown(m, m1, from, to, size) && w > 0 && size + w <= from && size + w <= to
    requires ElementCopied(m1, m2, from - size - w, to - size - w, w)
    requires from <= to || w <= from - to
    ensures CopiedDown(m, m2, from, to, size + w)
  {
    hide Source;
    forall x | to - size - w <= x < to ensures m2[x] == m[SourceUnder(from, to, x)] {
      if x < to - size {
        var y := from - (to - x);
        assert m2[x] == m1[y];
        if from <= to {
          SourceUp(to, from, to - 1 - x);
        } else {
          SourceBelow(to, from, to - 1 - x);
          if y < to { assert m1[y] == m[SourceUnder(from, to, y)]; }
        }
      }
    }
  }

  /** A run that goes down without leaving its segments. */
  lemma {:induction false} RunsDown(c: State, op: Op, n: nat)
    requires Good(c) && Fields(op) && op.kind == Transfer && op.rept && Distinct(c, op) && op.down && n <= Count(c, op)
    requires var w, s, d := Width(op.word), Start(c, op.src), Start(c, op.dst);
      && n * w <= s.off + w <= 0x1_0000 && n * w <= d.off + w <= 0x1_0000
      && (Byte(s) <= Byte(d) || w <= Byte(s) - Byte(d))
    ensures var w := Width(op.word);
      CopiedDown(c.mem, After(c, op, n).c.mem, Byte(Start(c, op.src)) + w, Byte(Start(c, op.dst)) + w, n * w)
  {
    hide Distinct, Start, ElementAt, ElementCopied, CopiedDown, DidAll, Width, After, Good, Byte;
    var w, s, d := Width(op.word), Start(c, op.src), Start(c, op.dst);
    WidthPositive(op.word);
    ByteAbove(s); ByteAbove(d);
    if n == 0 {
      AfterNone(c, op);
      RamSize(c);
      NothingDown(c.mem, s, d, w);
    } else {
      Times(n, n, w);
      TransferGoesOn(c, op, n);
      RunsDown(c, op, n - 1);
      TransferElementAt(c, op, n - 1);
      DownAt(s, op, n - 1); DownAt(d, op, n - 1);
      CopyDownGrows(c.mem, After(c, op, n - 1).c.mem, After(c, op, n).c.mem, Byte(s) + w, Byte(d) + w, (n - 1) * w, w);
    }
  }

  lemma ByteAbove(a: Addr)
    ensures Byte(a) >= a.off
  {
  }

  lemma NothingDown(m: seq<byte>, s: Addr, d: Addr, w: nat)
    requires |m| == RAM && s.seg < 0x80 && d.seg < 0x80 && w <= 2
    ensures CopiedDown(m, m, Byte(s) + w, Byte(d) + w, 0)
  {
  }

  lemma DownAt(a: Addr, op: Op, i: nat)
    requires op.down && i * Width(op.word) <= a.off
    ensures Byte(ElementAt(a, op, i)) == Byte(a) - i * Width(op.word)
  {
  }

  /** How a repeating transfer ends: both pointers the whole count further, up or down by the width
      of an element each and modulo 2^16; the count 0; PV, bit 4, set. */
  lemma TransferEndsAt(c: State, op: Op)
    requires Good(c) && Fields(op) && op.kind == Transfer && op.rept && Distinct(c, op)
    ensures var n := Count(c, op);
            var d := After(c, op, n);
            var s, t, w := Moving(c, op.src), Moving(c, op.dst), Width(op.word);
      && !d.again && DidAll(c, op, n)
      && (!op.down ==> d.c.r[s] == (c.r[s] + n * w) % 0x1_0000 && d.c.r[t] == (c.r[t] + n * w) % 0x1_0000)
      && (op.down ==> d.c.r[s] == (c.r[s] - n * w) % 0x1_0000 && d.c.r[t] == (c.r[t] - n * w) % 0x1_0000)
      && (forall i :: 0 <= i < 16 && i != s && i != t && i != op.cnt ==> d.c.r[i] == c.r[i])
      && d.c.r[op.cnt] == 0 && d.c.fcw / 0x10 % 2 == 1 && d.c.pc == c.pc
  {
    hide After, Distinct, DidAll, Moving, Width, FlagsOf, Good;
    GoodRegisters(c);
    TransferEnds(c, op);
    EndsAt(c, op, Count(c, op));
    PvBit(After(c, op, Count(c, op)).c.fcw);
  }

  lemma PvBit(f: u16)
    ensures FlagsOf(f).pv == (f / 0x10 % 2 == 1)
  {
  }

  /** A repeating transfer upwards inside its segments: when the destination starts at or below the
      source, or past its end, it holds the source's bytes as they were; when it starts inside the
      source, the bytes in between repeat. No other byte changes. */
  lemma TransferUp(c: State, op: Op)
    requires Good(c) && Fields(op) && op.kind == Transfer && op.rept && Distinct(c, op) && !op.down
    requires var w, s, d := Width(op.word), Start(c, op.src), Start(c, op.dst);
      && s.off + Count(c, op) * w <= 0x1_0000 && d.off + Count(c, op) * w <= 0x1_0000
      && (Byte(d) <= Byte(s) || w <= Byte(d) - Byte(s))
    ensures var n := Count(c, op);
            var size := n * Width(op.word);
            var from, to := Byte(Start(c, op.src)), Byte(Start(c, op.dst));
            var m := After(c, op, n).c.mem;
      && CopiedUp(c.mem, m, from, to, size)
      && (to <= from || from + size <= to ==> forall x :: to <= x < to + size ==> m[x] == c.mem[from + (x - to)])
  {
    hide After, Distinct, DidAll, Start, Width, Source, Good, Byte;
    TransferEndsAt(c, op);
    RunsUp(c, op, Count(c, op));
    var from, to := Byte(Start(c, op.src)), Byte(Start(c, op.dst));
    var size := Count(c, op) * Width(op.word);
    if to <= from || from + size <= to {
      forall x | to <= x < to + size ensures SourceOf(from, to, x) == from + (x - to) {
        SourceBelow(from, to, x - to);
        if to <= from { SourceUp(from, to, x - to); }
      }
    }
  }

  /** Downwards, from the last element on, it is the mirror image: the run that ends at the
      destination holds what was in the run that ends at the source. */
  lemma TransferDown(c: State, op: Op)
    requires Good(c) && Fields(op) && op.kind == Transfer && op.rept && Distinct(c, op) && op.down
    requires var w, s, d := Width(op.word), Start(c, op.src), Start(c, op.dst);
      && Count(c, op) * w <= s.off + w <= 0x1_0000 && Count(c, op) * w <= d.off + w <= 0x1_0000
      && (Byte(s) <= Byte(d) || w <= Byte(s) - Byte(d))
    ensures var n, w := Count(c, op), Width(op.word);
            var size := n * w;
            var from, to := Byte(Start(c, op.src)) + w, Byte(Start(c, op.dst)) + w;
            var m := After(c, op, n).c.mem;
      && CopiedDown(c.mem, m, from, to, size)
      && (from <= to || to + size <= from ==> forall x :: to - size <= x < to ==> m[x] == c.mem[from - (to - x)])
  {
    hide After, Distinct, DidAll, Start, Width, Source, Good, Byte;
    TransferEndsAt(c, op);
    RunsDown(c, op, Count(c, op));
    var w := Width(op.word);
    var from, to := Byte(Start(c, op.src)) + w, Byte(Start(c, op.dst)) + w;
    var size := Count(c, op) * w;
    if from <= to || to + size <= from {
      forall x | to - size <= x < to ensures SourceUnder(from, to, x) == from - (to - x) {
        SourceBelow(to, from, to - 1 - x);
        if from <= to { SourceUp(to, from, to - 1 - x); }
      }
    }
  }

  // ----- what a compare reads and finds -----------------------------------------------------------------

  /** The compare register: a word register, or the high byte of registers 0 to 7 and then their
      low bytes. */
  function Compare(c: State, op: Op): nat
    requires Good(c) && Fields(op)
  {
    if op.word then c.r[op.dst] else if op.dst < 8 then c.r[op.dst] / 0x100 else c.r[op.dst - 8] % 0x100
  }

  /** The two operands of element `i`: the register or the source string's element, and the element
      of the string searched, or of the second string. */
  function First(c: State, op: Op, i: nat): nat
    requires Good(c) && Fields(op)
  {
    if op.kind == CompareRegister then Compare(c, op)
    else Operand(c.mem, ElementAt(Start(c, op.src), op, i), op.word)
  }

  function Second(c: State, op: Op, i: nat): nat
    requires Good(c) && Fields(op)
  {
    Operand(c.mem, ElementAt(Start(c, if op.kind == CompareRegister then op.src else op.dst), op, i), op.word)
  }

  /** What element `i` of a compare reads, in the state it is done in. */
  lemma ComparesAt(c: State, op: Op, i: nat)
    requires Good(c) && Fields(op) && op.kind != Transfer && Distinct(c, op) && DidAll(c, op, i)
    ensures var b := After(c, op, i).c;
      && Left(b, op) == LeftAt(c, op, i) == First(c, op, i)
      && Right(b, op) == RightAt(c, op, i) == Second(c, op, i)
  {
    hide After, Distinct, DidAll, Start, Pointer, Delta, Moved, ElementAt, Operand, Read, Changes;
    Positions(c, op, i);
    OperandsAt(c, op, i);
  }

  lemma OperandsAt(c: State, op: Op, i: nat)
    requires Good(c) && Fields(op)
    ensures LeftAt(c, op, i) == First(c, op, i) && RightAt(c, op, i) == Second(c, op, i)
  {
    hide Start, Pointer, Delta, Moved, ElementAt, Operand, Read;
    SamePlace(c, op.src); SamePlace(c, op.dst);
    SameElement(Start(c, op.src), op, i);
    SameElement(Start(c, op.dst), op, i);
    ElementSeg(Start(c, op.src), op, i);
    ElementSeg(Start(c, op.dst), op, i);
    RamSize(c);
    SameOperand(c.mem, ElementAt(Start(c, op.src), op, i), op.word);
    SameOperand(c.mem, ElementAt(Start(c, op.dst), op, i), op.word);
  }

  lemma ElementSeg(a: Addr, op: Op, i: nat)
    ensures ElementAt(a, op, i).seg == a.seg
  {
  }

  /** A repeating search for an equal element (condition 6), or for an unequal one (14): it stops
      just past the first such element, going up or down from the start, or when the count is used
      up; Z, bit 6, says whether the last element read was one, PV, bit 4, whether the count is used up. */
  lemma FindsFirst(c: State, op: Op) returns (n: nat)
    requires Good(c) && Fields(op) && op.kind != Transfer && op.rept && Distinct(c, op) && op.cc in {6, 14}
    ensures var d := After(c, op, n);
            var s, t := Moving(c, op.src), Moving(c, op.dst);
      && 1 <= n <= Count(c, op) && !d.again
      && (forall i :: 0 <= i < n - 1 ==> (First(c, op, i) == Second(c, op, i)) == (op.cc == 14))
      && (d.c.fcw / 0x40 % 2 == 1 <==> (First(c, op, n - 1) == Second(c, op, n - 1)) == (op.cc == 6))
      && (d.c.fcw / 0x10 % 2 == 1 <==> n == Count(c, op))
      && (n == Count(c, op) || d.c.fcw / 0x40 % 2 == 1)
      && d.c.r[s] == Along(c.r[s], op, n) && (op.kind == CompareString ==> d.c.r[t] == Along(c.r[t], op, n))
      && d.c.r[op.cnt] == (c.r[op.cnt] - n) % 0x1_0000 && d.c.mem == c.mem
  {
    hide After, Distinct, DidAll, Start, First, Second, LeftAt, RightAt, Hit, FlagsOf, Along, Moving;
    n := CompareStops(c, op);
    forall i | 0 <= i < n
      ensures Hit(c, op, i) == ((First(c, op, i) == Second(c, op, i)) == (op.cc == 6))
    {
      HitMeans(c, op, i);
      OperandsAt(c, op, i);
    }
    EndsAt(c, op, n);
    PvBit(After(c, op, n).c.fcw);
    ZBit(After(c, op, n).c.fcw);
  }

  lemma ZBit(f: u16)
    ensures FlagsOf(f).z == (f / 0x40 % 2 == 1)
  {
  }
}
