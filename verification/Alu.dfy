/** The ALU's bit-serial adder and one-place-at-a-time shifts, against integer
    arithmetic, and the condition codes that read their flags. */
module Alu {
  import opened Basics

  datatype Width = WByte | WWord | WLong

  function Bits(w: Width): nat {
    match w case WByte => 8 case WWord => 16 case WLong => 32
  }

  function Pow2(n: nat): (p: nat)
    ensures p > 0
  {
    if n == 0 then 1 else 2 * Pow2(n - 1)
  }

  /** The six condition flags; also used as the mask of flags an operation sets. */
  datatype Flags = Flags(c: bool, z: bool, s: bool, pv: bool, da: bool, h: bool)

  datatype AluResult = AluResult(value: nat, flags: Flags, mask: Flags)

  /** Merge only the affected flags. */
  function ApplyFlags(before: Flags, r: AluResult): Flags {
    Flags(if r.mask.c then r.flags.c else before.c, if r.mask.z then r.flags.z else before.z,
          if r.mask.s then r.flags.s else before.s, if r.mask.pv then r.flags.pv else before.pv,
          if r.mask.da then r.flags.da else before.da, if r.mask.h then r.flags.h else before.h)
  }

  /** The sixteen condition codes. */
  function CondTrue(f: Flags, cc: nat): bool
    requires cc < 16
  {
    match cc
    case 0x0 => false
    case 0x1 => f.s != f.pv
    case 0x2 => f.s != f.pv || f.z
    case 0x3 => f.c || f.z
    case 0x4 => f.pv
    case 0x5 => f.s
    case 0x6 => f.z
    case 0x7 => f.c
    case 0x8 => true
    case 0x9 => f.s == f.pv
    case 0xA => f.s == f.pv && !f.z
    case 0xB => !f.c && !f.z
    case 0xC => !f.pv
    case 0xD => !f.s
    case 0xE => !f.z
    case 0xF => !f.c
  }

  function Bit(a: nat, i: nat): bool {
    a / Pow2(i) % 2 == 1
  }

  /** Two's-complement reading of an n-bit value. */
  function Signed(a: nat, n: nat): int
    requires n > 0
  {
    if a < Pow2(n - 1) then a else a - Pow2(n)
  }

  predicate FitsSigned(x: int, n: nat)
    requires n > 0
  {
    var half: int := Pow2(n - 1);
    -half <= x < half
  }

  // ----- the adder ----------------------------------------------------------------

  /** The remainder, never negative. */
  function Mod(a: int, m: nat): (r: nat)
    requires m > 0
    ensures r < m
  {
    a % m
  }

  /** Quotient and remainder are unique. */
  lemma Remainder(a: int, q: int, m: nat, r: nat)
    requires m > 0 && a == q * m + r && r < m
    ensures Mod(a, m) == r && a / m == q
  {
    Quotient(a, q, m, r);
  }

  /** Low bits: one more bit of `a`. */
  lemma ModStep(a: nat, i: nat)
    ensures Mod(a, Pow2(i + 1)) == Mod(a, Pow2(i)) + When(Bit(a, i), Pow2(i))
  {
    var p := Pow2(i);
    var q, r := a / p, a % p;
    var h := q / 2;
    assert a == q * p + r;
    assert q == 2 * h + q % 2;
    assert q * p == h * (2 * p) + (q % 2) * p;
    assert (q % 2) * p == When(Bit(a, i), p);
    Remainder(a, h, 2 * p, When(Bit(a, i), p) + r);
  }

  /** One position of the ripple: the sum bit and the majority carry. */
  lemma RippleStep(p: nat, sum: nat, c: bool, x: nat, y: nat, ai: bool, bi: bool)
    requires sum < p && sum + When(c, p) == x + y
    ensures var s := (ai != bi) != c;
            var c' := (ai && bi) || (bi && c) || (ai && c);
      sum + When(s, p) < 2 * p && sum + When(s, p) + When(c', 2 * p) == x + When(ai, p) + y + When(bi, p)
  {
  }

  lemma PowFour()
    ensures Pow2(0) == 1 && Pow2(4) == 16
  {
    assert Pow2(2) == 4;
  }

  /** Bit-serial a + b + cin over `n` bits. Besides the sum it reports the carry out
      of the top bit, out of bit 3, and into the top bit. */
  method CarryChain(a: nat, b: nat, cin: bool, n: nat) returns (sum: nat, cout: bool, c4: bool, cmsb: bool)
    requires n > 0
    ensures sum < Pow2(n)
    ensures sum + When(cout, Pow2(n)) == Mod(a, Pow2(n)) + Mod(b, Pow2(n)) + When(cin, 1)
    ensures cmsb <==> Mod(a, Pow2(n - 1)) + Mod(b, Pow2(n - 1)) + When(cin, 1) >= Pow2(n - 1)
    ensures n >= 4 ==> (c4 <==> Mod(a, 16) + Mod(b, 16) + When(cin, 1) >= 16)
  {
    PowFour();
    hide Pow2, Bit, Mod;
    var c := cin;
    sum, c4, cmsb := 0, false, false;
    for i := 0 to n
      invariant sum < Pow2(i)
      invariant sum + When(c, Pow2(i)) == Mod(a, Pow2(i)) + Mod(b, Pow2(i)) + When(cin, 1)
      invariant i == n ==> (cmsb <==> Mod(a, Pow2(n - 1)) + Mod(b, Pow2(n - 1)) + When(cin, 1) >= Pow2(n - 1))
      invariant i >= 4 ==> (c4 <==> Mod(a, 16) + Mod(b, 16) + When(cin, 1) >= 16)
    {
      if i == n - 1 {
        cmsb := c;
      }
      var ai, bi := Bit(a, i), Bit(b, i);
      ModStep(a, i);
      ModStep(b, i);
      PowStep(i);
      RippleStep(Pow2(i), sum, c, Mod(a, Pow2(i)) + When(cin, 1), Mod(b, Pow2(i)), ai, bi);
      var s := (ai != bi) != c;
      sum := sum + When(s, Pow2(i));
      c := (ai && bi) || (bi && c) || (ai && c);
      if i == 3 {
        c4 := c;
      }
    }
    cout := c;
  }

  lemma PowStep(i: nat)
    ensures Pow2(i + 1) == 2 * Pow2(i)
  {
  }

  function FlagMask(w: Width): Flags {
    Flags(true, true, true, true, w.WByte?, w.WByte?)
  }

  /** What ADD and ADC mean. */
  ghost function AddSpec(a: nat, b: nat, carry: bool, w: Width): AluResult {
    var n := Bits(w);
    var total := a + b + When(carry, 1);
    var v := Mod(total, Pow2(n));
    AluResult(v,
      Flags(total >= Pow2(n), v == 0, v >= Pow2(n - 1),
            !FitsSigned(Signed(a, n) + Signed(b, n) + When(carry, 1), n),
            false, Mod(a, 16) + Mod(b, 16) + When(carry, 1) >= 16),
      FlagMask(w))
  }

  /** What SUB, SBC and CP mean. */
  ghost function SubSpec(a: nat, b: nat, borrow: bool, w: Width): AluResult {
    var n := Bits(w);
    var diff := a - b - When(borrow, 1);
    var v := Mod(diff, Pow2(n));
    AluResult(v,
      Flags(diff < 0, v == 0, v >= Pow2(n - 1),
            !FitsSigned(Signed(a, n) - Signed(b, n) - When(borrow, 1), n),
            w.WByte?, Mod(a, 16) < Mod(b, 16) + When(borrow, 1)),
      FlagMask(w))
  }

  /** How many values a width holds. */
  function Range(w: Width): nat {
    match w case WByte => 0x100 case WWord => 0x1_0000 case WLong => 0x1_0000_0000
  }

  lemma Ranges(w: Width)
    ensures Pow2(Bits(w)) == Range(w) && Pow2(Bits(w) - 1) == Range(w) / 2
  {
    hide Pow2;
    PowFour();
    PowStep(4); PowStep(5); PowStep(6); PowStep(7); PowStep(8); PowStep(9); PowStep(10); PowStep(11); PowStep(12);
    PowStep(13); PowStep(14); PowStep(15); PowStep(16); PowStep(17); PowStep(18); PowStep(19); PowStep(20);
    PowStep(21); PowStep(22); PowStep(23); PowStep(24); PowStep(25); PowStep(26); PowStep(27); PowStep(28);
    PowStep(29); PowStep(30); PowStep(31);
  }

  /** The flags after an addition: C when the sum leaves the width, PV when two numbers of one sign
      give one of the other, H on a carry out of the low four bits; DA and H only for bytes. */
  lemma AddMeans(a: nat, b: nat, carry: bool, w: Width, before: Flags)
    requires a < Range(w) && b < Range(w)
    ensures var r, total, half := AddSpec(a, b, carry, w), a + b + When(carry, 1), Range(w) / 2;
            var f := ApplyFlags(before, r);
      && r.value == (if total >= Range(w) then total - Range(w) else total) && (f.c <==> total >= Range(w))
      && (f.z <==> r.value == 0) && (f.s <==> r.value >= half)
      && (f.pv <==> (a < half) == (b < half) && (r.value < half) != (a < half))
      && (w.WByte? ==> !f.da && (f.h <==> a % 16 + b % 16 + When(carry, 1) >= 16))
      && (!w.WByte? ==> f.da == before.da && f.h == before.h)
  {
    hide Pow2, Bits, Mod, Signed, FitsSigned, Range;
    Ranges(w);
    BitsPositive(w);
    var total := a + b + When(carry, 1);
    if total >= Range(w) {
      Remainder(total, 1, Range(w), total - Range(w));
    } else {
      Remainder(total, 0, Range(w), total);
    }
    SumOverflows(a, b, carry, w);
    Nibble(a); Nibble(b);
  }

  lemma Nibble(a: nat)
    ensures Mod(a, 16) == a % 16
  {
  }

  lemma SumOverflows(a: nat, b: nat, carry: bool, w: Width)
    requires a < Range(w) && b < Range(w) && Bits(w) > 0
    ensures var n, total, half := Bits(w), a + b + When(carry, 1), Range(w) / 2;
            var v := if total >= Range(w) then total - Range(w) else total;
      !FitsSigned(Signed(a, n) + Signed(b, n) + When(carry, 1), n)
      <==> (a < half) == (b < half) && (v < half) != (a < half)
  {
    hide Pow2, Bits, Range;
    Ranges(w);
    EvenRange(w);
  }

  lemma EvenRange(w: Width)
    ensures Range(w) == 2 * (Range(w) / 2)
  {
  }

  lemma BitsPositive(w: Width)
    ensures Bits(w) > 0
  {
  }

  /** And after a subtraction: C on a borrow, PV when numbers of different signs give a result whose
      sign is not the first one's, H on a borrow into the low four bits, DA set. */
  lemma SubMeans(a: nat, b: nat, borrow: bool, w: Width, before: Flags)
    requires a < Range(w) && b < Range(w)
    ensures var r, diff, half := SubSpec(a, b, borrow, w), a - b - When(borrow, 1), Range(w) / 2;
            var f := ApplyFlags(before, r);
      && r.value == (if diff < 0 then diff + Range(w) else diff) && (f.c <==> diff < 0)
      && (f.z <==> r.value == 0) && (f.s <==> r.value >= half)
      && (f.pv <==> (a < half) != (b < half) && (r.value < half) != (a < half))
      && (w.WByte? ==> f.da && (f.h <==> a % 16 < b % 16 + When(borrow, 1)))
      && (!w.WByte? ==> f.da == before.da && f.h == before.h)
  {
    hide Pow2, Bits, Mod, Signed, FitsSigned, Range;
    Ranges(w);
    BitsPositive(w);
    var diff := a - b - When(borrow, 1);
    if diff < 0 { Remainder(diff, -1, Range(w), diff + Range(w)); } else { Remainder(diff, 0, Range(w), diff); }
    DifferenceOverflows(a, b, borrow, w);
    Nibble(a); Nibble(b);
  }

  lemma DifferenceOverflows(a: nat, b: nat, borrow: bool, w: Width)
    requires a < Range(w) && b < Range(w) && Bits(w) > 0
    ensures var n, diff, half := Bits(w), a - b - When(borrow, 1), Range(w) / 2;
            var v := if diff < 0 then diff + Range(w) else diff;
      !FitsSigned(Signed(a, n) - Signed(b, n) - When(borrow, 1), n)
      <==> (a < half) != (b < half) && (v < half) != (a < half)
  {
    hide Pow2, Bits, Range;
    Ranges(w);
    EvenRange(w);
  }

  lemma Halves(a: nat, h: nat)
    requires h > 0 && a < 2 * h
    ensures Mod(a, h) == (if a < h then a else a - h) && (a / h % 2 == 1 <==> a >= h)
  {
    if a < h { Remainder(a, 0, h, a); } else { Remainder(a, 1, h, a - h); }
  }

  /** The top bit of an n-bit value, its low bits, and its signed reading. */
  lemma TopBit(a: nat, n: nat)
    requires n > 0 && a < Pow2(n)
    ensures Bit(a, n - 1) <==> a >= Pow2(n - 1)
    ensures Mod(a, Pow2(n - 1)) == if a < Pow2(n - 1) then a else a - Pow2(n - 1)
    ensures Mod(a, Pow2(n)) == a && Pow2(n) == 2 * Pow2(n - 1)
  {
    Halves(a, Pow2(n - 1));
    Remainder(a, 0, Pow2(n), a);
  }

  method DoAdd(a: nat, b: nat, carry: bool, w: Width) returns (r: AluResult)
    requires a < Pow2(Bits(w)) && b < Pow2(Bits(w))
    ensures r == AddSpec(a, b, carry, w)
  {
    hide Pow2, Bit, Mod, FitsSigned, Signed;
    var n := Bits(w);
    var sum, cout, c4, cmsb := CarryChain(a, b, carry, n);
    DirectAdded(a, b, carry, n, sum, cout, cmsb);
    r := AluResult(sum, Flags(cout, sum == 0, Bit(sum, n - 1), cout != cmsb, false, c4), FlagMask(w));
  }

  lemma DirectAdded(a: nat, b: nat, carry: bool, n: nat, sum: nat, cout: bool, cmsb: bool)
    requires n > 0 && a < Pow2(n) && b < Pow2(n) && sum < Pow2(n)
    requires sum + When(cout, Pow2(n)) == Mod(a, Pow2(n)) + Mod(b, Pow2(n)) + When(carry, 1)
    requires cmsb <==> Mod(a, Pow2(n - 1)) + Mod(b, Pow2(n - 1)) + When(carry, 1) >= Pow2(n - 1)
    ensures var total := a + b + When(carry, 1);
      && sum == Mod(total, Pow2(n)) && (cout <==> total >= Pow2(n))
      && (Bit(sum, n - 1) <==> sum >= Pow2(n - 1))
      && (cout != cmsb <==> !FitsSigned(Signed(a, n) + Signed(b, n) + When(carry, 1), n))
  {
    hide Pow2, Bit, Mod;
    TopBit(a, n);
    TopBit(b, n);
    TopBit(sum, n);
    Remainder(a + b + When(carry, 1), When(cout, 1), Pow2(n), sum);
  }

  method DoSub(a: nat, b: nat, borrow: bool, w: Width) returns (r: AluResult)
    requires a < Pow2(Bits(w)) && b < Pow2(Bits(w))
    ensures r == SubSpec(a, b, borrow, w)
  {
    hide Pow2, Bit, Mod, FitsSigned, Signed;
    var n := Bits(w);
    var notb := Pow2(n) - 1 - b;
    var sum, cout, c4, cmsb := CarryChain(a, notb, !borrow, n);
    ComplementAdded(a, b, borrow, n, sum, cout, cmsb);
    NibbleBorrow(b, n);
    r := AluResult(sum, Flags(!cout, sum == 0, Bit(sum, n - 1), cout != cmsb, w.WByte?, !c4), FlagMask(w));
  }

  /** Adding the complement subtracts, with carry and overflow read the other way. */
  lemma ComplementAdded(a: nat, b: nat, borrow: bool, n: nat, sum: nat, cout: bool, cmsb: bool)
    requires n > 0 && a < Pow2(n) && b < Pow2(n) && sum < Pow2(n)
    requires var notb := Pow2(n) - 1 - b;
      && sum + When(cout, Pow2(n)) == Mod(a, Pow2(n)) + Mod(notb, Pow2(n)) + When(!borrow, 1)
      && (cmsb <==> Mod(a, Pow2(n - 1)) + Mod(notb, Pow2(n - 1)) + When(!borrow, 1) >= Pow2(n - 1))
    ensures var diff := a - b - When(borrow, 1);
      && sum == Mod(diff, Pow2(n)) && (cout <==> diff >= 0)
      && (Bit(sum, n - 1) <==> sum >= Pow2(n - 1))
      && (cout != cmsb <==> !FitsSigned(Signed(a, n) - Signed(b, n) - When(borrow, 1), n))
  {
    hide Pow2, Bit, Mod;
    TopBit(a, n);
    TopBit(b, n);
    TopBit(Pow2(n) - 1 - b, n);
    TopBit(sum, n);
    Remainder(a - b - When(borrow, 1), if cout then 0 else -1, Pow2(n), sum);
  }

  lemma NibbleBorrow(b: nat, n: nat)
    requires n >= 4 && b < Pow2(n)
    ensures Mod(Pow2(n) - 1 - b, 16) == 15 - Mod(b, 16)
  {
    hide Pow2, Mod;
    PowStep(n - 1);
    PowStep(n - 2);
    PowStep(n - 3);
    PowStep(n - 4);
    NibbleComplement(b, Pow2(n - 4));
  }

  lemma NibbleComplement(b: nat, q: nat)
    ensures Mod(16 * q - 1 - b, 16) == 15 - Mod(b, 16)
  {
  }

  // ----- comparing -------------------------------------------------------------------

  /** After CP at any width every signed and unsigned condition code decides the
      integer relation it is named for. */
  lemma CpDecides(a: nat, b: nat, w: Width, before: Flags)
    requires a < Pow2(Bits(w)) && b < Pow2(Bits(w))
    ensures var f := ApplyFlags(before, SubSpec(a, b, false, w));
            var sa, sb := Signed(a, Bits(w)), Signed(b, Bits(w));
      && (CondTrue(f, 0x1) <==> sa < sb) && (CondTrue(f, 0x2) <==> sa <= sb)
      && (CondTrue(f, 0x9) <==> sa >= sb) && (CondTrue(f, 0xA) <==> sa > sb)
      && (CondTrue(f, 0x7) <==> a < b) && (CondTrue(f, 0x3) <==> a <= b)
      && (CondTrue(f, 0xF) <==> a >= b) && (CondTrue(f, 0xB) <==> a > b)
      && (CondTrue(f, 0x6) <==> a == b) && (CondTrue(f, 0xE) <==> a != b)
  {
    hide Pow2, Mod, Bits, SubSpec, Signed;
    CpUnsigned(a, b, w);
    CpSigned(a, b, w);
    CpMask(a, b, w);
  }

  /** Each of the upper eight codes is the opposite of the one eight below; 0 never holds, 4 is the
      overflow flag and 5 the sign. */
  lemma CondPairs(f: Flags, cc: nat)
    requires cc < 8
    ensures CondTrue(f, cc + 8) == !CondTrue(f, cc)
    ensures !CondTrue(f, 0) && CondTrue(f, 4) == f.pv && CondTrue(f, 5) == f.s
  {
    assert cc in {0, 1, 2, 3, 4, 5, 6, 7};
  }

  lemma CpMask(a: nat, b: nat, w: Width)
    ensures var m := SubSpec(a, b, false, w).mask; m.c && m.z && m.s && m.pv
  {
  }

  lemma CpUnsigned(a: nat, b: nat, w: Width)
    requires a < Pow2(Bits(w)) && b < Pow2(Bits(w))
    ensures var f := SubSpec(a, b, false, w).flags; (f.c <==> a < b) && (f.z <==> a == b)
  {
    hide Pow2, Mod, Bits, Signed, FitsSigned;
    var p := Pow2(Bits(w));
    if a >= b { Remainder(a - b, 0, p, a - b); } else { Remainder(a - b, -1, p, a - b + p); }
  }

  /** The sign of the wrapped difference is wrong exactly when the overflow flag is set. */
  lemma CpSigned(a: nat, b: nat, w: Width)
    requires a < Pow2(Bits(w)) && b < Pow2(Bits(w))
    ensures var f := SubSpec(a, b, false, w).flags; f.s != f.pv <==> Signed(a, Bits(w)) < Signed(b, Bits(w))
    ensures a == b <==> Signed(a, Bits(w)) == Signed(b, Bits(w))
  {
    hide Pow2, Mod;
    var n := Bits(w);
    TopBit(a, n);
    TopBit(b, n);
    if a >= b { Remainder(a - b, 0, Pow2(n), a - b); } else { Remainder(a - b, -1, Pow2(n), a - b + Pow2(n)); }
  }

  // ----- several words ----------------------------------------------------------------

  /** The number a little-endian list of n-bit words stands for. */
  function Number(ws: seq<nat>, n: nat): nat {
    if ws == [] then 0 else ws[0] + Pow2(n) * Number(ws[1..], n)
  }

  function Weight(k: nat, n: nat): nat {
    if k == 0 then 1 else Pow2(n) * Weight(k - 1, n)
  }

  ghost predicate Words(ws: seq<nat>, n: nat) {
    forall i :: 0 <= i < |ws| ==> ws[i] < Pow2(n)
  }

  datatype Chained = Chained(words: seq<nat>, carry: bool)

  /** ADD on the lowest words (or ADC when a carry comes in), then ADC on each higher pair. */
  ghost function AddChain(x: seq<nat>, y: seq<nat>, carry: bool, w: Width): Chained
    requires |x| == |y|
  {
    if x == [] then Chained([], carry) else
    var r := AddSpec(x[0], y[0], carry, w);
    var rest := AddChain(x[1..], y[1..], r.flags.c, w);
    Chained([r.value] + rest.words, rest.carry)
  }

  /** SUB on the lowest words, then SBC on each higher pair. */
  ghost function SubChain(x: seq<nat>, y: seq<nat>, borrow: bool, w: Width): Chained
    requires |x| == |y|
  {
    if x == [] then Chained([], borrow) else
    var r := SubSpec(x[0], y[0], borrow, w);
    var rest := SubChain(x[1..], y[1..], r.flags.c, w);
    Chained([r.value] + rest.words, rest.carry)
  }

  lemma DivMod(a: int, m: nat)
    requires m > 0
    ensures a == (a / m) * m + Mod(a, m)
  {
  }

  /** Scaling an equation between numbers by the word size. */
  lemma Scaled(p: int, r: int, c: bool, e: nat, x: int, y: int, b: bool)
    requires r + When(c, e) == x + y + When(b, 1)
    ensures p > 0 ==> p * r + When(c, p * e) == p * x + p * y + When(b, p)
  {
    assert p * (r + When(c, e)) == p * r + p * When(c, e);
    assert p * (x + y + When(b, 1)) == p * x + p * y + p * When(b, 1);
  }

  lemma ScaledDifference(p: int, r: int, c: bool, e: nat, x: int, y: int, b: bool)
    requires r - When(c, e) == x - y - When(b, 1)
    ensures p > 0 ==> p * r - When(c, p * e) == p * x - p * y - When(b, p)
  {
    assert p * (r - When(c, e)) == p * r - p * When(c, e);
    assert p * (x - y - When(b, 1)) == p * x - p * y - p * When(b, 1);
  }

  /** An ADD followed by any number of ADCs computes the exact multi-word sum, with the
      final carry as its overflow. */
  lemma {:induction false} AddChainExact(x: seq<nat>, y: seq<nat>, carry: bool, w: Width)
    requires |x| == |y| && Words(x, Bits(w)) && Words(y, Bits(w))
    ensures var r := AddChain(x, y, carry, w);
            var n := Bits(w);
      && |r.words| == |x| && Words(r.words, n)
      && Number(r.words, n) + When(r.carry, Weight(|x|, n)) == Number(x, n) + Number(y, n) + When(carry, 1)
  {
    hide Pow2, AddSpec;
    if x != [] {
      var n := Bits(w);
      var p := Pow2(n);
      var r := AddSpec(x[0], y[0], carry, w);
      AddLimb(x[0], y[0], carry, w);
      AddChainExact(x[1..], y[1..], r.flags.c, w);
      var rest := AddChain(x[1..], y[1..], r.flags.c, w);
      var all := AddChain(x, y, carry, w);
      assert all.words[1..] == rest.words;
      Scaled(p, Number(rest.words, n), rest.carry, Weight(|x| - 1, n), Number(x[1..], n), Number(y[1..], n), r.flags.c);
    }
  }

  lemma AddLimb(a: nat, b: nat, carry: bool, w: Width)
    requires a < Pow2(Bits(w)) && b < Pow2(Bits(w))
    ensures var r := AddSpec(a, b, carry, w);
      r.value < Pow2(Bits(w)) && r.value + When(r.flags.c, Pow2(Bits(w))) == a + b + When(carry, 1)
  {
    hide Pow2, Mod, Signed, FitsSigned;
    var p := Pow2(Bits(w));
    var total := a + b + When(carry, 1);
    Remainder(total, if total >= p then 1 else 0, p, if total >= p then total - p else total);
  }

  /** A SUB followed by any number of SBCs computes the exact multi-word difference,
      with the final borrow. */
  lemma {:induction false} SubChainExact(x: seq<nat>, y: seq<nat>, borrow: bool, w: Width)
    requires |x| == |y| && Words(x, Bits(w)) && Words(y, Bits(w))
    ensures var r := SubChain(x, y, borrow, w);
            var n := Bits(w);
      && |r.words| == |x| && Words(r.words, n)
      && Number(r.words, n) - When(r.carry, Weight(|x|, n)) == Number(x, n) - Number(y, n) - When(borrow, 1)
  {
    hide Pow2, SubSpec;
    if x != [] {
      var n := Bits(w);
      var p := Pow2(n);
      var r := SubSpec(x[0], y[0], borrow, w);
      SubLimb(x[0], y[0], borrow, w);
      SubChainExact(x[1..], y[1..], r.flags.c, w);
      var rest := SubChain(x[1..], y[1..], r.flags.c, w);
      var all := SubChain(x, y, borrow, w);
      assert all.words[1..] == rest.words;
      ScaledDifference(p, Number(rest.words, n), rest.carry, Weight(|x| - 1, n),
                       Number(x[1..], n), Number(y[1..], n), r.flags.c);
    }
  }

  lemma SubLimb(a: nat, b: nat, borrow: bool, w: Width)
    requires a < Pow2(Bits(w)) && b < Pow2(Bits(w))
    ensures var r := SubSpec(a, b, borrow, w);
      r.value < Pow2(Bits(w)) && r.value - When(r.flags.c, Pow2(Bits(w))) == a - b - When(borrow, 1)
  {
    hide Pow2, Mod, Signed, FitsSigned;
    var p := Pow2(Bits(w));
    var diff := a - b - When(borrow, 1);
    Remainder(diff, if diff < 0 then -1 else 0, p, if diff < 0 then diff + p else diff);
  }

  // ----- shifts ---------------------------------------------------------------------------

  /** Z and S of a result; shifts overwrite the parity the logical helper leaves in PV. */
  function LogicFlags(v: nat, n: nat): Flags
    requires n > 0
  {
    Flags(false, v == 0, v >= Pow2(n - 1), false, false, false)
  }

  /** SLA and SLL, one place at a time. The last bit out of the top is C; for SLA, PV
      records whether the sign ever changed. */
  method ShiftLeft(a: nat, count: nat, arith: bool, w: Width) returns (r: AluResult)
    requires a < Pow2(Bits(w))
    ensures var n, k := Bits(w), count % 64;
      && r.value == Mod(a * Pow2(k), Pow2(n))
      && (k > 0 ==> (r.flags.c <==> Mod(a * Pow2(k) / Pow2(n), 2) == 1))
      && (r.flags.pv <==> arith && !FitsSigned(Signed(a, n) * Pow2(k), n))
      && r.flags.z == (r.value == 0) && r.flags.s == (r.value >= Pow2(n - 1))
      && r.mask == Flags(k > 0, true, true, arith, false, false)
  {
    hide Pow2, Mod, FitsSigned, Signed;
    var n, k := Bits(w), count % 64;
    var val, cout, ovf := a, false, false;
    LeftStart(a, n);
    for i := 0 to k
      invariant val < Pow2(n) && val == Mod(a * Pow2(i), Pow2(n))
      invariant i > 0 ==> (cout <==> Mod(a * Pow2(i) / Pow2(n), 2) == 1)
      invariant ovf <==> !FitsSigned(Signed(a, n) * Pow2(i), n)
      invariant !ovf ==> Signed(val, n) == Signed(a, n) * Pow2(i)
    {
      LeftStep(a, val, i, n);
      cout := val >= Pow2(n - 1);
      val := Mod(2 * val, Pow2(n));
      if (val >= Pow2(n - 1)) != (a >= Pow2(n - 1)) {
        ovf := true;
      }
    }
    var f := LogicFlags(val, n);
    r := AluResult(val, f.(c := cout, pv := arith && ovf), Flags(k > 0, true, true, arith, false, false));
  }

  lemma LeftStart(a: nat, n: nat)
    requires n > 0 && a < Pow2(n)
    ensures Pow2(0) == 1 && a * Pow2(0) == a && Mod(a * Pow2(0), Pow2(n)) == a
    ensures Signed(a, n) * Pow2(0) == Signed(a, n) && FitsSigned(Signed(a, n), n)
  {
    Remainder(a, 0, Pow2(n), a);
    PowStep(n - 1);
  }

  /** One place to the left: the product doubles, the bit out is the next bit above the
      width, and the sign flips exactly when the signed product stops fitting. */
  lemma LeftStep(a: nat, val: nat, i: nat, n: nat)
    requires n > 0 && a < Pow2(n) && val == Mod(a * Pow2(i), Pow2(n)) && val < Pow2(n)
    ensures var next := Mod(2 * val, Pow2(n));
      && next == Mod(a * Pow2(i + 1), Pow2(n))
      && (val >= Pow2(n - 1) <==> Mod(a * Pow2(i + 1) / Pow2(n), 2) == 1)
      && (!FitsSigned(Signed(a, n) * Pow2(i), n) ==> !FitsSigned(Signed(a, n) * Pow2(i + 1), n))
      && (FitsSigned(Signed(a, n) * Pow2(i), n) && Signed(val, n) == Signed(a, n) * Pow2(i) ==>
            && (FitsSigned(Signed(a, n) * Pow2(i + 1), n) <==> (next >= Pow2(n - 1) <==> a >= Pow2(n - 1)))
            && (FitsSigned(Signed(a, n) * Pow2(i + 1), n) ==> Signed(next, n) == Signed(a, n) * Pow2(i + 1)))
  {
    hide Pow2;
    var p, q, h := Pow2(n), Pow2(i), Pow2(n - 1);
    PowStep(i);
    PowStep(n - 1);
    var d := a * q / p;
    DivMod(a * q, p);
    Doubled(a, q);
    var up := if val >= h then 1 else 0;
    assert a * Pow2(i + 1) == (2 * d + up) * p + (2 * val - up * p) by { Regroup(a, q, d, p, val, up); }
    Remainder(a * Pow2(i + 1), 2 * d + up, p, 2 * val - up * p);
    Remainder(2 * val, up, p, 2 * val - up * p);
    Remainder(2 * d + up, d, 2, up);
    SignedDoubles(Signed(a, n), q);
    SignOfProduct(a, n, q);
  }

  lemma Doubled(a: nat, q: nat)
    ensures a * (2 * q) == 2 * (a * q)
  {
  }

  lemma Regroup(a: nat, q: nat, d: int, p: int, val: int, up: int)
    requires a * q == d * p + val
    ensures a * (2 * q) == (2 * d + up) * p + (2 * val - up * p)
  {
    assert (2 * d + up) * p == 2 * (d * p) + up * p;
    Doubled(a, q);
  }

  lemma SignedDoubles(x: int, q: int)
    ensures x * (2 * q) == 2 * (x * q)
  {
  }

  lemma SignOfProduct(a: nat, n: nat, q: nat)
    requires n > 0 && a < Pow2(n) && q > 0
    ensures Signed(a, n) * q < 0 <==> a >= Pow2(n - 1)
  {
    PowStep(n - 1);
    if a >= Pow2(n - 1) { NegativeProduct(Signed(a, n), q); } else { NonNegativeProduct(Signed(a, n), q); }
  }

  lemma NegativeProduct(x: int, q: int)
    requires x < 0 && q > 0
    ensures x * q < 0
  {
  }

  lemma NonNegativeProduct(x: int, q: int)
    requires x >= 0 && q > 0
    ensures x * q >= 0
  {
  }

  /** Floor division, as an arithmetic right shift rounds. */
  function Floor(x: int, m: nat): int
    requires m > 0
  {
    x / m
  }

  /** SRA and SRL, one place at a time; the source runs a zero-filling loop first and
      redoes the shift for SRA. The last bit out of the bottom is C, PV ends clear. */
  method ShiftRight(a: nat, count: nat, arith: bool, w: Width) returns (r: AluResult)
    requires a < Pow2(Bits(w))
    ensures var n, k := Bits(w), count % 64;
      && r.value < Pow2(n)
      && (!arith ==> r.value == Floor(a, Pow2(k)))
      && (arith ==> Signed(r.value, n) == Floor(Signed(a, n), Pow2(k)))
      && (k > 0 ==> (r.flags.c <==> Mod(Floor(if arith then Signed(a, n) else a, Pow2(k - 1)), 2) == 1))
      && !r.flags.pv
      && r.flags.z == (r.value == 0) && r.flags.s == (r.value >= Pow2(n - 1))
      && r.mask == Flags(k > 0, true, true, arith, false, false)
  {
    hide Pow2, Mod, Signed, Floor;
    var n, k := Bits(w), count % 64;
    var val: nat, cout := a, false;
    RightStart(a, n);
    for i := 0 to k
      invariant val < Pow2(n) && val == Floor(a, Pow2(i))
      invariant i > 0 ==> (cout <==> Mod(Floor(a, Pow2(i - 1)), 2) == 1)
    {
      FloorStep(a, i);
      Halved(val);
      cout := val % 2 != 0;
      val := val / 2;
    }
    if arith {
      val, cout := a, false;
      for i := 0 to k
        invariant val < Pow2(n) && Signed(val, n) == Floor(Signed(a, n), Pow2(i))
        invariant i > 0 ==> (cout <==> Mod(Floor(Signed(a, n), Pow2(i - 1)), 2) == 1)
      {
        FloorStep(Signed(a, n), i);
        SignReplicated(val, n);
        cout := val % 2 != 0;
        var s := if val >= Pow2(n - 1) then Pow2(n - 1) else 0;
        val := val / 2 + s;
      }
    }
    var f := LogicFlags(val, n);
    r := AluResult(val, f.(c := cout), Flags(k > 0, true, true, arith, false, false));
  }

  lemma RightStart(a: nat, n: nat)
    requires n > 0 && a < Pow2(n)
    ensures Pow2(0) == 1 && Floor(a, Pow2(0)) == a && Floor(Signed(a, n), Pow2(0)) == Signed(a, n)
  {
  }

  lemma FloorStep(x: int, i: nat)
    ensures Floor(x, Pow2(i + 1)) == Floor(Floor(x, Pow2(i)), 2)
  {
    var p := Pow2(i);
    var q, r := x / p, x % p;
    var h, b := q / 2, q % 2;
    assert x == q * p + r && q == 2 * h + b;
    assert q * p == h * (2 * p) + b * p;
    var low := if b == 1 then p else 0;
    assert b * p == low;
    Remainder(x, h, 2 * p, low + r);
  }

  lemma Halved(v: nat)
    ensures v / 2 == Floor(v, 2) && (v % 2 != 0 <==> Mod(v, 2) == 1)
  {
  }

  /** One SRA step halves the signed value, rounding down. */
  lemma SignReplicated(val: nat, n: nat)
    requires n > 1 && val < Pow2(n)
    ensures var v := val / 2 + if val >= Pow2(n - 1) then Pow2(n - 1) else 0;
      && v < Pow2(n) && Signed(v, n) == Floor(Signed(val, n), 2)
      && (val % 2 != 0 <==> Mod(Signed(val, n), 2) == 1)
  {
    PowStep(n - 1);
    PowStep(n - 2);
  }
}
