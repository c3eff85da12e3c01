/** The MSM58321 real-time clock: sixteen 4-bit registers holding a BCD calendar, and
    the divider that is caught up lazily from the instruction count. */
module Clock {
  import Basics

  const S1 := 0
  const S10 := 1
  const MI1 := 2
  const MI10 := 3
  const H1 := 4
  const H10 := 5
  const WEEK := 6
  const D1 := 7
  const D10 := 8
  const MO1 := 9
  const MO10 := 10
  const Y1 := 11
  const Y10 := 12

  type Regs = r: seq<nat> | |r| == 16 witness seq(16, _ => 0)

  // ----- the fields packed in the registers --------------------------------------

  function Year(r: Regs): nat { r[Y10] % 16 * 10 + r[Y1] % 16 }
  function Month(r: Regs): nat { r[MO10] % 2 * 10 + r[MO1] % 16 }
  function Day(r: Regs): nat { r[D10] % 4 * 10 + r[D1] % 16 }
  function LeapField(r: Regs): nat { r[D10] / 4 % 4 }
  function Hour(r: Regs): nat { r[H10] % 4 * 10 + r[H1] % 16 }
  predicate Mode24(r: Regs) { r[H10] / 8 % 2 == 1 }
  predicate Pm(r: Regs) { r[H10] / 4 % 2 == 1 }

  function MonthLength(mo: nat, leap: bool): nat {
    if mo < 1 || mo > 12 then 31
    else if mo == 2 then (if leap then 29 else 28)
    else if mo == 4 || mo == 6 || mo == 9 || mo == 11 then 30
    else 31
  }

  // ----- one tick, as the register file sees it --------------------------------------

  function YearTick(r: Regs): Regs {
    var y := (Year(r) + 1) % 100;
    r[Y1 := y % 10][Y10 := y / 10][D10 := r[D10] % 4 + (LeapField(r) + 3) % 4 * 4]
  }

  function MonthTick(r: Regs): Regs {
    var mo := Month(r) + 1;
    var r1 := if mo > 12 then YearTick(r) else r;
    var m := if mo > 12 then 1 else mo;
    SetMonth(r1, m)
  }

  /** The bits beside the month's tens digit are kept. */
  function SetMonth(r: Regs, m: nat): Regs {
    r[MO1 := m % 10][MO10 := r[MO10] % 16 / 2 * 2 + m / 10 % 2]
  }

  /** The leap field shares a register with the day's tens digit. */
  function SetDay(r: Regs, d: nat): Regs {
    r[D1 := d % 10][D10 := LeapField(r) * 4 + d / 10 % 4]
  }

  function DayTick(r: Regs): Regs {
    var w := r[WEEK := (r[WEEK] + 1) % 7];
    var d := Day(r) + 1;
    var over := d > MonthLength(Month(r), LeapField(r) == 0);
    var r1 := if over then MonthTick(w) else w;
    var d1 := if over then 1 else d;
    SetDay(r1, d1)
  }

  function HourTick(r: Regs): Regs {
    var h := Hour(r) + 1;
    if Mode24(r) then
      var r1 := if h > 23 then DayTick(r) else r;
      var h1 := if h > 23 then 0 else h;
      PutHour(r1, 8, h1)
    else
      var pm := if h == 12 then !Pm(r) else Pm(r);
      var r1 := if h == 12 && !pm then DayTick(r) else r;
      var h1 := if h > 12 then 1 else h;
      PutHour(r1, if pm then 4 else 0, h1)
  }

  /** The hour digits, with the mode or half-day bit in the tens register. */
  function PutHour(r: Regs, bits: nat, h: nat): Regs {
    r[H1 := h % 10][H10 := bits + h / 10]
  }

  function Tick(r: Regs): Regs {
    if r[S1] + 1 <= 9 then r[S1 := r[S1] + 1] else
    var a := r[S1 := 0];
    if r[S10] + 1 <= 5 then a[S10 := r[S10] + 1] else
    var b := a[S10 := 0];
    if r[MI1] + 1 <= 9 then b[MI1 := r[MI1] + 1] else
    var c := b[MI1 := 0];
    if r[MI10] + 1 <= 5 then c[MI10 := r[MI10] + 1] else
    HourTick(c[MI10 := 0])
  }

  // ----- what the registers mean ------------------------------------------------------

  predicate Nibbles(r: Regs) {
    forall i :: 0 <= i < 16 ==> r[i] < 16
  }

  /** Every digit is BCD and every field in its range. */
  ghost predicate Valid(r: Regs) {
    && Nibbles(r)
    && r[S1] <= 9 && r[S10] <= 5 && r[MI1] <= 9 && r[MI10] <= 5
    && r[H1] <= 9 && (if Mode24(r) then Hour(r) <= 23 else 1 <= Hour(r) <= 12)
    && r[D1] <= 9 && r[MO1] <= 9 && r[Y1] <= 9 && r[Y10] <= 9
    && 1 <= Month(r) <= 12
    && 1 <= Day(r) <= MonthLength(Month(r), LeapField(r) == 0)
    && r[WEEK] < 7
  }

  /** The leap field counts down to the next leap year. */
  ghost predicate LeapInPhase(r: Regs) {
    LeapField(r) == LeapCode(Year(r))
  }

  /** 0 in a leap year, then 3, 2, 1. */
  function LeapCode(y: nat): nat {
    (4 - y % 4) % 4
  }

  /** Days of the century before year `y`. */
  function YearStart(y: nat): nat {
    y * 365 + (y + 3) / 4
  }

  function Cumulative(mo: nat, leap: bool): nat
    requires 1 <= mo <= 13
  {
    if mo == 1 then 0 else Cumulative(mo - 1, leap) + MonthLength(mo - 1, leap)
  }

  /** Days since the start of the century. */
  function DayNumber(r: Regs): nat
    requires 1 <= Month(r) <= 12 && Day(r) >= 1
  {
    YearStart(Year(r)) + Cumulative(Month(r), LeapField(r) == 0) + Day(r) - 1
  }

  function HourOfDay(r: Regs): nat {
    if Mode24(r) then Hour(r) else FromTwelve(Hour(r), Pm(r))
  }

  function FromTwelve(h: nat, pm: bool): nat {
    h % 12 + if pm then 12 else 0
  }

  const CENTURY_DAYS := 36525
  const DAY_SECONDS := 86400

  function SecondOfDay(r: Regs): nat {
    HourOfDay(r) * 3600 + (r[MI10] * 10 + r[MI1]) * 60 + r[S10] * 10 + r[S1]
  }

  /** Seconds since the start of the century. */
  function Moment(r: Regs): nat
    requires 1 <= Month(r) <= 12 && Day(r) >= 1
  {
    DayNumber(r) * DAY_SECONDS + SecondOfDay(r)
  }

  // ----- each tick is one second ---------------------------------------------------------

  lemma CumulativeValues(leap: bool)
    ensures Cumulative(13, leap) == if leap then 366 else 365
    ensures forall mo :: 1 <= mo <= 12 ==> Cumulative(mo, leap) + MonthLength(mo, leap) <= if leap then 366 else 365
  {
    assert Cumulative(2, leap) == 31;
    var feb := if leap then 29 else 28;
    assert Cumulative(3, leap) == 31 + feb;
    assert Cumulative(4, leap) == 62 + feb;
    assert Cumulative(5, leap) == 92 + feb;
    assert Cumulative(6, leap) == 123 + feb;
    assert Cumulative(7, leap) == 153 + feb;
    assert Cumulative(8, leap) == 184 + feb;
    assert Cumulative(9, leap) == 215 + feb;
    assert Cumulative(10, leap) == 245 + feb;
    assert Cumulative(11, leap) == 276 + feb;
    assert Cumulative(12, leap) == 306 + feb;
  }

  /** The registers a day tick leaves alone. */
  ghost predicate SameTime(r: Regs, q: Regs) {
    q[S1] == r[S1] && q[S10] == r[S10] && q[MI1] == r[MI1] && q[MI10] == r[MI10] && q[H1] == r[H1] && q[H10] == r[H10]
  }

  lemma LeapArith(y: nat)
    requires y < 100
    ensures LeapCode(NextYear(y)) == NextLeap(LeapCode(y))
  {
  }

  lemma YearValue(r: Regs, y: nat)
    requires y < 100 && r[Y1] == y % 10 && r[Y10] == y / 10
    ensures Year(r) == y
  {
    TwoDigits(y);
  }

  lemma YearTickSound(r: Regs)
    requires Nibbles(r) && r[Y1] <= 9 && r[Y10] <= 9
    ensures var q := YearTick(r);
      && Nibbles(q) && q[Y1] <= 9 && q[Y10] <= 9 && SameTime(r, q)
      && Year(q) == (Year(r) + 1) % 100 && LeapField(q) == (LeapField(r) + 3) % 4
      && Day(q) == Day(r) && Month(q) == Month(r)
      && q[WEEK] == r[WEEK] && q[MO10] == r[MO10] && q[D1] == r[D1] && q[MO1] == r[MO1]
  {
    var y, q := (Year(r) + 1) % 100, YearTick(r);
    assert Year(r) <= 99;
    TwoDigits(y);
    var low, l := r[D10] % 4, (LeapField(r) + 3) % 4;
    assert q[D10] == low + l * 4;
    Packed(low, l);
    YearValue(q, y);
  }

  lemma TwoDigits(y: nat)
    requires y < 100
    ensures y / 10 <= 9 && y % 10 <= 9 && y / 10 * 10 + y % 10 == y
  {
  }

  lemma Packed(low: nat, high: nat)
    requires low < 4 && high < 4
    ensures (low + high * 4) / 4 % 4 == high && (low + high * 4) % 4 == low && low + high * 4 < 16
  {
  }

  lemma SetMonthSound(r: Regs, m: nat)
    requires Nibbles(r) && 1 <= m <= 12
    ensures var q := SetMonth(r, m);
      && Nibbles(q) && SameTime(r, q) && Month(q) == m && q[MO1] <= 9
      && Year(q) == Year(r) && LeapField(q) == LeapField(r) && Day(q) == Day(r)
      && q[Y1] == r[Y1] && q[Y10] == r[Y10] && q[WEEK] == r[WEEK] && q[D1] == r[D1]
  {
    assert m / 10 % 2 == m / 10 && m / 10 * 10 + m % 10 == m;
  }

  lemma SetDaySound(r: Regs, d: nat)
    requires Nibbles(r) && 1 <= d <= 31
    ensures var q := SetDay(r, d);
      && Nibbles(q) && SameTime(r, q) && Day(q) == d && q[D1] <= 9
      && Year(q) == Year(r) && LeapField(q) == LeapField(r) && Month(q) == Month(r)
      && q[Y1] == r[Y1] && q[Y10] == r[Y10] && q[WEEK] == r[WEEK] && q[MO1] == r[MO1]
  {
    assert d / 10 % 4 == d / 10 && d / 10 * 10 + d % 10 == d;
    var l := LeapField(r);
    assert (l * 4 + d / 10) / 4 == l && (l * 4 + d / 10) % 4 == d / 10;
  }

  /** The calendar date as numbers. */
  datatype Date = Date(y: nat, mo: nat, d: nat, leap: nat)

  function DateOf(r: Regs): Date { Date(Year(r), Month(r), Day(r), LeapField(r)) }

  /** The next day, by the rules of the chip. */
  function NextDate(t: Date): Date {
    if t.d + 1 <= MonthLength(t.mo, t.leap == 0) then t.(d := t.d + 1)
    else if t.mo + 1 <= 12 then Date(t.y, t.mo + 1, 1, t.leap)
    else Date(NextYear(t.y), 1, 1, NextLeap(t.leap))
  }

  function NextYear(y: nat): nat { (y + 1) % 100 }

  function NextLeap(l: nat): nat { (l + 3) % 4 }

  lemma DayTickDate(r: Regs)
    requires Valid(r)
    ensures var q := DayTick(r);
      && Nibbles(q) && SameTime(r, q) && DateOf(q) == NextDate(DateOf(r))
      && q[D1] <= 9 && q[MO1] <= 9 && q[Y1] <= 9 && q[Y10] <= 9 && q[WEEK] < 7
  {
    hide YearTick, SetMonth, SetDay;
    var w := r[WEEK := (r[WEEK] + 1) % 7];
    assert Nibbles(w) && DateOf(w) == DateOf(r) && SameTime(r, w);
    if Day(r) + 1 > MonthLength(Month(r), LeapField(r) == 0) {
      if Month(r) == 12 {
        YearTickSound(w);
        SetMonthSound(YearTick(w), 1);
      } else {
        SetMonthSound(w, Month(r) + 1);
      }
      SetDaySound(MonthTick(w), 1);
    } else {
      SetDaySound(w, Day(r) + 1);
    }
  }

  lemma NextDateNumber(t: Date)
    requires t.y < 100 && 1 <= t.mo <= 12 && 1 <= t.d <= MonthLength(t.mo, t.leap == 0) && t.leap == LeapCode(t.y)
    ensures var u := NextDate(t);
      && u.y < 100 && 1 <= u.mo <= 12 && 1 <= u.d <= MonthLength(u.mo, u.leap == 0) && u.leap == LeapCode(u.y)
      && NumberOf(t) < CENTURY_DAYS
      && NumberOf(u) == if NumberOf(t) == CENTURY_DAYS - 1 then 0 else NumberOf(t) + 1
  {
    var leap := t.leap == 0;
    hide Cumulative, MonthLength, YearStart, LeapCode, NextYear, NextLeap;
    CumulativeStep(t.mo, leap);
    CumulativeValues(leap);
    YearBound(t.y);
    MonthLengths(t.mo + 1, leap);
    if t.d + 1 > MonthLength(t.mo, leap) && t.mo == 12 { NewYear(t); }
  }

  /** New Year's Day follows the last of December. */
  lemma NewYear(t: Date)
    requires t.y < 100 && t.mo == 12 && t.d == MonthLength(12, t.leap == 0) && t.leap == LeapCode(t.y)
    ensures var u := Date(NextYear(t.y), 1, 1, NextLeap(t.leap));
      && u.y < 100 && MonthLength(1, u.leap == 0) == 31 && u.leap == LeapCode(u.y)
      && NumberOf(t) == YearStart(t.y + 1) - 1
      && NumberOf(u) == YearStart(u.y)
      && u.y == (if t.y == 99 then 0 else t.y + 1)
      && YearStart(t.y + 1) <= CENTURY_DAYS && YearStart(0) == 0 && YearStart(100) == CENTURY_DAYS
      && (t.y < 99 ==> YearStart(t.y + 1) < CENTURY_DAYS)
  {
    hide *;
    LeapArith(t.y);
    YearBound(t.y);
    CumulativeStep(12, t.leap == 0);
    CumulativeValues(t.leap == 0);
    CumulativeOne(NextLeap(t.leap) == 0);
    MonthLengths(1, NextLeap(t.leap) == 0);
    NextYearIs(t.y);
    if t.y < 99 { YearsIncrease(t.y); }
    LastMonth(t);
  }

  lemma LastMonth(t: Date)
    requires t.mo == 12 && t.d == MonthLength(12, t.leap == 0)
    ensures NumberOf(t) == YearStart(t.y) + Cumulative(12, t.leap == 0) + MonthLength(12, t.leap == 0) - 1
    ensures MonthLength(1, NextLeap(t.leap) == 0) == 31
    ensures NumberOf(Date(NextYear(t.y), 1, 1, NextLeap(t.leap)))
         == YearStart(NextYear(t.y)) + Cumulative(1, NextLeap(t.leap) == 0)
  {
    hide Cumulative, NextYear, NextLeap, YearStart;
  }

  lemma NextYearIs(y: nat)
    requires y < 100
    ensures NextYear(y) == if y == 99 then 0 else y + 1
  {
  }

  lemma YearsIncrease(y: nat)
    requires y < 99
    ensures YearStart(y + 1) < CENTURY_DAYS
  {
  }

  lemma CumulativeStep(mo: nat, leap: bool)
    requires 1 <= mo <= 12
    ensures Cumulative(mo + 1, leap) == Cumulative(mo, leap) + MonthLength(mo, leap)
  {
  }

  lemma CumulativeOne(leap: bool)
    ensures Cumulative(1, leap) == 0
  {
  }

  lemma MonthLengths(mo: nat, leap: bool)
    ensures 28 <= MonthLength(mo, leap) <= 31
  {
  }

  /** A year's days end where the next year's begin, and the last where the century does. */
  lemma YearBound(y: nat)
    requires y < 100
    ensures YearStart(y) + (if LeapCode(y) == 0 then 366 else 365) == YearStart(y + 1)
    ensures YearStart(y + 1) <= CENTURY_DAYS && YearStart(0) == 0 && YearStart(100) == CENTURY_DAYS
  {
  }

  function NumberOf(t: Date): nat
    requires 1 <= t.mo <= 12 && t.d >= 1
  {
    YearStart(t.y) + Cumulative(t.mo, t.leap == 0) + t.d - 1
  }

  lemma FieldsInRange(r: Regs)
    requires Valid(r)
    ensures Year(r) < 100
  {
  }

  /** A day tick moves the date one day on, modulo the century. */
  lemma DayTickSound(r: Regs)
    requires Valid(r) && LeapInPhase(r)
    ensures var q := DayTick(r);
      && Valid(q) && LeapInPhase(q) && SameTime(r, q)
      && DayNumber(r) < CENTURY_DAYS
      && DayNumber(q) == if DayNumber(r) == CENTURY_DAYS - 1 then 0 else DayNumber(r) + 1
  {
    hide DayTick, Cumulative, YearStart, LeapCode, MonthLength;
    DayTickDate(r);
    FieldsInRange(r);
    NextDateNumber(DateOf(r));
  }

  /** Only the hour registers differ. */
  ghost predicate SameButHour(r: Regs, q: Regs) {
    && q[S1] == r[S1] && q[S10] == r[S10] && q[MI1] == r[MI1] && q[MI10] == r[MI10]
    && q[WEEK] == r[WEEK] && q[D1] == r[D1] && q[D10] == r[D10] && q[MO1] == r[MO1] && q[MO10] == r[MO10]
    && q[Y1] == r[Y1] && q[Y10] == r[Y10] && q[13] == r[13] && q[14] == r[14] && q[15] == r[15]
  }

  /** An hour tick moves the time one hour on, and the date at midnight, in both modes. */
  lemma HourTickSound(r: Regs)
    requires Valid(r) && LeapInPhase(r)
    ensures var q := HourTick(r);
      && Valid(q) && LeapInPhase(q) && (Mode24(q) <==> Mode24(r))
      && q[S1] == r[S1] && q[S10] == r[S10] && q[MI1] == r[MI1] && q[MI10] == r[MI10]
      && HourOfDay(r) < 24
      && (if HourOfDay(r) < 23 then HourOfDay(q) == HourOfDay(r) + 1 && DayNumber(q) == DayNumber(r)
          else HourOfDay(q) == 0 && DayNumber(q) == if DayNumber(r) == CENTURY_DAYS - 1 then 0 else DayNumber(r) + 1)
  {
    var midnight := if Mode24(r) then Hour(r) + 1 > 23 else Hour(r) + 1 == 12 && Pm(r);
    var r1 := if midnight then DayTick(r) else r;
    DayTickSound(r);
    assert Valid(r1);
    HourDigits(r, r1);
    var q := HourTick(r);
    SameDate(r1, q);
  }

  /** The new hour, written over the registers `r1` that carry the new date. */
  lemma HourDigits(r: Regs, r1: Regs)
    requires Valid(r) && Valid(r1)
    requires r1 == if (if Mode24(r) then Hour(r) + 1 > 23 else Hour(r) + 1 == 12 && Pm(r)) then DayTick(r) else r
    ensures var q := HourTick(r);
      && SameButHour(r1, q) && q[H1] <= 9 && q[H10] < 16 && (Mode24(q) <==> Mode24(r))
      && (if Mode24(q) then Hour(q) <= 23 else 1 <= Hour(q) <= 12)
      && HourOfDay(r) < 24
      && HourOfDay(q) == (if HourOfDay(r) == 23 then 0 else HourOfDay(r) + 1)
      && (HourOfDay(r) == 23 <==> (if Mode24(r) then Hour(r) + 1 > 23 else Hour(r) + 1 == 12 && Pm(r)))
  {
    HourBounds(r);
    hide DayTick, PutHour, Hour, Mode24, Pm, SameButHour, FromTwelve;
    var h := Hour(r) + 1;
    if Mode24(r) {
      PutHourSound(r1, 8, if h > 23 then 0 else h);
    } else {
      PutHourSound(r1, if (if h == 12 then !Pm(r) else Pm(r)) then 4 else 0, if h > 12 then 1 else h);
    }
    HourWraps(Hour(r), Pm(r));
  }

  lemma HourBounds(r: Regs)
    requires Valid(r)
    ensures if Mode24(r) then Hour(r) <= 23 else 1 <= Hour(r) <= 12
  {
  }

  /** On the twelve-hour dial 11 leads to 12 of the other half-day. */
  lemma HourWraps(h: nat, pm: bool)
    requires h <= 24
    ensures 1 <= h <= 12 ==> FromTwelve(h, pm) < 24 && (FromTwelve(h, pm) == 23 <==> h == 11 && pm)
    ensures 1 <= h <= 12 && h != 11 ==> FromTwelve(if h == 12 then 1 else h + 1, pm) == FromTwelve(h, pm) + 1
    ensures h == 11 ==> FromTwelve(12, !pm) == if pm then 0 else FromTwelve(h, pm) + 1
  {
  }

  lemma PutHourSound(r: Regs, bits: nat, h: nat)
    requires h < 24 && (bits == 8 || bits == 4 || bits == 0)
    ensures var q := PutHour(r, bits, h);
      && SameButHour(r, q) && q[H1] <= 9 && q[H10] < 16 && Hour(q) == h
      && (Mode24(q) <==> bits == 8) && (Pm(q) <==> bits == 4)
  {
    SmallDigits(h);
    var q := PutHour(r, bits, h);
    assert q[H1] == h % 10 && q[H10] == bits + h / 10;
  }

  lemma SmallDigits(h: nat)
    requires h < 24
    ensures h / 10 < 4 && h % 10 <= 9 && h / 10 * 10 + h % 10 == h
    ensures (8 + h / 10) / 8 % 2 == 1 && (8 + h / 10) / 4 % 2 == 0 && (8 + h / 10) % 4 == h / 10
    ensures (h / 10) / 8 % 2 == 0 && (h / 10) / 4 % 2 == 0 && (h / 10) % 4 == h / 10
    ensures (4 + h / 10) / 8 % 2 == 0 && (4 + h / 10) / 4 % 2 == 1 && (4 + h / 10) % 4 == h / 10
  {
  }

  lemma SameDate(r: Regs, q: Regs)
    requires Valid(r) && SameButHour(r, q) && q[H1] <= 9 && q[H10] < 16
    ensures DateOf(q) == DateOf(r) && DayNumber(q) == DayNumber(r) && Nibbles(q)
  {
    hide Cumulative, YearStart;
  }

  const CENTURY_SECONDS := CENTURY_DAYS * DAY_SECONDS

  /** Every tick keeps the registers valid BCD and the leap field in phase, keeps the
      mode, and moves the decoded date and time one second on, modulo the century. */
  lemma TickSound(r: Regs)
    requires Valid(r) && LeapInPhase(r)
    ensures var q := Tick(r);
      && Valid(q) && LeapInPhase(q) && (Mode24(q) <==> Mode24(r))
      && Moment(r) < CENTURY_SECONDS
      && Moment(q) == (if Moment(r) == CENTURY_SECONDS - 1 then 0 else Moment(r) + 1)
  {
    hide YearStart, Cumulative, MonthLength, LeapCode, HourTick, HourOfDay, DayNumber, Valid, LeapInPhase, Mode24,
         Month, Day;
    var c := r[S1 := 0][S10 := 0][MI1 := 0][MI10 := 0];
    HourTurned(r, c);
    HourTickSound(c);
    DayTickSound(r);
    if r[S1] == 9 && r[S10] == 5 && r[MI1] == 9 && r[MI10] == 5 {
      assert Tick(r) == HourTick(c);
    } else {
      LowDigits(r);
    }
  }

  lemma HourTurned(r: Regs, c: Regs)
    requires Valid(r) && LeapInPhase(r) && c == r[S1 := 0][S10 := 0][MI1 := 0][MI10 := 0]
    ensures Valid(c) && LeapInPhase(c) && HourOfDay(c) == HourOfDay(r) && DayNumber(c) == DayNumber(r)
    ensures Mode24(c) == Mode24(r)
  {
    hide YearStart, Cumulative;
  }

  lemma LowDigits(r: Regs)
    requires Valid(r) && LeapInPhase(r) && !(r[S1] == 9 && r[S10] == 5 && r[MI1] == 9 && r[MI10] == 5)
    ensures var q := Tick(r);
      && Valid(q) && LeapInPhase(q) && (Mode24(q) <==> Mode24(r))
      && HourOfDay(q) == HourOfDay(r) && DayNumber(q) == DayNumber(r) && SecondOfDay(q) == SecondOfDay(r) + 1
      && SecondOfDay(q) <= HourOfDay(q) * 3600 + 3599
  {
    hide YearStart, Cumulative, MonthLength, LeapCode, HourTick;
  }

  function Ticks(r: Regs, k: nat): Regs {
    if k == 0 then r else Tick(Ticks(r, k - 1))
  }

  /** k ticks are k seconds. */
  lemma {:induction false} TicksSound(r: Regs, k: nat)
    requires Valid(r) && LeapInPhase(r)
    ensures Valid(Ticks(r, k)) && LeapInPhase(Ticks(r, k))
    ensures Moment(Ticks(r, k)) == (Moment(r) + k) % CENTURY_SECONDS
  {
    hide Tick, Valid, LeapInPhase, Moment;
    if k == 0 {
      TickSound(r);
    } else {
      TicksSound(r, k - 1);
      TickSound(Ticks(r, k - 1));
    }
  }

  // ----- the divider -----------------------------------------------------------------------

  /** The clock with its divider: `base` is the instruction count at the start of the
      current second, `held` the divider's content while STOP is high. */
  datatype Rtc = Rtc(regs: Regs, stopped: bool, base: nat, held: nat, ticks: nat)

  /** Catch the divider up to the instruction count. */
  function Advance(c: Rtc, ips: nat, insns: nat): Rtc
    decreases insns - c.base
  {
    if c.stopped || ips == 0 || insns < c.base + ips then c
    else Advance(c.(base := c.base + ips, regs := Tick(c.regs), ticks := c.ticks + 1), ips, insns)
  }

  /** The STOP pin. */
  function SetStop(c: Rtc, ips: nat, insns: nat, stop: bool): Rtc {
    if stop == c.stopped then c
    else if stop then
      var a := Advance(c, ips, insns);
      a.(held := if insns >= a.base then insns - a.base else 0, stopped := true)
    else c.(base := if insns >= c.held then insns - c.held else 0, stopped := false)
  }

  /** What can happen to the clock short of a register write. */
  datatype Event = Execute(n: nat) | Access | Stop(level: bool)

  datatype History = History(c: Rtc, insns: nat, running: nat)

  /** `running` counts the instructions executed while the oscillator runs. */
  function Happen(h: History, ips: nat, e: Event): History {
    match e
    case Execute(n) => History(h.c, h.insns + n, if h.c.stopped then h.running else h.running + n)
    case Access => h.(c := Advance(h.c, ips, h.insns))
    case Stop(level) => h.(c := SetStop(h.c, ips, h.insns, level))
  }

  function HappenAll(h: History, ips: nat, es: seq<Event>): History
    decreases |es|
  {
    if es == [] then h else HappenAll(Happen(h, ips, es[0]), ips, es[1..])
  }

  /** What is left in the divider. */
  function Residue(h: History): int {
    if h.c.stopped then h.c.held else h.insns - h.c.base
  }

  /** Instructions run are seconds ticked plus what the divider holds. */
  ghost predicate Accounted(h: History, start: Regs, ips: nat) {
    && Residue(h) >= 0 && h.c.ticks * ips + Residue(h) == h.running
    && h.c.regs == Ticks(start, h.c.ticks)
    && (h.c.stopped ==> h.c.held < ips && h.c.held <= h.insns)
  }

  lemma {:induction false} AdvanceAccounts(h: History, start: Regs, ips: nat)
    requires ips > 0 && Accounted(h, start, ips)
    ensures var h' := h.(c := Advance(h.c, ips, h.insns));
      Accounted(h', start, ips) && Residue(h') < ips && h'.c.stopped == h.c.stopped
    decreases h.insns - h.c.base
  {
    hide Tick;
    if !h.c.stopped && h.insns >= h.c.base + ips {
      var c := h.c.(base := h.c.base + ips, regs := Tick(h.c.regs), ticks := h.c.ticks + 1);
      OneMore(h.c.ticks, ips);
      AdvanceAccounts(h.(c := c), start, ips);
    }
  }

  lemma OneMore(k: nat, m: nat)
    ensures (k + 1) * m == k * m + m
  {
  }

  lemma HappenAccounts(h: History, start: Regs, ips: nat, e: Event)
    requires ips > 0 && Accounted(h, start, ips)
    ensures Accounted(Happen(h, ips, e), start, ips)
  {
    AdvanceAccounts(h, start, ips);
  }

  lemma {:induction false} HappenAllAccounts(h: History, start: Regs, ips: nat, es: seq<Event>)
    requires ips > 0 && Accounted(h, start, ips)
    ensures Accounted(HappenAll(h, ips, es), start, ips)
    decreases |es|
  {
    if es != [] {
      HappenAccounts(h, start, ips, es[0]);
      HappenAllAccounts(Happen(h, ips, es[0]), start, ips, es[1..]);
    }
  }

  /** However often the clock is accessed, and wherever STOP is raised and dropped, the
      ticks seen at the next access are the instructions run while not stopped, divided
      by the instructions per second; and the registers show exactly that many
      seconds. */
  lemma TicksDependOnRunning(start: Regs, ips: nat, base: nat, es: seq<Event>)
    requires ips > 0
    ensures var h := HappenAll(History(Rtc(start, false, base, 0, 0), base, 0), ips, es + [Access]);
      && h.c.ticks == h.running / ips
      && h.c.regs == Ticks(start, h.running / ips)
      && (Valid(start) && LeapInPhase(start) ==>
            Valid(h.c.regs) && Moment(h.c.regs) == (Moment(start) + h.running / ips) % CENTURY_SECONDS)
  {
    hide Tick, Valid, Moment, LeapInPhase, HappenAll, Advance;
    var h0 := History(Rtc(start, false, base, 0, 0), base, 0);
    HappenAllAccounts(h0, start, ips, es);
    var h1 := HappenAll(h0, ips, es);
    AdvanceAccounts(h1, start, ips);
    HappenSnoc(h0, ips, es, Access);
    var h := HappenAll(h0, ips, es + [Access]);
    Basics.Quotient(h.running, h.c.ticks, ips, Residue(h));
    if Valid(start) && LeapInPhase(start) { TicksSound(start, h.c.ticks); }
  }

  lemma {:induction false} HappenSnoc(h: History, ips: nat, es: seq<Event>, e: Event)
    ensures HappenAll(h, ips, es + [e]) == Happen(HappenAll(h, ips, es), ips, e)
    decreases |es|
  {
    if es == [] {
      assert es + [e] == [e] && [e][1..] == [];
    } else {
      assert (es + [e])[0] == es[0] && (es + [e])[1..] == es[1..] + [e];
      HappenSnoc(Happen(h, ips, es[0]), ips, es[1..], e);
    }
  }

  // ----- seeding -----------------------------------------------------------------------------

  function WeekDay(y: nat, mo: nat, d: nat): nat {
    var t := [0, 3, 2, 5, 0, 3, 5, 1, 4, 6, 2, 4, 0, 0, 0, 0];
    var yy: int := if mo < 3 then y - 1 else y;
    (yy + yy / 4 - yy / 100 + yy / 400 + t[(mo + 15) % 16] + d) % 7
  }

  /** The registers loaded from a date and time, in 24-hour mode. */
  function Seed(r: Regs, y: nat, mo: nat, d: nat, h: nat, mi: nat, s: nat): Regs {
    r[S1 := s % 10][S10 := s / 10][MI1 := mi % 10][MI10 := mi / 10]
     [H1 := h % 10][H10 := 8 + h / 10][WEEK := WeekDay(y, mo, d)]
     [D1 := d % 10][D10 := (4 - y % 4) % 4 * 4 + d / 10][MO1 := mo % 10][MO10 := mo / 10]
     [Y1 := y % 100 % 10][Y10 := y % 100 / 10]
  }

  /** Seeding with a calendar date yields valid registers in phase with the leap cycle
      that read back as that date and time. */
  lemma SeedSound(r: Regs, y: nat, mo: nat, d: nat, h: nat, mi: nat, s: nat)
    requires r[13] < 16 && r[14] < 16 && r[15] < 16
    requires 1 <= mo <= 12 && 1 <= d <= MonthLength(mo, y % 4 == 0) && h < 24 && mi < 60 && s < 60
    ensures var q := Seed(r, y, mo, d, h, mi, s);
      && Valid(q) && LeapInPhase(q) && Mode24(q)
      && DateOf(q) == Date(y % 100, mo, d, LeapCode(y)) && HourOfDay(q) == h
      && SecondOfDay(q) == h * 3600 + mi * 60 + s
  {
    SeedTime(r, y, mo, d, h, mi, s);
    hide WeekDay, MonthLength, LeapCode, HourOfDay, SecondOfDay, Hour, Mode24;
    var q := Seed(r, y, mo, d, h, mi, s);
    MonthLengths(mo, y % 4 == 0);
    YearValue(q, y % 100);
    TwoDigits(y % 100);
    DayDigits(d, LeapCode(y));
    SmallMonth(mo);
    LeapModulo(y);
    WeekDayBound(y, mo, d);
  }

  lemma SeedTime(r: Regs, y: nat, mo: nat, d: nat, h: nat, mi: nat, s: nat)
    requires h < 24 && mi < 60 && s < 60
    ensures var q := Seed(r, y, mo, d, h, mi, s);
      && Mode24(q) && Hour(q) == h && HourOfDay(q) == h && q[H1] <= 9 && q[H10] < 16
      && q[S1] <= 9 && q[S10] <= 5 && q[MI1] <= 9 && q[MI10] <= 5
      && SecondOfDay(q) == h * 3600 + mi * 60 + s
      && q[D10] == LeapCode(y) * 4 + d / 10
  {
    hide WeekDay;
    TwoDigits(mi);
    TwoDigits(s);
    SmallDigits(h);
  }

  lemma DayDigits(d: nat, l: nat)
    requires d <= 31 && l < 4
    ensures (l * 4 + d / 10) % 4 == d / 10 && (l * 4 + d / 10) / 4 % 4 == l && d / 10 * 10 + d % 10 == d &&
        l * 4 + d / 10 < 16
    ensures d % 10 % 16 == d % 10 <= 9
  {
  }

  lemma SmallMonth(mo: nat)
    requires mo <= 12
    ensures mo / 10 % 2 == mo / 10 && mo / 10 * 10 + mo % 10 == mo && mo % 10 % 16 == mo % 10 <= 9
  {
  }

  lemma LeapModulo(y: nat)
    ensures LeapCode(y % 100) == LeapCode(y) < 4 && (LeapCode(y) == 0 <==> y % 4 == 0) && (y % 100) % 4 == y % 4
  {
    assert y == 4 * (25 * (y / 100)) + y % 100;
    ModFour(25 * (y / 100), y % 100);
  }

  lemma ModFour(k: nat, r: nat)
    ensures (4 * k + r) % 4 == r % 4
  {
  }

  lemma WeekDayBound(y: nat, mo: nat, d: nat)
    ensures WeekDay(y, mo, d) < 7
  {
  }

  // ----- the calendar and the day of the week -----------------------------------------------------

  /** Days of the year before each month. */
  lemma CalendarTable(leap: bool)
    ensures forall mo :: 1 <= mo <= 12 ==>
      Cumulative(mo, leap) == [0, 31, 59, 90, 120, 151, 181, 212, 243, 273, 304, 334][mo - 1]
                            + (if leap && mo >= 3 then 1 else 0)
  {
    CumulativeValues(leap);
    var feb := if leap then 29 else 28;
    assert Cumulative(1, leap) == 0 && Cumulative(2, leap) == 31 && Cumulative(3, leap) == 31 + feb;
    assert Cumulative(4, leap) == 62 + feb && Cumulative(5, leap) == 92 + feb && Cumulative(6, leap) == 123 + feb;
    assert Cumulative(7, leap) == 153 + feb && Cumulative(8, leap) == 184 + feb && Cumulative(9, leap) == 215 + feb;
    assert Cumulative(10, leap) == 245 + feb && Cumulative(11, leap) == 276 + feb;
    assert Cumulative(12, leap) == 306 + feb;
  }

  /** The weekday of a day of the century that starts on Saturday, 1 January 2000; Sunday is 0. */
  function WeekDayOf(number: nat): nat { (number + 6) % 7 }

  lemma SameModSeven(a: int, b: int, k: int)
    requires a == b + 7 * k
    ensures a % 7 == b % 7
  {
  }

  lemma CenturySums(n: nat)
    requires n < 100
    ensures (2000 + n) / 4 == 500 + n / 4 && (2000 + n) / 100 == 20 && (2000 + n) / 400 == 5
    ensures (1999 + n) / 4 == 499 + (n + 3) / 4 && (1999 + n) / 400 - (1999 + n) / 100 == -15
    ensures (n + 3) / 4 + (if n % 4 == 0 then 1 else 0) == n / 4 + 1
    ensures LeapCode(n) == 0 <==> n % 4 == 0
  {
  }

  /** The congruence that seeds the weekday is right for every date from 2000 to 2099. */
  lemma WeekDayRight(y: nat, mo: nat, d: nat)
    requires 2000 <= y < 2100 && 1 <= mo <= 12 && 1 <= d
    ensures WeekDay(y, mo, d) == WeekDayOf(NumberOf(Date(y - 2000, mo, d, LeapCode(y - 2000))))
  {
    hide WeekDay, Cumulative, LeapCode;
    var n := y - 2000;
    CalendarTable(LeapCode(n) == 0);
    CenturySums(n);
    if mo < 3 { WeekDayEarly(n, mo, d); } else { WeekDayLate(n, mo, d); }
  }

  lemma WeekDayEarly(n: nat, mo: nat, d: nat)
    requires n < 100 && 1 <= mo < 3 && d >= 1
    ensures WeekDay(2000 + n, mo, d) == WeekDayOf(n * 365 + (n + 3) / 4 + (if mo == 1 then 0 else 31) + d - 1)
  {
    CenturySums(n);
    var sum, before := 2483 + n + (n + 3) / 4 + (if mo == 1 then 0 else 3) + d, if mo == 1 then 0 else 31;
    SameModSeven(n * 365 + (n + 3) / 4 + before + d - 1 + 6, sum, 52 * n - if mo == 1 then 354 else 350);
  }

  lemma WeekDayLate(n: nat, mo: nat, d: nat)
    requires n < 100 && 3 <= mo <= 12
    ensures var before := [0, 31, 59, 90, 120, 151, 181, 212, 243, 273, 304, 334][mo - 1];
      WeekDay(2000 + n, mo, d) == WeekDayOf(n * 365 + (n + 3) / 4 + before + (if n % 4 == 0 then 1 else 0) + d - 1)
  {
    CenturySums(n);
    var before := [0, 31, 59, 90, 120, 151, 181, 212, 243, 273, 304, 334][mo - 1];
    var t := [0, 3, 2, 5, 0, 3, 5, 1, 4, 6, 2, 4][mo - 1];
    SameModSeven(n * 365 + n / 4 + 1 + before + d - 1 + 6, 2485 + n + n / 4 + t + d,
                 52 * n + (before + 6 - t) / 7 - 355);
  }

  lemma DayTickWeek(r: Regs)
    ensures DayTick(r)[WEEK] == (r[WEEK] + 1) % 7
  {
    hide MonthLength;
  }

  lemma HourTickWeek(r: Regs)
    requires Valid(r) && LeapInPhase(r)
    ensures HourTick(r)[WEEK] == if HourOfDay(r) == 23 then (r[WEEK] + 1) % 7 else r[WEEK]
  {
    hide DayTick, HourTick, Valid, LeapInPhase, HourOfDay;
    var r1 := if (if Mode24(r) then Hour(r) + 1 > 23 else Hour(r) + 1 == 12 && Pm(r)) then DayTick(r) else r;
    DayTickSound(r);
    HourDigits(r, r1);
    DayTickWeek(r);
  }

  /** A tick moves the time of day one second on, and the weekday exactly at midnight. */
  lemma TickWeek(r: Regs)
    requires Valid(r) && LeapInPhase(r)
    ensures var midnight := SecondOfDay(r) == DAY_SECONDS - 1;
      && SecondOfDay(r) < DAY_SECONDS
      && SecondOfDay(Tick(r)) == (if midnight then 0 else SecondOfDay(r) + 1)
      && Tick(r)[WEEK] == (if midnight then (r[WEEK] + 1) % 7 else r[WEEK])
  {
    hide YearStart, Cumulative, MonthLength, LeapCode, HourTick, HourOfDay, DayNumber, Valid, LeapInPhase, Mode24,
         Month, Day;
    var c := r[S1 := 0][S10 := 0][MI1 := 0][MI10 := 0];
    HourTurned(r, c);
    HourTickSound(c);
    HourTickWeek(c);
    Digits(r);
    if r[S1] == 9 && r[S10] == 5 && r[MI1] == 9 && r[MI10] == 5 {
      assert Tick(r) == HourTick(c);
    } else {
      LowDigits(r);
    }
  }

  lemma Digits(r: Regs)
    requires Valid(r)
    ensures r[S1] <= 9 && r[S10] <= 5 && r[MI1] <= 9 && r[MI10] <= 5
  {
  }

  /** Over `k` ticks the weekday moves on once for each midnight passed. */
  lemma {:induction false} TicksWeek(r: Regs, k: nat)
    requires Valid(r) && LeapInPhase(r)
    ensures var q := Ticks(r, k);
      && SecondOfDay(q) == (SecondOfDay(r) + k) % DAY_SECONDS
      && q[WEEK] == (if k == 0 then r[WEEK] else (r[WEEK] + (SecondOfDay(r) + k) / DAY_SECONDS) % 7)
  {
    hide Tick, Valid, LeapInPhase, SecondOfDay, Moment;
    TickWeek(r);
    WeekRange(r);
    if k > 0 {
      TicksWeek(r, k - 1);
      TicksSound(r, k - 1);
      TickWeek(Ticks(r, k - 1));
      var n := SecondOfDay(r) + k - 1;
      NextSecond(n);
      WeekOn(r[WEEK], n / DAY_SECONDS);
      if k == 1 { WeekNone(r[WEEK], n); }
    }
  }

  lemma NextSecond(n: nat)
    ensures n % DAY_SECONDS == DAY_SECONDS - 1 ==>
              (n + 1) % DAY_SECONDS == 0 && (n + 1) / DAY_SECONDS == n / DAY_SECONDS + 1
    ensures n % DAY_SECONDS != DAY_SECONDS - 1 ==>
              (n + 1) % DAY_SECONDS == n % DAY_SECONDS + 1 && (n + 1) / DAY_SECONDS == n / DAY_SECONDS
  {
  }

  lemma WeekOn(w: nat, days: nat)
    ensures ((w + days) % 7 + 1) % 7 == (w + (days + 1)) % 7
  {
  }

  lemma WeekNone(w: nat, n: nat)
    requires w < 7 && n < DAY_SECONDS
    ensures n / DAY_SECONDS == 0 && n % DAY_SECONDS == n && (w + n / DAY_SECONDS) % 7 == w
  {
  }

  lemma WeekRange(r: Regs)
    requires Valid(r)
    ensures r[WEEK] < 7
  {
  }

  /** A clock seeded with a date from 2000 to 2099 shows the right weekday ever after, until the
      century ends. */
  lemma SeededWeek(r: Regs, y: nat, mo: nat, d: nat, h: nat, mi: nat, s: nat, k: nat)
    requires r[13] < 16 && r[14] < 16 && r[15] < 16 && 2000 <= y < 2100
    requires 1 <= mo <= 12 && 1 <= d <= MonthLength(mo, y % 4 == 0) && h < 24 && mi < 60 && s < 60
    ensures var q := Seed(r, y, mo, d, h, mi, s);
            var now := Ticks(q, k);
      && Valid(q) && Valid(now)
      && (Moment(q) + k < CENTURY_SECONDS ==> now[WEEK] == WeekDayOf(DayNumber(now)))
  {
    hide Seed, Ticks, Valid, LeapInPhase, DayNumber, SecondOfDay, Moment, WeekDayOf, DateOf, HourOfDay, LeapCode,
         MonthLength, Mode24, Month, Day;
    SeedSound(r, y, mo, d, h, mi, s);
    var q := Seed(r, y, mo, d, h, mi, s);
    TicksSound(q, k);
    TicksWeek(q, k);
    var now := Ticks(q, k);
    TickWeek(q);
    TickWeek(now);
    SeededDay(r, y, mo, d, h, mi, s);
    HasDate(q);
    HasDate(now);
    MomentIs(q);
    MomentIs(now);
    if Moment(q) + k < CENTURY_SECONDS {
      assert Moment(now) == Moment(q) + k;
      DaysOn(DayNumber(q), SecondOfDay(q) + k, DayNumber(now), SecondOfDay(now));
      WeekFrom(q[WEEK], DayNumber(q), (SecondOfDay(q) + k) / DAY_SECONDS);
    }
  }

  lemma MomentIs(r: Regs)
    requires 1 <= Month(r) <= 12 && 1 <= Day(r)
    ensures Moment(r) == DayNumber(r) * DAY_SECONDS + SecondOfDay(r)
  {
    hide DayNumber, SecondOfDay;
  }

  lemma HasDate(r: Regs)
    requires Valid(r)
    ensures 1 <= Month(r) <= 12 && 1 <= Day(r)
  {
  }

  lemma SeededDay(r: Regs, y: nat, mo: nat, d: nat, h: nat, mi: nat, s: nat)
    requires 2000 <= y < 2100 && 1 <= mo <= 12 && d >= 1
    ensures var q := Seed(r, y, mo, d, h, mi, s);
      DateOf(q) == Date(y % 100, mo, d, LeapCode(y)) ==> q[WEEK] == WeekDayOf(DayNumber(q))
  {
    hide Cumulative, YearStart, WeekDay, LeapCode;
    WeekDayRight(y, mo, d);
    InCentury(y);
  }

  lemma InCentury(y: nat)
    requires 2000 <= y < 2100
    ensures y % 100 == y - 2000 && LeapCode(y) == LeapCode(y - 2000)
  {
  }

  lemma DaysOn(day: nat, n: nat, day': nat, n': nat)
    requires n' < DAY_SECONDS && day * DAY_SECONDS + n == day' * DAY_SECONDS + n'
    ensures day' == day + n / DAY_SECONDS
  {
    Basics.Quotient(n, day' - day, DAY_SECONDS, n');
  }

  lemma WeekFrom(w: nat, day: nat, days: nat)
    requires w == WeekDayOf(day)
    ensures (w + days) % 7 == WeekDayOf(day + days)
  {
  }

  // ----- the clock object ----------------------------------------------------------------------

  class RealTimeClock {
    const regs: array<nat>
    const ips: nat
    var stopped: bool
    var base: nat
    var held: nat
    var ticks: nat

    constructor (ips: nat, insns: nat)
      requires ips > 0
      ensures fresh(regs) && regs.Length == 16 && this.ips == ips
      ensures State() == Rtc(seq(16, _ => 0), false, insns, 0, 0)
    {
      regs := new nat[16](_ => 0);
      this.ips := ips;
      stopped, base, held, ticks := false, insns, 0, 0;
      new;
      assert regs[..] == seq(16, _ => 0);
    }

    function State(): Rtc
      requires regs.Length == 16
      reads this, regs
    {
      Rtc(regs[..], stopped, base, held, ticks)
    }

    method YearTickInPlace()
      requires regs.Length == 16
      modifies regs
      ensures regs[..] == YearTick(old(regs[..]))
    {
      var y := regs[Y10] % 16 * 10 + regs[Y1] % 16;
      y := (y + 1) % 100;
      regs[Y1] := y % 10;
      regs[Y10] := y / 10;
      regs[D10] := regs[D10] % 4 + (regs[D10] / 4 % 4 + 3) % 4 * 4;
    }

    method DayTickInPlace()
      requires regs.Length == 16
      modifies regs
      ensures regs[..] == DayTick(old(regs[..]))
    {
      var d := regs[D10] % 4 * 10 + regs[D1] % 16;
      var mo := regs[MO10] % 2 * 10 + regs[MO1] % 16;
      var leap := regs[D10] / 4 % 4 == 0;
      regs[WEEK] := (regs[WEEK] + 1) % 7;
      assert regs[..] == old(regs[..])[WEEK := (old(regs[..])[WEEK] + 1) % 7];
      d := d + 1;
      if d > MonthLength(mo, leap) {
        d := 1;
        mo := mo + 1;
        if mo > 12 {
          mo := 1;
          YearTickInPlace();
        }
        regs[MO1] := mo % 10;
        regs[MO10] := regs[MO10] % 16 / 2 * 2 + mo / 10 % 2;
      }
      regs[D1] := d % 10;
      regs[D10] := regs[D10] / 4 % 4 * 4 + d / 10 % 4;
    }

    method HourTickInPlace()
      requires regs.Length == 16
      modifies regs
      ensures regs[..] == HourTick(old(regs[..]))
    {
      hide DayTick;
      var h10 := regs[H10];
      var h := h10 % 4 * 10 + regs[H1] % 16;
      h := h + 1;
      if h10 / 8 % 2 == 1 {
        if h > 23 {
          h := 0;
          DayTickInPlace();
        }
        regs[H1] := h % 10;
        regs[H10] := 8 + h / 10;
      } else {
        var pm := h10 / 4 % 2 == 1;
        if h > 12 {
          h := 1;
        } else if h == 12 {
          pm := !pm;
          if !pm {
            DayTickInPlace();
          }
        }
        regs[H1] := h % 10;
        regs[H10] := (if pm then 4 else 0) + h / 10;
      }
    }

    method TickInPlace()
      requires regs.Length == 16
      modifies regs, this`ticks
      ensures regs[..] == Tick(old(regs[..])) && ticks == old(ticks) + 1
    {
      hide HourTick;
      ticks := ticks + 1;
      regs[S1] := regs[S1] + 1;
      if regs[S1] > 9 {
        regs[S1] := 0;
        regs[S10] := regs[S10] + 1;
        if regs[S10] > 5 {
          regs[S10] := 0;
          regs[MI1] := regs[MI1] + 1;
          if regs[MI1] > 9 {
            regs[MI1] := 0;
            regs[MI10] := regs[MI10] + 1;
            if regs[MI10] > 5 {
              regs[MI10] := 0;
              assert regs[..] == old(regs[..])[S1 := 0][S10 := 0][MI1 := 0][MI10 := 0];
              HourTickInPlace();
            }
          }
        }
      }
    }

    method CatchUp(insns: nat)
      requires regs.Length == 16 && ips > 0
      modifies this, regs
      ensures State() == Advance(old(State()), ips, insns)
    {
      hide Tick;
      if stopped {
        return;
      }
      ghost var whole := Advance(State(), ips, insns);
      while insns >= base + ips
        invariant !stopped && whole == Advance(State(), ips, insns)
        decreases insns - base
      {
        base := base + ips;
        TickInPlace();
      }
    }

    method DriveStop(insns: nat, stop: bool)
      requires regs.Length == 16 && ips > 0
      modifies this, regs
      ensures State() == SetStop(old(State()), ips, insns, stop)
    {
      if stop == stopped {
        return;
      }
      if stop {
        CatchUp(insns);
        held := if insns >= base then insns - base else 0;
        stopped := true;
      } else {
        base := if insns >= held then insns - held else 0;
        stopped := false;
      }
    }
  }
}
