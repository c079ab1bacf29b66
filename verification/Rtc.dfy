/** Calendar time in the CMOS clock, as drivers/RTC/Rtc.c keeps it. */
module Rtc {
  import opened Words

  // ----- the calendar

  predicate IsLeapYear(y: nat) { (y % 4 == 0 && y % 100 != 0) || y % 400 == 0 }

  function YearLength(y: nat): nat { if IsLeapYear(y) then 366 else 365 }

  const DAYS_IN_MONTH: seq<nat> := [31, 28, 31, 30, 31, 30, 31, 31, 30, 31, 30, 31]

  function MonthLength(y: nat, m: nat): nat
    requires 1 <= m <= 12
  {
    DAYS_IN_MONTH[m - 1] + if m == 2 && IsLeapYear(y) then 1 else 0
  }

  /** Days from 1 January 1970 to 1 January of year y. */
  function DaysToYear(y: nat): nat
  {
    if y <= 1970 then 0 else DaysToYear(y - 1) + YearLength(y - 1)
  }

  /** Days from 1 January to the first of month m. */
  function DaysToMonth(y: nat, m: nat): nat
    requires m <= 13
  {
    if m <= 1 then 0 else DaysToMonth(y, m - 1) + MonthLength(y, m - 1)
  }

  /** Leap years before y. */
  function LeapsBefore(y: nat): int
    requires y > 0
  {
    (y - 1) / 4 - (y - 1) / 100 + (y - 1) / 400
  }

  lemma LeapCount(y: nat)
    requires y > 0
    ensures LeapsBefore(y + 1) == LeapsBefore(y) + if IsLeapYear(y) then 1 else 0
  {
    QuotientStep(y, 4);
    QuotientStep(y, 100);
    QuotientStep(y, 400);
    Centuries(y);
  }

  lemma Centuries(y: nat)
    ensures y % 400 == 0 ==> y % 100 == 0
    ensures y % 100 == 0 ==> y % 4 == 0
  {
    var q, r := y / 400, y / 100;
    if y % 400 == 0 { assert y == 100 * (4 * q); }
    if y % 100 == 0 { assert y == 4 * (25 * r); }
  }

  lemma QuotientStep(y: nat, d: nat)
    requires y > 0 && d in {4, 100, 400}
    ensures y / d == (y - 1) / d + if y % d == 0 then 1 else 0
  {
  }

  /** The sum of the year lengths in closed form. */
  lemma {:induction false} DaysToYearClosed(y: nat)
    requires y >= 1970
    ensures DaysToYear(y) == 365 * (y - 1970) + LeapsBefore(y) - LeapsBefore(1970)
  {
    if y > 1970 {
      DaysToYearClosed(y - 1);
      LeapCount(y - 1);
    }
  }

  lemma MonthTable(y: nat)
    ensures var f := if IsLeapYear(y) then 1 else 0;
            && DaysToMonth(y, 1) == 0 && DaysToMonth(y, 2) == 31 && DaysToMonth(y, 3) == 59 + f
            && DaysToMonth(y, 4) == 90 + f && DaysToMonth(y, 5) == 120 + f && DaysToMonth(y, 6) == 151 + f
            && DaysToMonth(y, 7) == 181 + f && DaysToMonth(y, 8) == 212 + f && DaysToMonth(y, 9) == 243 + f
            && DaysToMonth(y, 10) == 273 + f && DaysToMonth(y, 11) == 304 + f && DaysToMonth(y, 12) == 334 + f
            && DaysToMonth(y, 13) == YearLength(y)
  {
    assert DaysToMonth(y, 3) == DaysToMonth(y, 2) + MonthLength(y, 2);
    assert DaysToMonth(y, 5) == DaysToMonth(y, 4) + 30 == DaysToMonth(y, 3) + 61;
    assert DaysToMonth(y, 7) == DaysToMonth(y, 6) + 30 == DaysToMonth(y, 5) + 61;
    assert DaysToMonth(y, 9) == DaysToMonth(y, 8) + 31 == DaysToMonth(y, 7) + 62;
    assert DaysToMonth(y, 11) == DaysToMonth(y, 10) + 31 == DaysToMonth(y, 9) + 61;
    assert DaysToMonth(y, 13) == DaysToMonth(y, 12) + 31 == DaysToMonth(y, 11) + 61;
  }

  /** Days from the first of month m to the end of the year. */
  function YearEnd(y: nat, m: nat): int
    requires m <= 13
  {
    DaysToMonth(y, 13) - DaysToMonth(y, m)
  }

  lemma YearEndStep(y: nat, m: nat)
    requires 1 <= m <= 12
    ensures YearEnd(y, m) == MonthLength(y, m) + YearEnd(y, m + 1) && YearEnd(y, 13) == 0
    ensures DaysToMonth(y, m + 1) == DaysToMonth(y, m) + MonthLength(y, m)
  {
  }

  /** Any day of any month falls inside its year, whatever the year's February. */
  lemma WithinYear(y: nat, month: nat, day: nat)
    requires 1 <= month <= 12 && 1 <= day <= 31 && (month == 2 ==> day <= 29)
    requires month in {4, 6, 9, 11} ==> day <= 30
    ensures DaysToMonth(y, month) + day - 1 < YearLength(y)
  {
    MonthTable(y);
  }

  // ----- BCD

  function BcdToBinary(bcd: Byte): Byte { bcd % 16 + bcd / 16 * 10 }

  /** The tens digit is shifted out of the byte when it does not fit. */
  function BinaryToBcd(n: Byte): Byte { n / 10 * 16 % 256 + n % 10 }

  lemma BcdRoundTrip(n: Byte)
    ensures BcdToBinary(BinaryToBcd(n)) == n % 160
  {
    var t, u := n / 10, n % 10;
    var tens := if t < 16 then t else t - 16;
    TensDigit(t, tens);
    assert BinaryToBcd(n) == 16 * tens + u;
    NibblesOf(tens, u);
    hide BinaryToBcd;
    assert n == 10 * t + u;
  }

  lemma TensDigit(t: nat, tens: nat)
    requires t < 26 && tens == if t < 16 then t else t - 16
    ensures t * 16 % 256 == 16 * tens
  {
  }

  lemma NibblesOf(high: nat, low: nat)
    requires low < 16
    ensures (16 * high + low) / 16 == high && (16 * high + low) % 16 == low
  {
  }

  // ----- the clock's registers

  datatype DateTime = DateTime(second: Byte, minute: Byte, hour: Byte, day: Byte, month: Byte, year: nat)

  const SECONDS := 0x00
  const MINUTES := 0x02
  const HOURS := 0x04
  const DAY := 0x07
  const MONTH := 0x08
  const YEAR := 0x09
  const STATUS_A := 0x0A
  const STATUS_B := 0x0B
  const CENTURY := 0x32
  const CMOS_ADDRESS := 0x70

  /** Bit 2 of status B: registers hold binary, not BCD. */
  predicate BinaryMode(statusB: Byte) { statusB / 4 % 2 == 1 }
  /** Bit 1 of status B: 24-hour format. */
  predicate FullDay(statusB: Byte) { statusB / 2 % 2 == 1 }

  function Decode(statusB: Byte, b: Byte): Byte { if BinaryMode(statusB) then b else BcdToBinary(b) }
  function Encode(statusB: Byte, b: Byte): Byte { if BinaryMode(statusB) then b else BinaryToBcd(b) }

  /** The hour, with the PM flag of the 12-hour format resolved. */
  function HourOf(statusB: Byte, h: Byte): Byte
  {
    if !FullDay(statusB) && h / 128 % 2 == 1 then (h % 128 + 12) % 24 else h
  }

  function FullYear(year: Byte, century: Byte): nat { (year as nat) + (century as nat) * 100 }

  /** The time a register file shows. Every decoded register fits its field. */
  function Shown(r: seq<Byte>): DateTime
    requires |r| == 128
  {
    var b := r[STATUS_B];
    DateTime(Decode(b, r[SECONDS]), Decode(b, r[MINUTES]), HourOf(b, Decode(b, r[HOURS])),
             Decode(b, r[DAY]), Decode(b, r[MONTH]), FullYear(Decode(b, r[YEAR]), Decode(b, r[CENTURY])))
  }

  /** 23:58:59 on 31 December 1999, in BCD and in binary, 24 hours. */
  lemma ShownDigits(r: seq<Byte>)
    requires |r| == 128
    requires r[0x00] == 0x59 && r[0x02] == 0x58 && r[0x04] == 0x23 && r[0x07] == 0x31 && r[0x08] == 0x12
    requires r[0x09] == 0x99 && r[0x32] == 0x19 && r[0x0B] == 0x02
    ensures Shown(r) == DateTime(59, 58, 23, 31, 12, 1999)
  {
  }

  lemma ShownBinary(r: seq<Byte>)
    requires |r| == 128
    requires r[0x00] == 59 && r[0x02] == 58 && r[0x04] == 23 && r[0x07] == 31 && r[0x08] == 12
    requires r[0x09] == 99 && r[0x32] == 19 && r[0x0B] == 0x06
    ensures Shown(r) == DateTime(59, 58, 23, 31, 12, 1999)
  {
  }

  /** The hour register of an MC146818 clock at hour h: 12-hour format counts 12, 1, .., 11 and
      sets the top bit in the afternoon. Bit 1 of status B means 24 hours, bit 2 binary. */
  function HourRegister(statusB: Byte, h: Byte): Byte
    requires h < 24
  {
    var shown := if statusB / 2 % 2 == 1 then h else if h % 12 == 0 then 12 else h % 12;
    var digits := if statusB / 4 % 2 == 1 then shown else shown / 10 * 16 + shown % 10;
    if statusB / 2 % 2 == 0 && h >= 12 then digits + 128 else digits
  }

  /** The hour is read right exactly in 24-hour format, from 1 to 11 in the morning, and in
      binary also from 1 to 11 in the afternoon. */
  lemma HourIsRight(statusB: Byte, h: Byte)
    requires h < 24
    ensures HourOf(statusB, Decode(statusB, HourRegister(statusB, h))) == h <==>
              statusB / 2 % 2 == 1 || 1 <= h <= 11 || (statusB / 4 % 2 == 1 && 13 <= h)
  {
    hide HourRegister, HourOf, Decode;
    if statusB / 2 % 2 == 1 {
      HourOfFullDay(statusB, h);
    } else if statusB / 4 % 2 == 1 {
      HourOfBinary(statusB, h);
    } else {
      HourOfBcd(statusB, h);
    }
  }

  lemma HourOfFullDay(statusB: Byte, h: Byte)
    requires h < 24 && statusB / 2 % 2 == 1
    ensures HourOf(statusB, Decode(statusB, HourRegister(statusB, h))) == h
  {
    TwoDigits(h);
  }

  lemma HourOfBinary(statusB: Byte, h: Byte)
    requires h < 24 && statusB / 2 % 2 == 0 && statusB / 4 % 2 == 1
    ensures HourOf(statusB, Decode(statusB, HourRegister(statusB, h))) == h <==> 1 <= h <= 11 || 13 <= h
  {
    var n := HourRegister(statusB, h);
    assert n == if h == 0 then 12 else if h < 12 then h else if h == 12 then 140 else h + 116;
  }

  lemma HourOfBcd(statusB: Byte, h: Byte)
    requires h < 24 && statusB / 2 % 2 == 0 && statusB / 4 % 2 == 0
    ensures HourOf(statusB, Decode(statusB, HourRegister(statusB, h))) == h <==> 1 <= h <= 11
  {
    var twelve := if h % 12 == 0 then 12 else h % 12;
    var n := twelve / 10 * 16 + twelve % 10;
    assert HourRegister(statusB, h) == if h >= 12 then n + 128 else n;
    hide HourRegister, BcdToBinary;
    TwoDigits(twelve);
    AfternoonDigits(n);
  }

  /** The afternoon bit counts as eight more tens. */
  lemma AfternoonDigits(n: Byte)
    requires n < 128
    ensures BcdToBinary(n + 128) == BcdToBinary(n) + 80
  {
  }

  lemma TwoDigits(h: Byte)
    requires h < 100
    ensures h / 10 * 16 + h % 10 < 160 && (h < 80 ==> h / 10 * 16 + h % 10 < 128)
    ensures BcdToBinary(h / 10 * 16 + h % 10) == h
  {
    var t, u := h / 10, h % 10;
    assert (16 * t + u) / 16 == t && (16 * t + u) % 16 == u;
  }

  /** Three in the afternoon in BCD and 12-hour format is shown as 83, midnight as 12. */
  lemma AfternoonIsLost()
    ensures HourRegister(0, 15) == 0x83 && HourOf(0, Decode(0, 0x83)) == 83
    ensures HourRegister(0, 0) == 0x12 && HourOf(0, Decode(0, 0x12)) == 12
  {
  }

  /** The Unix time of a date. */
  function UnixTime(t: DateTime): nat
    requires 1 <= t.month <= 12 && t.day >= 1
  {
    (DaysToYear(t.year) + DaysToMonth(t.year, t.month) + t.day - 1) * 86400
    + (t.hour as nat) * 3600 + (t.minute as nat) * 60 + t.second
  }

  /** The first second of March 2000, and the last of 2099. */
  lemma MarchOf2000()
    ensures UnixTime(DateTime(0, 0, 0, 1, 3, 2000)) == 951868800
  {
    DaysToYearClosed(2000);
    assert DaysToMonth(2000, 3) == 60;
    hide DaysToYear, DaysToMonth;
    assert DaysToYear(2000) == 10957;
  }

  lemma EndOf2099()
    ensures UnixTime(DateTime(59, 59, 23, 31, 12, 2099)) == 4102444799
  {
    hide DaysToYear, DaysToMonth;
    DaysToYearClosed(2099);
    PlainYear(2099);
    assert DaysToYear(2099) == 47117;
  }

  lemma PlainYear(y: nat)
    requires !IsLeapYear(y)
    ensures DaysToMonth(y, 12) == 334
  {
    hide IsLeapYear;
    assert DaysToMonth(y, 2) == 31 && DaysToMonth(y, 3) == 59;
    assert DaysToMonth(y, 4) == 90 && DaysToMonth(y, 5) == 120;
    assert DaysToMonth(y, 6) == 151 && DaysToMonth(y, 7) == 181;
    assert DaysToMonth(y, 8) == 212 && DaysToMonth(y, 9) == 243;
    assert DaysToMonth(y, 10) == 273 && DaysToMonth(y, 11) == 304;
  }

  predicate ValidDate(t: DateTime)
  {
    && t.second < 60 && t.minute < 60 && t.hour < 24
    && 1 <= t.month <= 12 && 1 <= t.day <= MonthLength(t.year, t.month)
  }

  // ----- the year loop: dt.year is 16 bits wide

  function Year16(k: nat): nat { (1970 + k) % 0x1_0000 }

  /** Days in the first k turns of the year loop. */
  function Elapsed(k: nat): nat
  {
    if k == 0 then 0 else Elapsed(k - 1) + YearLength(Year16(k - 1))
  }

  /** Until the year wraps, that is the calendar. */
  lemma {:induction false} ElapsedIsCalendar(k: nat)
    requires 1970 + k <= 0x1_0000
    ensures Elapsed(k) == DaysToYear(1970 + k)
  {
    hide YearLength;
    if k > 0 { ElapsedIsCalendar(k - 1); }
  }

  lemma {:induction false} ElapsedGrows(i: nat, k: nat)
    requires i <= k
    ensures Elapsed(i) <= Elapsed(k)
    decreases k
  {
    if i < k { ElapsedGrows(i, k - 1); }
  }

  /** The date the conversion loops find for a day number: the year loop makes k
      turns, the month loop stays within the year. */
  ghost predicate DateOf(days: nat, k: nat, t: DateTime)
  {
    && t.year == Year16(k) && ValidDate(t)
    && days == Elapsed(k) + DaysToMonth(t.year, t.month) + t.day - 1
  }

  // ----- when the round trip is exact

  /** The first year whose century does not survive its register. */
  function YearLimit(statusB: Byte): nat { if BinaryMode(statusB) then 25600 else 16000 }

  /** The same limit as a Unix time. */
  function TimeLimit(statusB: Byte): nat { if BinaryMode(statusB) then 745_690_752_000 else 442_744_012_800 }

  lemma LimitsAgree(statusB: Byte)
    ensures TimeLimit(statusB) == DaysToYear(YearLimit(statusB)) * 86400
  {
    hide DaysToYear;
    DaysToYearClosed(16000);
    DaysToYearClosed(25600);
  }

  lemma EncodeSmall(statusB: Byte, b: Byte)
    requires b < 160
    ensures Decode(statusB, Encode(statusB, b)) == b
  {
    hide BcdToBinary, BinaryToBcd;
    BcdRoundTrip(b);
  }

  /** The year that comes back: exact below the limit, below the limit in any case. */
  lemma YearBack(statusB: Byte, y: nat)
    requires y < 0x1_0000
    ensures var back := FullYear(Decode(statusB, Encode(statusB, y % 100)),
                                 Decode(statusB, Encode(statusB, y / 100 % 256)));
            back < YearLimit(statusB) && (y < YearLimit(statusB) ==> back == y)
  {
    hide BcdToBinary, BinaryToBcd;
    var c := y / 100;
    EncodeSmall(statusB, y % 100);
    BcdRoundTrip(c % 256);
    assert y == 100 * c + y % 100;
    assert c % 256 % 160 < 160 && (c < 160 ==> c % 256 % 160 == c);
  }

  lemma PlainHour(statusB: Byte, h: Byte)
    requires h < 128
    ensures HourOf(statusB, h) == h
  {
  }

  /** What the registers hold after SetTime(t). */
  ghost predicate Holds(r: seq<Byte>, t: DateTime)
  {
    && |r| == 128
    && var b := r[STATUS_B];
       && r[SECONDS] == Encode(b, t.second) && r[MINUTES] == Encode(b, t.minute) && r[HOURS] == Encode(b, t.hour)
       && r[DAY] == Encode(b, t.day) && r[MONTH] == Encode(b, t.month)
       && r[YEAR] == Encode(b, t.year % 100) && r[CENTURY] == Encode(b, t.year / 100 % 256)
  }

  /** Reading back gives everything but possibly the century. */
  lemma ReadBack(r: seq<Byte>, t: DateTime)
    requires Holds(r, t) && t.year < 0x1_0000 && ValidDate(t)
    ensures Shown(r).(year := t.year) == t
    ensures Shown(r).year < YearLimit(r[STATUS_B])
    ensures t.year < YearLimit(r[STATUS_B]) ==> Shown(r) == t
  {
    var b := r[STATUS_B];
    hide Decode, Encode, HourOf, YearLimit, MonthLength, FullYear;
    PlainHour(b, t.hour);
    MonthLengths(t.year, t.month);
    EncodeSmall(b, t.second);
    EncodeSmall(b, t.minute);
    EncodeSmall(b, t.hour);
    EncodeSmall(b, t.day);
    EncodeSmall(b, t.month);
    YearBack(b, t.year);
    LimitIsSmall(b);
  }

  lemma LimitIsSmall(statusB: Byte)
    ensures 1970 < YearLimit(statusB) < 0x1_0000
  {
  }

  lemma MonthLengths(y: nat, m: nat)
    requires 1 <= m <= 12
    ensures MonthLength(y, m) <= 31 && (m == 2 ==> MonthLength(y, m) <= 29)
    ensures m in {4, 6, 9, 11} ==> MonthLength(y, m) <= 30
  {
  }

  /** The clock returns the time it was set to, exactly below the limit. */
  lemma RoundTrip(r: seq<Byte>, t: DateTime, unix: nat, k: nat)
    requires Holds(r, t) && DateOf(unix / 86400, k, t)
    requires unix % 86400 == (t.hour as nat) * 3600 + (t.minute as nat) * 60 + t.second
    ensures 1 <= Shown(r).month <= 12 && Shown(r).day >= 1
    ensures UnixTime(Shown(r)) == unix <==> unix < TimeLimit(r[STATUS_B])
  {
    var b := r[STATUS_B];
    var s := Shown(r);
    hide DaysToYear, DaysToMonth, YearLength, TimeLimit, YearLimit, Shown, MonthLength;
    ReadBack(r, t);
    LimitsAgree(b);
    MonthLengths(t.year, t.month);
    WithinYear(s.year, t.month, t.day);
    if 1970 + k < YearLimit(b) {
      BelowLimit(b, unix / 86400, k, t);
    } else {
      AboveLimit(b, unix / 86400, k, t);
      ShownBelowLimit(b, s);
    }
  }

  lemma BelowLimit(b: Byte, days: nat, k: nat, t: DateTime)
    requires DateOf(days, k, t) && 1970 + k < YearLimit(b)
    ensures t.year == 1970 + k && days == DaysToYear(t.year) + DaysToMonth(t.year, t.month) + t.day - 1
    ensures days < DaysToYear(YearLimit(b))
  {
    hide DaysToMonth, YearLength, MonthLength, DaysToYear;
    ElapsedIsCalendar(k);
    ElapsedIsCalendar(YearLimit(b) - 1970);
    ElapsedGrows(k + 1, YearLimit(b) - 1970);
    MonthLengths(t.year, t.month);
    WithinYear(t.year, t.month, t.day);
  }

  lemma AboveLimit(b: Byte, days: nat, k: nat, t: DateTime)
    requires DateOf(days, k, t) && 1970 + k >= YearLimit(b)
    ensures days >= DaysToYear(YearLimit(b))
  {
    ElapsedIsCalendar(YearLimit(b) - 1970);
    ElapsedGrows(YearLimit(b) - 1970, k);
  }

  lemma ShownBelowLimit(b: Byte, s: DateTime)
    requires s.year < YearLimit(b) && 1 <= s.month <= 12 && s.day >= 1
    requires DaysToMonth(s.year, s.month) + s.day - 1 < YearLength(s.year)
    ensures DaysToYear(s.year) + DaysToMonth(s.year, s.month) + s.day - 1 < DaysToYear(YearLimit(b))
  {
    if s.year >= 1970 {
      ElapsedIsCalendar(s.year + 1 - 1970);
      ElapsedIsCalendar(YearLimit(b) - 1970);
      ElapsedGrows(s.year + 1 - 1970, YearLimit(b) - 1970);
    } else {
      LimitsAgree(b);
    }
  }

  class Clock {
    var regs: array<Byte>

    ghost predicate Valid()
      reads this, regs
    {
      regs.Length == 128
    }

    constructor (regs: array<Byte>)
      requires regs.Length == 128
      ensures Valid() && this.regs == regs
    {
      this.regs := regs;
    }

    /** Read once the update flag is clear. */
    method ReadTime() returns (t: DateTime)
      requires Valid() && regs[STATUS_A] < 128
      ensures t == Shown(regs[..])
    {
      hide Decode;
      var b := regs[STATUS_B];
      var second, minute, hour, day, month, year, century :=
        regs[SECONDS], regs[MINUTES], regs[HOURS], regs[DAY], regs[MONTH], regs[YEAR], regs[CENTURY];
      var h := Decode(b, hour);
      if !FullDay(b) && h / 128 % 2 == 1 {
        h := (h % 128 + 12) % 24;
      }
      t := DateTime(Decode(b, second), Decode(b, minute), h, Decode(b, day), Decode(b, month),
                    FullYear(Decode(b, year), Decode(b, century)));
    }

    method SetTime(t: DateTime)
      requires Valid() && t.year < 0x1_0000
      modifies regs
      ensures regs[STATUS_B] == old(regs[STATUS_B]) && regs[STATUS_A] == old(regs[STATUS_A])
      ensures regs[SECONDS] == Encode(regs[STATUS_B], t.second)
      ensures regs[MINUTES] == Encode(regs[STATUS_B], t.minute)
      ensures regs[HOURS] == Encode(regs[STATUS_B], t.hour)
      ensures regs[DAY] == Encode(regs[STATUS_B], t.day)
      ensures regs[MONTH] == Encode(regs[STATUS_B], t.month)
      ensures regs[YEAR] == Encode(regs[STATUS_B], t.year % 100)
      ensures regs[CENTURY] == Encode(regs[STATUS_B], t.year / 100 % 256)
    {
      var b := regs[STATUS_B];
      regs[CMOS_ADDRESS] := 0x8B;
      regs[STATUS_B] := if b < 128 then b + 128 else b;
      regs[SECONDS] := Encode(b, t.second);
      regs[MINUTES] := Encode(b, t.minute);
      regs[HOURS] := Encode(b, t.hour);
      regs[DAY] := Encode(b, t.day);
      regs[MONTH] := Encode(b, t.month);
      regs[YEAR] := Encode(b, t.year % 100);
      regs[CENTURY] := Encode(b, t.year / 100 % 256);
      regs[STATUS_B] := b;
      regs[CMOS_ADDRESS] := 0x0B;
    }

    method GetUnixTime() returns (unix: nat)
      requires Valid() && regs[STATUS_A] < 128
      requires 1 <= Shown(regs[..]).month <= 12 && Shown(regs[..]).day >= 1
      ensures unix == UnixTime(Shown(regs[..]))
    {
      var t := ReadTime();
      var days, y := 0, 1970;
      while y < t.year
        invariant 1970 <= y && days == DaysToYear(if y < t.year then y else t.year)
      {
        days := days + YearLength(y);
        y := y + 1;
      }
      var m := 1;
      while m < t.month
        invariant 1 <= m <= t.month && days == DaysToYear(t.year) + DaysToMonth(t.year, m)
      {
        days := days + DAYS_IN_MONTH[m - 1];
        if m == 2 && IsLeapYear(t.year) { days := days + 1; }
        m := m + 1;
      }
      days := days + t.day - 1;
      unix := days * 86400 + (t.hour as nat) * 3600 + (t.minute as nat) * 60 + t.second;
    }

    /** The year loop. */
    method FindYear(number: nat) returns (year: nat, days: nat, ghost k: nat)
      ensures year == Year16(k) && days < YearLength(year) && number == Elapsed(k) + days
    {
      hide IsLeapYear;
      days, year, k := number, 1970, 0;
      while days >= YearLength(year)
        invariant year == Year16(k) && number == days + Elapsed(k)
      {
        days := days - YearLength(year);
        year := (year + 1) % 0x1_0000;
        k := k + 1;
      }
    }

    /** The month loop: it never runs past December. */
    method FindMonth(year: nat, number: nat) returns (month: nat, day: nat)
      requires number < YearLength(year)
      ensures 1 <= month <= 12 && 1 <= day <= MonthLength(year, month)
      ensures number == DaysToMonth(year, month) + day - 1
    {
      MonthTable(year);
      var days: nat := number;
      month := 1;
      hide DaysToMonth, MonthLength, YearLength;
      while days >= MonthLength(year, month)
        invariant 1 <= month <= 12 && number == days + DaysToMonth(year, month)
        invariant days < YearEnd(year, month)
      {
        YearEndStep(year, month);
        days := days - MonthLength(year, month);
        month := month + 1;
      }
      day := days + 1;
    }

    method SetUnixTime(unix: Word) returns (ghost t: DateTime, ghost k: nat)
      requires Valid()
      modifies regs
      ensures regs[STATUS_B] == old(regs[STATUS_B]) && regs[STATUS_A] == old(regs[STATUS_A])
      ensures Holds(regs[..], t) && DateOf(unix / 86400, k, t)
      ensures unix % 86400 == (t.hour as nat) * 3600 + (t.minute as nat) * 60 + t.second
    {
      hide Elapsed, DaysToMonth, MonthLength, Encode;
      var second, minutes := unix % 60, unix / 60;
      var minute, hours := minutes % 60, minutes / 60;
      var hour, days := hours % 24, hours / 24;
      TimeOfDay(unix);
      var year, dayOfYear;
      year, dayOfYear, k := FindYear(days);
      var month, day := FindMonth(year, dayOfYear);
      MonthLengths(year, month);
      var d := DateTime(second, minute, hour, day, month, year);
      SetTime(d);
      t := d;
    }

    /** Set the clock and read it back with no tick in between. */
    method SetThenGet(unix: Word) returns (back: nat)
      requires Valid() && regs[STATUS_A] < 128
      modifies regs
      ensures back == unix <==> unix < TimeLimit(old(regs[STATUS_B]))
    {
      ghost var t, k := SetUnixTime(unix);
      RoundTrip(regs[..], t, unix, k);
      back := GetUnixTime();
    }
  }

  lemma TimeOfDay(unix: nat)
    ensures unix / 60 / 60 / 24 == unix / 86400
    ensures unix % 86400 == unix / 60 / 60 % 24 * 3600 + unix / 60 % 60 * 60 + unix % 60
  {
    var m, h, d := unix / 60, unix / 3600, unix / 86400;
    assert h == m / 60 && d == h / 24;
    assert unix == 60 * m + unix % 60 && m == 60 * h + m % 60 && h == 24 * d + h % 24;
  }
}
