/**
 The wall clock: epoch milliseconds as dates, the chip's registers as dates, and the cached base that
 is carried forward by timer ticks and pegged to the hardware about once a minute.
 */
module WallClock {
  import opened Calendar

  datatype DateTime = DateTime(year: int, month: int, day: int, hour: int, minute: int, second: int)

  predicate ValidDateTime(x: DateTime) {
    ValidDate(Date(x.year, x.month, x.day)) && 0 <= x.hour < 24 && 0 <= x.minute < 60 && 0 <= x.second < 60
  }

  function Clamp(x: int, lo: int, hi: int): int {
    if x < lo then lo else if x > hi then hi else x
  }

  // ---- epoch milliseconds ----

  function FromUnixMillis(millis: int): DateTime {
    var x := CivilFromDays(millis / 86400000);
    var t := millis % 86400000;
    DateTime(Clamp(x.year, 0, 65535), x.month, x.day, t / 3600000, t / 60000 % 60, t / 1000 % 60)
  }

  function Weekday(millis: int): int {
    (millis / 86400000 + 4) % 7
  }

  /** A field cut down to a hundred million either way. */
  function Clamped(x: int): int {
    Clamp(x, -100000000, 100000000)
  }

  predicate Unclamped(x: int) {
    -100000000 <= x <= 100000000
  }

  /** The day number a year, month and day of any size name. */
  function DayOfParts(year: int, month: int, day: int): int {
    var months := Clamped(year) * 12 + Clamped(month) - 1;
    DaysFromCivil(months / 12, months % 12 + 1, 1) + Clamped(day) - 1
  }

  function TimeOfParts(hour: int, minute: int, second: int, millis: int): int {
    Clamped(hour) * 3600000 + Clamped(minute) * 60000 + Clamped(second) * 1000 + Clamped(millis)
  }

  function UnixMillisFromParts(year: int, month: int, day: int, hour: int, minute: int, second: int, millis: int): int {
    DayOfParts(year, month, day) * 86400000 + TimeOfParts(hour, minute, second, millis)
  }

  function MillisOf(x: DateTime, millis: int): int {
    UnixMillisFromParts(x.year, x.month, x.day, x.hour, x.minute, x.second, millis)
  }

  /** Fields in range name their own date. */
  lemma {:induction false} DayOfDate(x: Date)
    requires ValidDate(x) && Unclamped(x.year)
    ensures DayOfParts(x.year, x.month, x.day) == NumberOf(x)
  {
    var months := x.year * 12 + x.month - 1;
    assert months / 12 == x.year && months % 12 + 1 == x.month;
    FirstOfMonth(x);
  }

  lemma {:induction false} FirstOfMonth(x: Date)
    requires ValidDate(x)
    ensures NumberOf(x) == DaysFromCivil(x.year, x.month, 1) + x.day - 1
  {
    hide TruncDiv;
  }

  lemma {:induction false} SplitDay(hour: int, minute: int, second: int, millis: int)
    requires 0 <= hour < 24 && 0 <= minute < 60 && 0 <= second < 60 && 0 <= millis < 1000
    ensures 0 <= TimeOfParts(hour, minute, second, millis) < 86400000
    ensures var t := TimeOfParts(hour, minute, second, millis);
              t / 3600000 == hour && t / 60000 % 60 == minute && t / 1000 % 60 == second && t % 1000 == millis
  {
    var t := TimeOfParts(hour, minute, second, millis);
    assert t / 60000 == 60 * hour + minute;
    assert t / 1000 == 60 * (60 * hour + minute) + second;
  }

  /** A date and time survives the trip through milliseconds. */
  lemma {:induction false} DateTimeRoundTrip(x: DateTime, millis: int)
    requires ValidDateTime(x) && 0 <= x.year <= 65535 && 0 <= millis < 1000
    ensures FromUnixMillis(MillisOf(x, millis)) == x && MillisOf(x, millis) % 1000 == millis
  {
    var d := Date(x.year, x.month, x.day);
    DayOfDate(d);
    DateRoundTrip(d);
    SplitDay(x.hour, x.minute, x.second, millis);
    var t := TimeOfParts(x.hour, x.minute, x.second, millis);
    hide ValidDate, DaysFromCivil, CivilFromDays, DayOfParts, TimeOfParts, FromUnixMillis, NumberOf;
    assert MillisOf(x, millis) == Joined(NumberOf(d), t);
    WithinDay(NumberOf(d), t);
    FromJoined(NumberOf(d), t);
  }

  function Joined(day: int, t: int): int {
    day * 86400000 + t
  }

  lemma {:induction false} FromJoined(day: int, t: int)
    requires 0 <= t < 86400000
    ensures var x := CivilFromDays(day);
      FromUnixMillis(Joined(day, t))
          == DateTime(Clamp(x.year, 0, 65535), x.month, x.day, t / 3600000, t / 60000 % 60, t / 1000 % 60)
  {
    hide CivilFromDays;
    assert Joined(day, t) / 86400000 == day && Joined(day, t) % 86400000 == t;
  }

  lemma {:induction false} WithinDay(day: int, t: int)
    ensures Joined(day, t) % 1000 == t % 1000
  {
  }

  /** And milliseconds survive the trip through a date and time, as long as the year fits its field. */
  lemma {:induction false} MillisRoundTrip(millis: int)
    requires 0 <= CivilFromDays(millis / 86400000).year <= 65535
    ensures ValidDateTime(FromUnixMillis(millis)) && MillisOf(FromUnixMillis(millis), millis % 1000) == millis
  {
    var d, t := millis / 86400000, millis % 86400000;
    NumberRoundTrip(d);
    DayOfDate(CivilFromDays(d));
    Recombined(t);
    hide ValidDate, DaysFromCivil, CivilFromDays, DayOfParts, TimeOfParts, NumberOf, FromUnixMillis;
    assert millis == Joined(d, t);
    WithinDay(d, t);
    FromJoined(d, t);
  }

  lemma {:induction false} Recombined(t: int)
    requires 0 <= t < 86400000
    ensures 0 <= t / 3600000 < 24 && 0 <= t / 60000 % 60 < 60 && 0 <= t / 1000 % 60 < 60
    ensures TimeOfParts(t / 3600000, t / 60000 % 60, t / 1000 % 60, t % 1000) == t
  {
    assert t / 1000 / 60 == t / 60000;
    assert t / 60000 / 60 == t / 3600000;
  }

  /** Twelve months over is one year on, and a day beyond the end of the month is a day later: the
      date that many lines further down the calendar. */
  lemma {:induction false} MonthsCarry(year: int, month: int, day: int, years: int)
    requires Unclamped(year) && Unclamped(month) && Unclamped(year + years) && Unclamped(month - 12 * years)
    ensures DayOfParts(year, month, day) == DayOfParts(year + years, month - 12 * years, day)
  {
  }

  function DaysLater(x: Date, n: nat): (y: Date)
    requires ValidDate(x)
    ensures ValidDate(y)
    decreases n
  {
    if n == 0 then x else NextDayNextNumber(x); DaysLater(NextDate(x), n - 1)
  }

  lemma {:induction false} DaysCarry(x: Date, n: nat)
    requires ValidDate(x) && Unclamped(x.year) && Unclamped(x.day + n)
    ensures CivilFromDays(DayOfParts(x.year, x.month, x.day + n)) == DaysLater(x, n)
  {
    hide DaysFromCivil, CivilFromDays, NumberOf;
    DayOfDate(x);
    NumberLater(x, n);
    DateRoundTrip(DaysLater(x, n));
    DaysAdd(x.year, x.month, x.day, n);
  }

  lemma {:induction false} DaysAdd(year: int, month: int, day: int, n: nat)
    requires Unclamped(day) && Unclamped(day + n)
    ensures DayOfParts(year, month, day + n) == DayOfParts(year, month, day) + n
  {
    hide DaysFromCivil;
  }

  lemma {:induction false} NumberLater(x: Date, n: nat)
    requires ValidDate(x)
    ensures NumberOf(DaysLater(x, n)) == NumberOf(x) + n
    decreases n
  {
    hide ValidDate, NextDate, NumberOf;
    if n > 0 {
      NextDayNextNumber(x);
      NumberLater(NextDate(x), n - 1);
    }
  }

  /** The weekday turns with the date, from a Thursday at the epoch. */
  lemma {:induction false} WeekdayTurns(millis: int)
    ensures Weekday(0) == 4 && 0 <= Weekday(millis) < 7
    ensures Weekday(millis + 86400000) == (Weekday(millis) + 1) % 7
    ensures forall t {:trigger Weekday(t)} :: t / 86400000 == millis / 86400000 ==> Weekday(t) == Weekday(millis)
  {
    assert (millis + 86400000) / 86400000 == millis / 86400000 + 1;
  }

  predicate FitsI64(x: int) {
    -9223372036854775808 <= x <= 9223372036854775807
  }

  /** Cutting the fields down keeps the arithmetic inside 64 bits, whatever is passed. */
  lemma {:induction false} PartsFit(year: int, month: int, day: int, hour: int, minute: int, second: int, millis: int)
    ensures FitsI64(DayOfParts(year, month, day) * 86400000)
    ensures FitsI64(UnixMillisFromParts(year, month, day, hour, minute, second, millis))
  {
    DayOfPartsBound(year, month, day);
    TimeBound(hour, minute, second, millis);
    hide DayOfParts, TimeOfParts;
  }

  lemma {:induction false} TimeBound(hour: int, minute: int, second: int, millis: int)
    ensures -400000000000000 <= TimeOfParts(hour, minute, second, millis) <= 400000000000000
  {
  }

  lemma {:induction false} DayOfPartsBound(year: int, month: int, day: int)
    ensures -42000000000 <= DayOfParts(year, month, day) <= 42000000000
  {
    var months := Clamped(year) * 12 + Clamped(month) - 1;
    MonthSplit(months);
    DayBound(months / 12, months % 12 + 1);
    hide DaysFromCivil;
  }

  lemma {:induction false} MonthSplit(months: int)
    requires -1300000001 <= months <= 1300000000
    ensures -110000000 <= months / 12 <= 110000000 && 0 <= months % 12 < 12
  {
  }

  lemma {:induction false} DayBound(year: int, month: int)
    requires -110000000 <= year <= 110000000 && 1 <= month <= 12
    ensures -41000000000 <= DaysFromCivil(year, month, 1) <= 41000000000
  {
    var y := if month <= 2 then year - 1 else year;
    TruncatesDown(y);
  }

  // ---- the chip's registers ----

  /** One reading of the time registers, each a byte. */
  datatype Registers = Registers(second: int, minute: int, hour: int, day: int, month: int, year: int)

  predicate Byte(x: int) {
    0 <= x < 256
  }

  predicate Bytes(r: Registers) {
    Byte(r.second) && Byte(r.minute) && Byte(r.hour) && Byte(r.day) && Byte(r.month) && Byte(r.year)
  }

  predicate IsBinary(statusB: int) {
    statusB / 4 % 2 == 1
  }

  predicate Is24Hour(statusB: int) {
    statusB / 2 % 2 == 1
  }

  function FromBcd(value: int, binary: bool): int {
    if binary then value else value / 16 * 10 + value % 16
  }

  /** The PM flag comes off before the digits are read; twelve wraps to zero. */
  function DecodeHour(register: int, statusB: int): int {
    if Is24Hour(statusB) then FromBcd(register, IsBinary(statusB))
    else
      var hour := FromBcd(register % 128, IsBinary(statusB)) % 12;
      if register >= 128 then hour + 12 else hour
  }

  function Decode(r: Registers, statusB: int): DateTime {
    var binary := IsBinary(statusB);
    var twoDigits := FromBcd(r.year, binary);
    var year := if twoDigits < 70 then 2000 + twoDigits else 1900 + twoDigits;
    var month := Clamp(FromBcd(r.month, binary), 1, 12);
    DateTime(year, month, Clamp(FromBcd(r.day, binary), 1, DaysInMonth(year, month)),
             AtMost(DecodeHour(r.hour, statusB), 23), AtMost(FromBcd(r.minute, binary), 59),
                 AtMost(FromBcd(r.second, binary), 59))
  }

  function AtMost(x: int, hi: int): int {
    if x > hi then hi else x
  }

  /** Whatever the registers hold, the answer is a real date and time, and every field fits its byte. */
  lemma {:induction false} DecodeIsValid(r: Registers, statusB: int)
    requires Bytes(r) && Byte(statusB)
    ensures ValidDateTime(Decode(r, statusB)) && 1970 <= Decode(r, statusB).year <= 2155
    ensures forall v, b :: Byte(v) ==> Byte(FromBcd(v, b))
  {
  }

  /** A number as the chip writes it, in the base its status register says. */
  function Written(n: int, binary: bool): int {
    if binary then n else n / 10 * 16 + n % 10
  }

  function WrittenHour(hour: int, statusB: int): int {
    var binary := IsBinary(statusB);
    if Is24Hour(statusB) then Written(hour, binary)
    else Written(if hour % 12 == 0 then 12 else hour % 12, binary) + (if hour >= 12 then 128 else 0)
  }

  /** The registers of a working chip at a given moment. */
  function Reported(x: DateTime, statusB: int): Registers {
    var b := IsBinary(statusB);
    Registers(Written(x.second, b), Written(x.minute, b), WrittenHour(x.hour, statusB), Written(x.day, b),
        Written(x.month, b), Written(x.year % 100, b))
  }

  lemma {:induction false} WrittenReads(n: int, binary: bool)
    requires 0 <= n < 100
    ensures FromBcd(Written(n, binary), binary) == n && 0 <= Written(n, binary) < 160
    ensures (n <= 12 ==> Written(n, binary) < 128)
  {
    if !binary {
      assert (n / 10 * 16 + n % 10) / 16 == n / 10;
    }
  }

  lemma {:induction false} HourReads(hour: int, statusB: int)
    requires 0 <= hour < 24
    ensures DecodeHour(WrittenHour(hour, statusB), statusB) == hour && Byte(WrittenHour(hour, statusB))
  {
    hide IsBinary, Is24Hour, FromBcd, Written;
    var b := IsBinary(statusB);
    WrittenReads(hour, b);
    var h := if hour % 12 == 0 then 12 else hour % 12;
    WrittenReads(h, b);
    FlagComesOff(Written(h, b));
  }

  lemma {:induction false} FlagComesOff(x: int)
    requires 0 <= x < 128
    ensures x % 128 == x && (x + 128) % 128 == x
  {
  }

  /** In all four formats the clock reads what the chip means, for the century the pivot covers. */
  lemma {:induction false} DecodesReported(x: DateTime, statusB: int)
    requires ValidDateTime(x) && 1970 <= x.year <= 2069
    ensures Decode(Reported(x, statusB), statusB) == x && Bytes(Reported(x, statusB))
  {
    hide IsBinary, Is24Hour, FromBcd, Written, DecodeHour, WrittenHour;
    var b := IsBinary(statusB);
    WrittenReads(x.second, b);
    WrittenReads(x.minute, b);
    HourReads(x.hour, statusB);
    WrittenReads(x.day, b);
    WrittenReads(x.month, b);
    WrittenReads(x.year % 100, b);
    assert x.year % 100 == if x.year < 2000 then x.year - 1900 else x.year - 2000;
  }

  function HardwareMillis(r: Registers, statusB: int): int {
    MillisOf(Decode(r, statusB), 0)
  }

  // ---- the cached clock ----

  predicate U64(x: int) {
    0 <= x < 0x1_0000_0000_0000_0000
  }

  function WrappingSub(x: int, y: int): (r: int)
    requires U64(x) && U64(y)
    ensures U64(r)
  {
    if x >= y then x - y else x - y + 0x1_0000_0000_0000_0000
  }

  function TicksToMillis(ticks: int): int {
    AtMost(AtMost(ticks * 65536000, 0xFFFF_FFFF_FFFF_FFFF) / 1193182, 9223372036854775807)
  }

  /** A base carried forward to `ticks`. */
  function Carried(baseMillis: int, baseTicks: int, ticks: int): int
    requires U64(ticks) && U64(baseTicks)
  {
    AtMost(baseMillis + TicksToMillis(WrappingSub(ticks, baseTicks)), 9223372036854775807)
  }

  lemma {:induction false} MillisGrow(t: int, u: int)
    requires 0 <= t <= u
    ensures 0 <= TicksToMillis(t) <= TicksToMillis(u) && TicksToMillis(0) == 0
  {
  }

  lemma {:induction false} CarriedGrows(baseMillis: int, baseTicks: int, t: int, u: int)
    requires U64(baseTicks) && U64(u) && baseTicks <= t <= u && FitsI64(baseMillis)
    ensures baseMillis <= Carried(baseMillis, baseTicks, t) <= Carried(baseMillis, baseTicks, u)
    ensures Carried(baseMillis, t, t) == baseMillis && FitsI64(Carried(baseMillis, baseTicks, u))
  {
    hide TicksToMillis;
    MillisGrow(0, t - baseTicks);
    MillisGrow(t - baseTicks, u - baseTicks);
  }

  /** What the clock answers: the base carried forward, or, when the chip is asked, the later of that and
      the chip's time. */
  function Answered(baseMillis: int, baseTicks: int, ticks: int, hardware: int): int
    requires U64(ticks) && U64(baseTicks)
  {
    var committed := Carried(baseMillis, baseTicks, ticks);
    if WrappingSub(ticks, baseTicks) < 1092 || hardware < committed then committed else hardware
  }

  lemma {:induction false} CarriedFits(baseMillis: int, baseTicks: int, ticks: int)
    requires U64(ticks) && U64(baseTicks) && FitsI64(baseMillis)
    ensures FitsI64(Carried(baseMillis, baseTicks, ticks)) && Carried(baseMillis, baseTicks, ticks) >= baseMillis
  {
    MillisGrow(0, WrappingSub(ticks, baseTicks));
    hide TicksToMillis, WrappingSub;
  }

  /** A tick count that has gone back makes the clock read the chip; the answer is the chip's time exactly
      if that is at least 490 years ahead of the base, and those 490 years ahead otherwise. Only steps
      back by almost the whole range of the counter, which look like a few ticks forward, differ. */
  lemma {:induction false} StepBackAnswer(baseMillis: int, baseTicks: int, ticks: int, hardware: int)
    requires U64(ticks) && U64(baseTicks) && ticks < baseTicks <= ticks + 18446743792234574905
    ensures var ahead := AtMost(baseMillis + 15460126010708, 9223372036854775807);
            && (Answered(baseMillis, baseTicks, ticks, hardware) == hardware <==> hardware >= ahead)
            && (hardware < ahead ==> Answered(baseMillis, baseTicks, ticks, hardware) == ahead)
  {
    var elapsed := WrappingSub(ticks, baseTicks);
    assert elapsed >= 281474976711;
    assert TicksToMillis(elapsed) == 15460126010708;
  }

  /** One tick back, two seconds after midnight of the first of January 2026: the chip is right, and the
      answer is in the year 2515. */
  lemma {:induction false} StepBackAtNewYear()
    ensures var hardware := HardwareMillis(Registers(0x02, 0x00, 0x00, 0x01, 0x01, 0x26), 0x02);
            && FromUnixMillis(hardware) == DateTime(2026, 1, 1, 0, 0, 2)
            && Answered(hardware, 1, 0, hardware) == hardware + 15460126010708
            && FromUnixMillis(Answered(hardware, 1, 0, hardware)).year == 2515
  {
    var x := DateTime(2026, 1, 1, 0, 0, 2);
    ReadAtNewYear();
    NewYearMillis();
    DateTimeRoundTrip(x, 0);
    hide Decode, MillisOf, FromUnixMillis, Answered;
    var hardware := MillisOf(x, 0);
    StepBackAnswer(hardware, 1, 0, hardware);
    LaterYear(hardware + 15460126010708);
  }

  lemma ReadAtNewYear()
    ensures Decode(Registers(0x02, 0x00, 0x00, 0x01, 0x01, 0x26), 0x02) == DateTime(2026, 1, 1, 0, 0, 2)
  {
  }

  lemma NewYearMillis()
    ensures MillisOf(DateTime(2026, 1, 1, 0, 0, 2), 0) == 1767225602000 && ValidDateTime(DateTime(2026, 1, 1, 0, 0, 2))
  {
    DayOfDate(Date(2026, 1, 1));
    NewYearNumber();
    assert TimeOfParts(0, 0, 2, 0) == 2000;
    hide DayOfParts, TimeOfParts, NumberOf;
  }

  lemma NewYearNumber()
    ensures NumberOf(Date(2026, 1, 1)) == 20454
  {
  }

  lemma NovemberNumber()
    ensures ValidDate(Date(2515, 11, 30)) && NumberOf(Date(2515, 11, 30)) == 199390
  {
  }

  lemma LaterYear(millis: int)
    requires millis == 17227351612708
    ensures FromUnixMillis(millis).year == 2515
  {
    NovemberNumber();
    DateRoundTrip(Date(2515, 11, 30));
    hide CivilFromDays, NumberOf;
    assert millis / 86400000 == 199390;
  }

  /** One call's circumstances: the tick count, and what the chip would say if asked. */
  datatype Moment = Moment(ticks: int, registers: Registers, statusB: int)

  predicate ValidMoment(m: Moment) {
    U64(m.ticks) && Bytes(m.registers) && Byte(m.statusB)
  }

  class Clock {
    var baseMillis: int
    var baseTicks: int
    var synced: bool

    ghost predicate Valid()
      reads this
    {
      FitsI64(baseMillis) && U64(baseTicks)
    }

    constructor ()
      ensures Valid() && !synced
    {
      baseMillis, baseTicks, synced := 0, 0, false;
    }

    function Derived(ticks: int): int
      requires Valid() && U64(ticks)
      reads this
    {
      Carried(baseMillis, baseTicks, ticks)
    }

    /** Read the hardware and peg the base to it, but never below what is already committed. */
    method Resync(m: Moment) returns (millis: int)
      requires Valid() && ValidMoment(m)
      modifies this
      ensures Valid() && synced && baseTicks == m.ticks && baseMillis == millis && millis == Derived(m.ticks)
      ensures var hardware := HardwareMillis(m.registers, m.statusB);
              millis == if old(synced) && hardware < old(Derived(m.ticks)) then old(Derived(m.ticks)) else hardware
    {
      var reading := Decode(m.registers, m.statusB);
      var hardware := MillisOf(reading, 0);
      PartsFit(reading.year, reading.month, reading.day, reading.hour, reading.minute, reading.second, 0);
      CarriedFits(baseMillis, baseTicks, m.ticks);
      hide Carried, UnixMillisFromParts, Decode;
      millis := hardware;
      if synced {
        var committed := Derived(m.ticks);
        if hardware < committed {
          millis := committed;
        }
      }
      baseMillis, baseTicks, synced := millis, m.ticks, true;
      CarriedGrows(millis, m.ticks, m.ticks, m.ticks);
    }

    /** The time, for any tick count. The chip is asked only for the first answer and when the base is a
        minute old, or seems to be because the count has gone back. */
    method UnixMillis(m: Moment) returns (millis: int)
      requires Valid() && ValidMoment(m)
      modifies this
      ensures Valid() && synced && millis == Derived(m.ticks)
      ensures old(synced) ==>
                millis == Answered(old(baseMillis), old(baseTicks), m.ticks, HardwareMillis(m.registers, m.statusB))
      ensures !old(synced) ==> millis == HardwareMillis(m.registers, m.statusB)
      ensures old(synced) ==> millis >= old(Derived(m.ticks)) >= old(baseMillis)
      ensures old(synced) && WrappingSub(m.ticks, old(baseTicks)) < 1092 ==> unchanged(this)
      ensures !(old(synced) && WrappingSub(m.ticks, old(baseTicks)) < 1092) ==>
                baseTicks == m.ticks && baseMillis == millis
    {
      hide Carried, HardwareMillis, Bytes, WrappingSub;
      CarriedFits(baseMillis, baseTicks, m.ticks);
      if !synced || WrappingSub(m.ticks, baseTicks) >= 1092 {
        millis := Resync(m);
        return;
      }
      millis := Derived(m.ticks);
    }

    /** Over any run of calls with ticks that never go back, the answers never go back, whatever the
        chip reports. */
    method Run(moments: seq<Moment>) returns (answers: seq<int>)
      requires Valid() && forall i :: 0 <= i < |moments| ==> ValidMoment(moments[i])
      requires forall i :: 0 <= i < |moments| - 1 ==> moments[i].ticks <= moments[i + 1].ticks
      requires synced && |moments| > 0 ==> baseTicks <= moments[0].ticks
      modifies this
      ensures Valid() && |answers| == |moments|
      ensures forall i :: 0 <= i < |answers| - 1 ==> answers[i] <= answers[i + 1]
    {
      hide Carried, HardwareMillis, Bytes;
      answers := [];
      while |answers| < |moments|
        invariant |answers| <= |moments| && Valid()
        invariant synced && |answers| < |moments| ==> baseTicks <= moments[|answers|].ticks
        invariant forall i :: 0 <= i < |answers| - 1 ==> answers[i] <= answers[i + 1]
        invariant |answers| > 0 ==> synced && baseTicks <= moments[|answers| - 1].ticks
        invariant |answers| > 0 ==> answers[|answers| - 1] == Derived(moments[|answers| - 1].ticks)
      {
        var k := |answers|;
        if k > 0 {
          CarriedGrows(baseMillis, baseTicks, moments[k - 1].ticks, moments[k].ticks);
        }
        var millis := UnixMillis(moments[k]);
        answers := answers + [millis];
      }
    }
  }
}
