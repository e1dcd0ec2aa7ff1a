/**
 Day numbers and proleptic Gregorian dates: the two conversions, proved against the leap-year rule.
 A year is counted from March, so that the leap day ends it; 400 such years make an era.
 */
module Calendar {
  datatype Date = Date(year: int, month: int, day: int)

  // ---- the rule the conversions are measured against ----

  predicate IsLeapYear(year: int) {
    year % 4 == 0 && (year % 100 != 0 || year % 400 == 0)
  }

  function DaysInMonth(year: int, month: int): int {
    if month in {1, 3, 5, 7, 8, 10, 12} then 31
    else if month in {4, 6, 9, 11} then 30
    else if month == 2 then (if IsLeapYear(year) then 29 else 28)
    else 31
  }

  predicate ValidDate(x: Date) {
    1 <= x.month <= 12 && 1 <= x.day <= DaysInMonth(x.year, x.month)
  }

  /** The date on the next line of the calendar. */
  function NextDate(x: Date): Date {
    if x.day < DaysInMonth(x.year, x.month) then x.(day := x.day + 1)
    else if x.month < 12 then Date(x.year, x.month + 1, 1)
    else Date(x.year + 1, 1, 1)
  }

  // ---- the conversions ----

  /** Division that truncates toward zero. */
  function TruncDiv(x: int, y: int): int
    requires y > 0
  {
    if x >= 0 then x / y else -(-x / y)
  }

  function DaysFromCivil(year: int, month: int, day: int): int
    requires 1 <= month <= 12
  {
    var y := if month <= 2 then year - 1 else year;
    var era := TruncDiv(if y >= 0 then y else y - 399, 400);
    var yearOfEra := y - era * 400;
    var dayOfYear := (153 * ((month + 9) % 12) + 2) / 5 + day - 1;
    era * 146097 + (yearOfEra * 365 + yearOfEra / 4 - yearOfEra / 100 + dayOfYear) - 719468
  }

  function NumberOf(x: Date): int
    requires ValidDate(x)
  {
    DaysFromCivil(x.year, x.month, x.day)
  }

  function CivilFromDays(number: int): Date {
    var days := number + 719468;
    var era := TruncDiv(if days >= 0 then days else days - 146096, 146097);
    DateInEra(era, days - era * 146097)
  }

  function DateInEra(era: int, dayOfEra: int): Date {
    var yearOfEra := YearOfEra(dayOfEra);
    var dayOfYear := dayOfEra - YearStart(yearOfEra);
    var shifted := (5 * dayOfYear + 2) / 153;
    var day := dayOfYear - (153 * shifted + 2) / 5 + 1;
    var month := if shifted < 10 then shifted + 3 else shifted - 9;
    var year := yearOfEra + era * 400;
    Date(if month <= 2 then year + 1 else year, month, day)
  }

  function YearOfEra(dayOfEra: int): int {
    (dayOfEra - dayOfEra / 1460 + dayOfEra / 36524 - dayOfEra / 146096) / 365
  }

  function YearStart(yearOfEra: int): int {
    365 * yearOfEra + yearOfEra / 4 - yearOfEra / 100
  }

  // ---- years within an era ----

  /** Centuries, four-year spans and years: the coordinates in which both divisions are plain. */
  predicate Coordinates(c: int, q: int, r: int, k: int) {
    && 0 <= c <= 3 && 0 <= q <= 24 && 0 <= r <= 3
    && 0 <= k <= (if r == 3 && (q < 24 || c == 3) then 365 else 364)
  }

  lemma {:induction false} YearAtCoordinates(c: int, q: int, r: int)
    requires 0 <= c <= 3 && 0 <= q <= 24 && 0 <= r <= 3
    ensures YearStart(100 * c + 4 * q + r) == 36524 * c + 1461 * q + 365 * r
  {
    var y := 100 * c + 4 * q + r;
    assert y / 4 == 25 * c + q;
    assert y / 100 == c;
  }

  /** The correction terms move the quotient to the right year, also on the last day of a leap year. */
  lemma {:induction false} YearFromCoordinates(c: int, q: int, r: int, k: int)
    requires Coordinates(c, q, r, k)
    ensures YearOfEra(36524 * c + 1461 * q + 365 * r + k) == 100 * c + 4 * q + r
  {
    var doe := 36524 * c + 1461 * q + 365 * r + k;
    var e := if 24 * c + q + 365 * r + k >= 1460 then 1 else 0;
    assert doe / 1460 == 25 * c + q + e;
    var last := if c == 3 && q == 24 && r == 3 && k == 365 then 1 else 0;
    assert doe / 36524 == c + last;
    assert doe / 146096 == last;
    assert 0 <= k - e < 365;
    assert doe - doe / 1460 + doe / 36524 - doe / 146096 == 365 * (100 * c + 4 * q + r) + (k - e);
  }

  lemma {:induction false} CoordinatesOfDay(doe: int) returns (c: int, q: int, r: int, k: int)
    requires 0 <= doe < 146097
    ensures Coordinates(c, q, r, k) && doe == 36524 * c + 1461 * q + 365 * r + k
  {
    c := if doe >= 146096 then 3 else doe / 36524;
    var inCentury := doe - 36524 * c;
    q := inCentury / 1461;
    var inSpan := inCentury - 1461 * q;
    r := if inSpan == 1460 then 3 else inSpan / 365;
    k := inSpan - 365 * r;
  }

  /** Days in a year that starts in March: its February belongs to the next civil year. */
  function YearLength(y: int): int {
    if IsLeapYear(y + 1) then 366 else 365
  }

  lemma {:induction false} LengthAtCoordinates(era: int, c: int, q: int, r: int)
    requires 0 <= c <= 3 && 0 <= q <= 24 && 0 <= r <= 3
    ensures YearLength(400 * era + (100 * c + 4 * q + r)) == if r == 3 && (q < 24 || c == 3) then 366 else 365
  {
    var y := 400 * era + (100 * c + 4 * q + r) + 1;
    FoursAndHundreds(100 * era + 25 * c + q, r + 1);
    if r == 3 {
      if q < 24 {
        Hundreds(4 * era + c, 4 * q + 4);
      } else {
        Hundreds(4 * era + c + 1, 0);
        FourHundreds(era, c + 1);
      }
    }
  }

  lemma {:induction false} FoursAndHundreds(x: int, r: int)
    requires 1 <= r <= 4
    ensures (4 * x + r) % 4 == 0 <==> r == 4
  {
  }

  lemma {:induction false} Hundreds(x: int, r: int)
    requires 0 <= r < 100
    ensures (100 * x + r) % 100 == r
  {
  }

  lemma {:induction false} FourHundreds(x: int, r: int)
    requires 1 <= r <= 4
    ensures (400 * x + 100 * r) % 400 == 0 <==> r == 4
  {
  }

  // ---- months within a year ----

  function MonthStart(shifted: int): int {
    (153 * shifted + 2) / 5
  }

  function MonthLength(shifted: int, yearLength: int): int {
    if shifted == 11 then yearLength - 337
    else if shifted in {1, 3, 6, 8} then 30
    else 31
  }

  lemma {:induction false} MonthStarts(s: int)
    requires 0 <= s < 11
    ensures MonthStart(s) + MonthLength(s, 365) == MonthStart(s + 1)
    ensures MonthStart(0) == 0 && MonthStart(11) == 337
  {
    if s < 6 {
      assert s == 0 || s == 1 || s == 2 || s == 3 || s == 4 || s == 5;
    } else {
      assert s == 6 || s == 7 || s == 8 || s == 9 || s == 10;
    }
  }

  lemma {:induction false} MonthOfDay(k: int)
    requires 0 <= k <= 365
    ensures 0 <= (5 * k + 2) / 153 <= 11 && MonthStart((5 * k + 2) / 153) <= k
    ensures (5 * k + 2) / 153 < 11 ==> k < MonthStart((5 * k + 2) / 153 + 1)
  {
  }

  lemma {:induction false} MonthOfPlace(s: int, d: int)
    requires 0 <= s <= 11 && 0 <= d < MonthLength(s, 366)
    ensures (5 * (MonthStart(s) + d) + 2) / 153 == s
  {
    MonthOfDay(MonthStart(s) + d);
  }

  // ---- a date as era, year, month and day counted from March ----

  /** Where a date lies: its era, year of the era, month counted from March, and day from zero. */
  datatype Place = Place(era: int, yearOfEra: int, shifted: int, offset: int)

  predicate ValidPlace(p: Place) {
    && 0 <= p.yearOfEra < 400 && 0 <= p.shifted <= 11
    && 0 <= p.offset < MonthLength(p.shifted, YearLength(400 * p.era + p.yearOfEra))
  }

  function PlaceOf(x: Date): Place {
    var y := if x.month <= 2 then x.year - 1 else x.year;
    Place(y / 400, y % 400, if x.month <= 2 then x.month + 9 else x.month - 3, x.day - 1)
  }

  function DateAt(p: Place): Date {
    var month := if p.shifted < 10 then p.shifted + 3 else p.shifted - 9;
    var year := p.yearOfEra + p.era * 400;
    Date(if month <= 2 then year + 1 else year, month, p.offset + 1)
  }

  function NumberAt(p: Place): int {
    p.era * 146097 + (YearStart(p.yearOfEra) + (MonthStart(p.shifted) + p.offset)) - 719468
  }

  lemma {:induction false} PlacesAreDates(x: Date)
    requires 1 <= x.month <= 12
    ensures DateAt(PlaceOf(x)) == x && (ValidPlace(PlaceOf(x)) <==> ValidDate(x))
    ensures DaysFromCivil(x.year, x.month, x.day) == NumberAt(PlaceOf(x))
  {
    var y := if x.month <= 2 then x.year - 1 else x.year;
    TruncatesDown(y);
    var p := PlaceOf(x);
    assert 400 * p.era + p.yearOfEra == y;
    assert (x.month + 9) % 12 == p.shifted;
    assert DaysInMonth(x.year, x.month) == MonthLength(p.shifted, YearLength(y));
  }

  lemma {:induction false} DatesArePlaces(p: Place)
    requires ValidPlace(p)
    ensures ValidDate(DateAt(p)) && PlaceOf(DateAt(p)) == p
  {
    var x := DateAt(p);
    var y := p.yearOfEra + p.era * 400;
    assert y / 400 == p.era && y % 400 == p.yearOfEra;
    PlacesAreDates(x);
  }

  /** The source's nudge for negative numbers makes truncation round down. */
  lemma {:induction false} TruncatesDown(x: int)
    ensures TruncDiv(if x >= 0 then x else x - 399, 400) == x / 400
    ensures TruncDiv(if x >= 0 then x else x - 146096, 146097) == x / 146097
  {
    if x < 0 {
      assert -(x - 399) / 400 == -(x / 400);
      assert -(x - 146096) / 146097 == -(x / 146097);
    }
  }

  lemma {:induction false} EraOf(era: int, doe: int)
    requires 0 <= doe < 146097
    ensures (era * 146097 + doe) / 146097 == era
  {
  }

  /** Reading a place's day number finds the place. */
  lemma {:induction false} NumberFindsDate(p: Place)
    requires ValidPlace(p)
    ensures CivilFromDays(NumberAt(p)) == DateAt(p)
  {
    hide TruncDiv, CivilFromDays, DateInEra, YearOfEra, YearStart, MonthStart, MonthLength, ValidPlace, DateAt;
    var doe := DayOfEra(p);
    EraOfNumber(NumberAt(p), p.era, doe);
    PlaceInEra(p, doe);
  }

  lemma {:induction false} EraOfNumber(number: int, era: int, doe: int)
    requires number + 719468 == era * 146097 + doe && 0 <= doe < 146097
    ensures CivilFromDays(number) == DateInEra(era, doe)
  {
    hide DateInEra, TruncDiv;
    TruncatesDown(number + 719468);
    EraOf(era, doe);
  }

  lemma {:induction false} PlaceInEra(p: Place, doe: int)
    requires YearOfEra(doe) == p.yearOfEra && doe == YearStart(p.yearOfEra) + (MonthStart(p.shifted) + p.offset)
    requires 0 <= p.shifted <= 11 && 0 <= p.offset < MonthLength(p.shifted, 366)
    ensures DateInEra(p.era, doe) == DateAt(p)
  {
    hide YearOfEra, YearStart, MonthLength;
    MonthOfPlace(p.shifted, p.offset);
  }

  lemma {:induction false} DayOfEra(p: Place) returns (doe: int)
    requires ValidPlace(p)
    ensures doe == YearStart(p.yearOfEra) + (MonthStart(p.shifted) + p.offset)
    ensures 0 <= doe < 146097 && YearOfEra(doe) == p.yearOfEra
    ensures 0 <= p.shifted <= 11 && 0 <= p.offset < MonthLength(p.shifted, 366)
  {
    var c, q, r := p.yearOfEra / 100, p.yearOfEra % 100 / 4, p.yearOfEra % 4;
    assert p.yearOfEra == 100 * c + 4 * q + r;
    var k := MonthStart(p.shifted) + p.offset;
    hide MonthStart, YearStart, YearOfEra, IsLeapYear;
    DayWithinYear(p);
    LengthAtCoordinates(p.era, c, q, r);
    hide YearLength;
    YearAtCoordinates(c, q, r);
    YearFromCoordinates(c, q, r, k);
    DayWithinEra(c, q, r, k);
    doe := YearStart(p.yearOfEra) + k;
  }

  lemma {:induction false} DayWithinYear(p: Place)
    requires ValidPlace(p)
    ensures 0 <= MonthStart(p.shifted) + p.offset < YearLength(400 * p.era + p.yearOfEra)
  {
    var length := YearLength(400 * p.era + p.yearOfEra);
    if p.shifted < 11 {
      MonthStarts(p.shifted);
      assert MonthStart(p.shifted + 1) <= 337;
    }
  }

  lemma {:induction false} DayWithinEra(c: int, q: int, r: int, k: int)
    requires Coordinates(c, q, r, k)
    ensures 0 <= 36524 * c + 1461 * q + 365 * r + k < 146097
  {
  }

  /** Every day number is some place's. */
  lemma {:induction false} NumberHasPlace(number: int) returns (p: Place)
    ensures ValidPlace(p) && NumberAt(p) == number
  {
    var days := number + 719468;
    var era, doe := days / 146097, days % 146097;
    var c, q, r, k := CoordinatesOfDay(doe);
    YearAtCoordinates(c, q, r);
    LengthAtCoordinates(era, c, q, r);
    MonthOfDay(k);
    var shifted := (5 * k + 2) / 153;
    p := Place(era, 100 * c + 4 * q + r, shifted, k - MonthStart(shifted));
    if shifted < 11 {
      MonthStarts(shifted);
    } else {
      assert MonthStart(11) == 337;
    }
  }

  // ---- the main results ----

  /** From a date to its number and back. */
  lemma {:induction false} DateRoundTrip(x: Date)
    requires ValidDate(x)
    ensures CivilFromDays(NumberOf(x)) == x
  {
    PlacesAreDates(x);
    NumberFindsDate(PlaceOf(x));
  }

  /** From a number to its date, which is a real one, and back. */
  lemma {:induction false} NumberRoundTrip(number: int)
    ensures ValidDate(CivilFromDays(number))
    ensures NumberOf(CivilFromDays(number)) == number
  {
    var p := NumberHasPlace(number);
    NumberFindsDate(p);
    DatesArePlaces(p);
    PlacesAreDates(DateAt(p));
  }

  /** The calendar turns one day at a time, over month ends, leap days, years and centuries; with the
      epoch at zero this determines every day number. */
  lemma {:induction false} NextDayNextNumber(x: Date)
    requires ValidDate(x)
    ensures ValidDate(NextDate(x)) && NumberOf(NextDate(x)) == NumberOf(x) + 1
    ensures NumberOf(Date(1970, 1, 1)) == 0
  {
    hide IsLeapYear, YearStart, MonthStart, NumberAt, ValidPlace, NextDate;
    var n := NextDate(x);
    NextIsValid(x);
    PlacesAreDates(x);
    PlacesAreDates(n);
    PlacesTurn(x);
  }

  lemma {:induction false} NextIsValid(x: Date)
    requires ValidDate(x)
    ensures ValidDate(NextDate(x))
  {
  }

  lemma {:induction false} PlacesTurn(x: Date)
    requires ValidDate(x) && ValidDate(NextDate(x)) && ValidPlace(PlaceOf(x)) && ValidPlace(PlaceOf(NextDate(x)))
    ensures NumberAt(PlaceOf(NextDate(x))) == NumberAt(PlaceOf(x)) + 1
  {
    hide IsLeapYear, YearStart, MonthStart;
    var p, p' := PlaceOf(x), PlaceOf(NextDate(x));
    if x.day < DaysInMonth(x.year, x.month) {
      assert p' == p.(offset := p.offset + 1);
    } else if x.month == 2 {
      YearTurns(p, p');
    } else {
      assert p' == p.(shifted := p.shifted + 1, offset := 0);
      MonthStarts(p.shifted);
    }
  }

  /** From the last day of February to the first of March. */
  lemma {:induction false} YearTurns(p: Place, p': Place)
    requires ValidPlace(p) && p.shifted == 11 && p.offset == YearLength(400 * p.era + p.yearOfEra) - 338
    requires ValidPlace(p') && p'.shifted == 0 && p'.offset == 0
    requires 400 * p'.era + p'.yearOfEra == 400 * p.era + p.yearOfEra + 1
    ensures NumberAt(p') == NumberAt(p) + 1
  {
    hide YearStart;
    MonthStarts(0);
    NextYearStart(p.era, p.yearOfEra);
    if p.yearOfEra == 399 {
      assert p'.era == p.era + 1 && p'.yearOfEra == 0;
      YearAtCoordinates(0, 0, 0);
    } else {
      assert p'.era == p.era && p'.yearOfEra == p.yearOfEra + 1;
    }
  }

  lemma {:induction false} NextYearStart(era: int, y: int)
    requires 0 <= y < 400
    ensures YearStart(y) + YearLength(400 * era + y) == if y == 399 then 146097 else YearStart(y + 1)
  {
    hide YearStart, YearLength;
    var c, q, r := y / 100, y % 100 / 4, y % 4;
    assert y == 100 * c + 4 * q + r;
    LengthAtCoordinates(era, c, q, r);
    YearAtCoordinates(c, q, r);
    if r < 3 {
      YearAtCoordinates(c, q, r + 1);
    } else if q < 24 {
      YearAtCoordinates(c, q + 1, 0);
    } else if c < 3 {
      YearAtCoordinates(c + 1, 0, 0);
    }
  }

  /** Later dates have larger numbers: the numbers are in calendar order. */
  predicate Before(x: Date, y: Date) {
    x.year < y.year || (x.year == y.year && (x.month < y.month || (x.month == y.month && x.day < y.day)))
  }

  lemma {:induction false} NumbersInOrder(x: Date, n: nat)
    requires ValidDate(x) && n > 0
    ensures Before(x, CivilFromDays(NumberOf(x) + n))
    decreases n
  {
    hide ValidDate, DaysFromCivil, CivilFromDays;
    var d := NumberOf(x);
    NextDayNextNumber(x);
    var z := NextDate(x);
    NextIsLater(x);
    DateRoundTrip(z);
    NumberRoundTrip(d + n);
    if n > 1 {
      NumbersInOrder(z, n - 1);
    }
  }

  lemma {:induction false} NextIsLater(x: Date)
    ensures Before(x, NextDate(x))
  {
  }
}
