/** The DOS calendar: two ways between a date and a day count, each the other's inverse. */
module Calendar {
  /** The C operators, which truncate toward zero. */
  function CDiv(a: int, b: nat): int
    requires b > 0
  {
    if a >= 0 then a / b else -(-a / b)
  }

  function CMod(a: int, b: nat): int
    requires b > 0
  {
    if a >= 0 then a % b else -(-a % b)
  }

  predicate DosClockIsLeapYear(year: nat) {
    (year % 4 == 0 && year % 100 != 0) || year % 400 == 0
  }

  function DosClockDaysInMonth(year: nat, month: nat): (days: nat)
    ensures days <= 31 && (days > 0 <==> 1 <= month <= 12)
  {
    if month < 1 || month > 12 then 0
    else if month == 2 && DosClockIsLeapYear(year) then 29
    else [31, 28, 31, 30, 31, 30, 31, 31, 30, 31, 30, 31][month - 1]
  }

  /** A date of the calendar, in any year from 1 on. */
  predicate IsDate(year: nat, month: nat, day: nat) {
    year >= 1 && 1 <= month <= 12 && 1 <= day <= DosClockDaysInMonth(year, month)
  }

  predicate DosClockIsRealDate(year: nat, month: nat, day: nat) {
    year <= 9999 && IsDate(year, month, day)
  }

  /** The days before a month of the year that starts on 1 March. */
  function MonthStart(shiftedMonth: nat): nat {
    (153 * shiftedMonth + 2) / 5
  }

  /** The days before a year of a 400-year era. */
  function YearStart(yearOfEra: nat): int {
    yearOfEra * 365 + yearOfEra / 4 - yearOfEra / 100
  }

  /** Days since 0000-03-01. */
  function DosClockDays(year: nat, month: nat, day: nat): int
    requires year >= 1
  {
    var shiftedYear := year - if month <= 2 then 1 else 0;
    var era := shiftedYear / 400;
    var shiftedMonth := if month > 2 then month - 3 else month + 9;
    var dayOfYear := MonthStart(shiftedMonth) + day - 1;
    era * 146097 + (YearStart(shiftedYear - era * 400) + dayOfYear)
  }

  datatype Date = Date(year: int, month: nat, day: nat)

  function EraOf(days: int): int {
    CDiv(if days >= 0 then days else days - 146096, 146097)
  }

  function YearOfEra(dayOfEra: nat): int {
    (dayOfEra - dayOfEra / 1460 + dayOfEra / 36524 - dayOfEra / 146096) / 365
  }

  /** The date of a day count, as DosClockUnpack computes it. */
  function DateOf(days: int): (date: Date) {
    EraIsFloor(days);
    var era := EraOf(days);
    var dayOfEra: nat := days - era * 146097;
    YearOfEraInRange(dayOfEra);
    var yearOfEra: nat := YearOfEra(dayOfEra);
    var dayOfYear: nat := dayOfEra - YearStart(yearOfEra);
    var shiftedMonth := (5 * dayOfYear + 2) / 153;
    MonthOfDay(dayOfYear);
    var day: nat := dayOfYear - MonthStart(shiftedMonth) + 1;
    var month := if shiftedMonth < 10 then shiftedMonth + 3 else shiftedMonth - 9;
    Date(yearOfEra + era * 400 + if month <= 2 then 1 else 0, month, day)
  }

  /** The truncating division with its correction is the floor. */
  lemma EraIsFloor(days: int)
    ensures EraOf(days) == days / 146097 && 0 <= days - EraOf(days) * 146097 <= 146096
  {
  }

  /** A day of an era by century, leap cycle, year and day of year: only the last year of a whole cycle has day 365. */
  ghost predicate IsDayOfEra(c: nat, q: nat, r: nat, dayOfYear: nat) {
    c <= 3 && q <= 24 && r <= 3 && dayOfYear <= 365 && (dayOfYear == 365 ==> r == 3 && (q < 24 || c == 3))
  }

  lemma SplitDayOfEra(dayOfEra: nat) returns (c: nat, q: nat, r: nat, dayOfYear: nat)
    requires dayOfEra <= 146096
    ensures IsDayOfEra(c, q, r, dayOfYear) && dayOfEra == 36524 * c + 1461 * q + 365 * r + dayOfYear
  {
    c := if dayOfEra / 36524 < 3 then dayOfEra / 36524 else 3;
    var inCentury := dayOfEra - 36524 * c;
    q := inCentury / 1461;
    var inCycle := inCentury - 1461 * q;
    r := if inCycle / 365 < 3 then inCycle / 365 else 3;
    dayOfYear := inCycle - 365 * r;
  }

  /** The year of the era, recovered by subtracting the leap days the count has passed. */
  lemma YearOfEraIs(c: nat, q: nat, r: nat, dayOfYear: nat)
    requires IsDayOfEra(c, q, r, dayOfYear)
    ensures var dayOfEra := 36524 * c + 1461 * q + 365 * r + dayOfYear;
            && YearOfEra(dayOfEra) == 100 * c + 4 * q + r <= 399
            && YearStart(100 * c + 4 * q + r) + dayOfYear == dayOfEra <= 146096
  {
    var dayOfEra := 36524 * c + 1461 * q + 365 * r + dayOfYear;
    var last := if dayOfEra == 146096 then 1 else 0;
    var carry := if 24 * c + q + 365 * r + dayOfYear >= 1460 then 1 else 0;
    assert dayOfEra / 146096 == last;
    assert dayOfEra / 36524 == c + last;
    assert dayOfEra / 1460 == 25 * c + q + carry;
    YearStartIs(c, q, r);
  }

  lemma YearStartIs(c: nat, q: nat, r: nat)
    requires c <= 3 && q <= 24 && r <= 3
    ensures YearStart(100 * c + 4 * q + r) == 36524 * c + 1461 * q + 365 * r
  {
    var year := 100 * c + 4 * q + r;
    assert year / 4 == 25 * c + q;
    assert year / 100 == c;
  }

  lemma YearOfEraInRange(dayOfEra: nat)
    requires dayOfEra <= 146096
    ensures 0 <= YearOfEra(dayOfEra) <= 399 && 0 <= dayOfEra - YearStart(YearOfEra(dayOfEra)) <= 365
  {
    var c, q, r, dayOfYear := SplitDayOfEra(dayOfEra);
    YearOfEraIs(c, q, r, dayOfYear);
  }

  /** The month a day of the year falls in. */
  lemma MonthOfDay(dayOfYear: nat)
    requires dayOfYear <= 365
    ensures var m := (5 * dayOfYear + 2) / 153; m <= 11 && MonthStart(m) <= dayOfYear < MonthStart(m + 1)
  {
  }

  lemma MonthIs(shiftedMonth: nat, dayOfYear: nat)
    requires shiftedMonth <= 11 && MonthStart(shiftedMonth) <= dayOfYear < MonthStart(shiftedMonth + 1)
    ensures (5 * dayOfYear + 2) / 153 == shiftedMonth
  {
  }

  /**
   * The lengths of the months of a year that starts in March: the
   * calendar's own, with room for 30 days in February.
   */
  lemma MonthLengths(year: nat, month: nat)
    requires 1 <= month <= 12
    ensures var m := if month > 2 then month - 3 else month + 9;
            && (month != 2 ==> MonthStart(m + 1) - MonthStart(m) == DosClockDaysInMonth(year, month))
            && (month == 2 ==>
                  MonthStart(m) == 337
                  && DosClockDaysInMonth(year, month) < MonthStart(m + 1) - MonthStart(m))
  {
    assert month == 1 || month == 2 || month == 3 || month == 4 || month == 5 || month == 6
        || month == 7 || month == 8 || month == 9 || month == 10 || month == 11 || month == 12;
  }

  /** The days before a year that starts in March, counted from year 0. */
  function DaysBefore(shiftedYear: nat): int {
    shiftedYear / 400 * 146097 + YearStart(shiftedYear - shiftedYear / 400 * 400)
  }

  lemma DaysBeforeIs(era: nat, c: nat, q: nat, r: nat)
    requires c <= 3 && q <= 24 && r <= 3
    ensures DaysBefore(400 * era + 100 * c + 4 * q + r) == era * 146097 + (36524 * c + 1461 * q + 365 * r)
  {
    assert (400 * era + 100 * c + 4 * q + r) / 400 == era;
    YearStartIs(c, q, r);
  }

  /** A year by era, century, leap cycle and year of the cycle. */
  lemma SplitYear(year: nat) returns (era: nat, c: nat, q: nat, r: nat)
    ensures c <= 3 && q <= 24 && r <= 3 && year == 400 * era + 100 * c + 4 * q + r
  {
    era := year / 400;
    var yearOfEra := year - 400 * era;
    c := yearOfEra / 100;
    q := (yearOfEra - 100 * c) / 4;
    r := yearOfEra - 100 * c - 4 * q;
  }

  function ShiftedYear(year: nat, month: nat): nat
    requires year >= 1
  {
    year - if month <= 2 then 1 else 0
  }

  function ShiftedMonth(month: nat): nat {
    if month > 2 then month - 3 else month + 9
  }

  lemma MonthsGrow(shiftedMonth: nat)
    requires shiftedMonth <= 11
    ensures shiftedMonth < 11 ==> MonthStart(shiftedMonth + 1) <= 337
    ensures MonthStart(0) == 0 && MonthStart(11) == 337
  {
  }

  /**
   * A year that starts after a 29 February is preceded by the last year
   * of a cycle, and of a century only at the era's end.
   */
  lemma LeapIs(year: nat, era: nat, c: nat, q: nat, r: nat)
    requires c <= 3 && q <= 24 && r <= 3 && 400 * era + 100 * c + 4 * q + r == year - 1
    ensures DosClockIsLeapYear(year) <==> r == 3 && (q < 24 || c == 3)
  {
    Mod4(100 * era + 25 * c + q, r + 1);
    Mod100(4 * era + c, 4 * q + r + 1);
    Mod400(era, 100 * c + 4 * q + r + 1);
  }

  lemma Mod4(k: nat, rem: nat)
    requires 0 < rem <= 4
    ensures (4 * k + rem) % 4 == 0 <==> rem == 4
  {
  }

  lemma Mod100(k: nat, rem: nat)
    requires 0 < rem <= 100
    ensures (100 * k + rem) % 100 == 0 <==> rem == 100
  {
  }

  lemma Mod400(k: nat, rem: nat)
    requires 0 < rem <= 400
    ensures (400 * k + rem) % 400 == 0 <==> rem == 400
  {
  }

  /** A date's day of the era, taken apart. */
  lemma DayOfEraOfDate(year: nat, month: nat, day: nat) returns (era: nat, c: nat, q: nat, r: nat, dayOfYear: nat)
    requires IsDate(year, month, day)
    ensures IsDayOfEra(c, q, r, dayOfYear)
    ensures dayOfYear == MonthStart(ShiftedMonth(month)) + day - 1 < MonthStart(ShiftedMonth(month) + 1)
    ensures 400 * era + 100 * c + 4 * q + r == ShiftedYear(year, month)
    ensures DosClockDays(year, month, day) == era * 146097 + (36524 * c + 1461 * q + 365 * r + dayOfYear)
  {
    era, c, q, r := SplitYear(ShiftedYear(year, month));
    DaysBeforeIs(era, c, q, r);
    MonthLengths(year, month);
    MonthsGrow(ShiftedMonth(month));
    dayOfYear := MonthStart(ShiftedMonth(month)) + day - 1;
    assert DosClockDays(year, month, day) == DaysBefore(ShiftedYear(year, month)) + dayOfYear;
    hide DosClockDays, DaysBefore, YearStart, MonthStart;
    if dayOfYear == 365 {
      LeapIs(year, era, c, q, r);
    }
  }

  lemma EraIs(days: int, era: int, dayOfEra: nat)
    requires days == era * 146097 + dayOfEra && dayOfEra <= 146096
    ensures EraOf(days) == era && days - EraOf(days) * 146097 == dayOfEra
  {
    EraIsFloor(days);
  }

  /** What DateOf makes of a day given by its parts. */
  lemma DateOfParts(era: int, c: nat, q: nat, r: nat, dayOfYear: nat, shiftedMonth: nat)
    requires IsDayOfEra(c, q, r, dayOfYear)
    requires shiftedMonth <= 11 && MonthStart(shiftedMonth) <= dayOfYear < MonthStart(shiftedMonth + 1)
    ensures DateOf(era * 146097 + (36524 * c + 1461 * q + 365 * r + dayOfYear)) ==
            var month := if shiftedMonth < 10 then shiftedMonth + 3 else shiftedMonth - 9;
            Date(400 * era + 100 * c + 4 * q + r + (if month <= 2 then 1 else 0), month,
                 dayOfYear - MonthStart(shiftedMonth) + 1)
  {
    hide YearStart, YearOfEra, DateOf, EraOf;
    var dayOfEra := 36524 * c + 1461 * q + 365 * r + dayOfYear;
    YearOfEraIs(c, q, r, dayOfYear);
    EraIs(era * 146097 + dayOfEra, era, dayOfEra);
    MonthIs(shiftedMonth, dayOfYear);
    DateFromParts(era * 146097 + dayOfEra, era, dayOfEra, 100 * c + 4 * q + r, dayOfYear, shiftedMonth);
  }

  lemma DateFromParts(days: int, era: int, dayOfEra: nat, yearOfEra: nat, dayOfYear: nat, shiftedMonth: nat)
    requires EraOf(days) == era && days - era * 146097 == dayOfEra && YearOfEra(dayOfEra) == yearOfEra
    requires dayOfEra - YearStart(yearOfEra) == dayOfYear && (5 * dayOfYear + 2) / 153 == shiftedMonth
    requires MonthStart(shiftedMonth) <= dayOfYear
    ensures DateOf(days) ==
            var month := if shiftedMonth < 10 then shiftedMonth + 3 else shiftedMonth - 9;
            Date(yearOfEra + era * 400 + (if month <= 2 then 1 else 0), month, dayOfYear - MonthStart(shiftedMonth) + 1)
  {
    hide MonthStart, YearStart, YearOfEra, EraOf;
  }

  /** DosClockUnpack's date is the inverse of DosClockDays. */
  lemma DateOfDays(year: nat, month: nat, day: nat)
    requires IsDate(year, month, day)
    ensures DosClockDays(year, month, day) >= 306
    ensures DateOf(DosClockDays(year, month, day)) == Date(year, month, day)
  {
    hide DosClockDays, DateOf, MonthStart, DosClockDaysInMonth;
    var era, c, q, r, dayOfYear := DayOfEraOfDate(year, month, day);
    DateOfParts(era, c, q, r, dayOfYear, ShiftedMonth(month));
    if month <= 2 {
      MonthsFrom(month);
    }
  }

  lemma MonthsFrom(month: nat)
    requires 1 <= month <= 2
    ensures MonthStart(ShiftedMonth(month)) >= 306
  {
  }

  /** Every day from 1 January of year 1 on is a date's, and DosClockDays of that date is the day. */
  lemma DaysOfDate(days: int)
    requires days >= 306
    ensures var date := DateOf(days);
            && date.year >= 1 && IsDate(date.year, date.month, date.day)
            && DosClockDays(date.year, date.month, date.day) == days
  {
    hide DateOf, YearStart, DosClockDays, DaysBefore, DosClockIsLeapYear, MonthStart;
    EraIsFloor(days);
    var era := EraOf(days);
    var c, q, r, dayOfYear := SplitDayOfEra(days - era * 146097);
    MonthOfDay(dayOfYear);
    var shiftedMonth := (5 * dayOfYear + 2) / 153;
    DateOfParts(era, c, q, r, dayOfYear, shiftedMonth);
    var date := DateOf(days);
    FromFirstOfJanuary(era, c, q, r, dayOfYear, shiftedMonth);
    if date.month <= 2 {
      LeapIs(date.year, era, c, q, r);
    }
    DayInMonth(date.year, dayOfYear, shiftedMonth);
    DaysBeforeIs(era, c, q, r);
    DaysBeforeMonth(date.year, date.month, date.day);
  }

  lemma FromFirstOfJanuary(era: int, c: nat, q: nat, r: nat, dayOfYear: nat, shiftedMonth: nat)
    requires IsDayOfEra(c, q, r, dayOfYear) && era * 146097 + (36524 * c + 1461 * q + 365 * r + dayOfYear) >= 306
    requires shiftedMonth <= 11 && MonthStart(shiftedMonth) <= dayOfYear < MonthStart(shiftedMonth + 1)
    ensures era >= 0 && 400 * era + 100 * c + 4 * q + r + (if shiftedMonth >= 10 then 1 else 0) >= 1
  {
  }

  /** The day of the year is a day of its month. */
  lemma DayInMonth(year: nat, dayOfYear: nat, shiftedMonth: nat)
    requires shiftedMonth <= 11 && MonthStart(shiftedMonth) <= dayOfYear < MonthStart(shiftedMonth + 1)
    requires dayOfYear <= 365 && (shiftedMonth == 11 && dayOfYear == 365 ==> DosClockIsLeapYear(year))
    ensures var month := if shiftedMonth < 10 then shiftedMonth + 3 else shiftedMonth - 9;
            dayOfYear - MonthStart(shiftedMonth) + 1 <= DosClockDaysInMonth(year, month)
  {
    MonthLengths(year, if shiftedMonth < 10 then shiftedMonth + 3 else shiftedMonth - 9);
  }

  /** The day after a date. */
  function Successor(date: Date): Date
    requires date.year >= 1 && IsDate(date.year, date.month, date.day)
  {
    if date.day < DosClockDaysInMonth(date.year, date.month) then date.(day := date.day + 1)
    else if date.month < 12 then Date(date.year, date.month + 1, 1)
    else Date(date.year + 1, 1, 1)
  }

  /** Along the calendar the day count goes up by one, over month ends, year ends and leap days. */
  lemma DaysSuccessor(date: Date)
    requires date.year >= 1 && IsDate(date.year, date.month, date.day)
    ensures var next := Successor(date);
            && next.year >= 1 && IsDate(next.year, next.month, next.day)
            && DosClockDays(next.year, next.month, next.day) == DosClockDays(date.year, date.month, date.day) + 1
  {
    hide DosClockDays, DaysBefore, MonthStart, DosClockIsLeapYear;
    var next := Successor(date);
    MonthLengths(date.year, date.month);
    DaysBeforeMonth(date.year, date.month, date.day);
    DaysBeforeMonth(next.year, next.month, next.day);
    MonthsGrow(11);
    if date.month == 2 && next.month == 3 {
      YearLength(date.year - 1);
    }
  }

  lemma DaysBeforeMonth(year: nat, month: nat, day: nat)
    requires year >= 1
    ensures DosClockDays(year, month, day) == DaysBefore(ShiftedYear(year, month)) + MonthStart(ShiftedMonth(month))
              + day - 1
  {
  }

  /** A year from 1 March is 366 days when the February in it is a leap year's. */
  lemma YearLength(shiftedYear: nat)
    ensures DaysBefore(shiftedYear + 1)
         == DaysBefore(shiftedYear) + 365 + if DosClockIsLeapYear(shiftedYear + 1) then 1 else 0
  {
    var era, c, q, r := SplitYear(shiftedYear);
    LeapIs(shiftedYear + 1, era, c, q, r);
    DaysBeforeIs(era, c, q, r);
    hide DaysBefore, DosClockIsLeapYear;
    if r < 3 {
      DaysBeforeIs(era, c, q, r + 1);
    } else if q < 24 {
      DaysBeforeIs(era, c, q + 1, 0);
    } else if c < 3 {
      DaysBeforeIs(era, c + 1, 0, 0);
    } else {
      DaysBeforeIs(era + 1, 0, 0, 0);
    }
  }
}
