/** The long-name services' own calendar, and FILETIMEs to and from DOS's packed date and time. */
module Lfn {
  import opened Machine
  import opened Calendar

  const EPOCH_DAYS := 719468
  const UNIX_DAYS := 134774
  const FIRST_YEAR := 1980
  const LAST_YEAR := 2107

  /** A DOS date, a DOS time, and the 10 ms units that the time's two-second steps leave over. */
  datatype Stamp = Stamp(date: Word, time: Word, tenMs: Byte)

  function DosLfnDaysInMonth(year: int, month: nat): nat {
    if month == 2 && ((CMod(year, 4) == 0 && CMod(year, 100) != 0) || CMod(year, 400) == 0) then 29
    else if 1 <= month <= 12 then [31, 28, 31, 30, 31, 30, 31, 31, 30, 31, 30, 31][month - 1]
    else 0
  }

  /** Days since 1970-01-01. */
  function DosLfnDaysFromCivil(civilYear: int, month: nat, day: nat): int {
    var year := civilYear - if month <= 2 then 1 else 0;
    var era := CDiv(if year >= 0 then year else year - 399, 400);
    var yearOfEra := year - era * 400;
    var dayOfYear := CDiv(153 * (month + if month > 2 then -3 else 9) + 2, 5) + day - 1;
    var dayOfEra := yearOfEra * 365 + CDiv(yearOfEra, 4) - CDiv(yearOfEra, 100) + dayOfYear;
    era * 146097 + dayOfEra - EPOCH_DAYS
  }

  // The way back, on C's truncating divisions throughout.

  function CivilEra(days: int): int {
    CDiv(if days >= 0 then days else days - 146096, 146097)
  }

  function CivilYear(dayOfEra: int): int {
    CDiv(dayOfEra - CDiv(dayOfEra, 1460) + CDiv(dayOfEra, 36524) - CDiv(dayOfEra, 146096), 365)
  }

  function CivilDayOfYear(dayOfEra: int): int {
    var yearOfEra := CivilYear(dayOfEra);
    dayOfEra - (365 * yearOfEra + CDiv(yearOfEra, 4) - CDiv(yearOfEra, 100))
  }

  function CivilDay(dayOfYear: int): int {
    dayOfYear - CDiv(153 * CDiv(5 * dayOfYear + 2, 153) + 2, 5) + 1
  }

  /** The date of a day count from 1970-01-01. */
  function DosLfnCivilFromDays(unixDays: int): (date: Date) {
    hide CivilEra, CivilYear, CivilDayOfYear, CivilDay, EraOf, YearOfEra, YearStart, MonthStart, CDiv;
    CivilFieldsAgree(unixDays + EPOCH_DAYS);
    var days := unixDays + EPOCH_DAYS;
    var era := CivilEra(days);
    var dayOfEra := days - era * 146097;
    var dayOfYear := CivilDayOfYear(dayOfEra);
    var shiftedMonth := CDiv(5 * dayOfYear + 2, 153);
    var month := if shiftedMonth < 10 then shiftedMonth + 3 else shiftedMonth - 9;
    Date(CivilYear(dayOfEra) + era * 400 + (if month <= 2 then 1 else 0), month, CivilDay(dayOfYear))
  }

  lemma CivilYearAgrees(dayOfEra: nat)
    requires dayOfEra <= 146096
    ensures CivilYear(dayOfEra) == YearOfEra(dayOfEra)
    ensures CivilDayOfYear(dayOfEra) == dayOfEra - YearStart(YearOfEra(dayOfEra))
  {
    YearOfEraInRange(dayOfEra);
    assert dayOfEra / 1460 <= dayOfEra;
    assert dayOfEra / 36524 >= dayOfEra / 146096;
  }

  lemma CivilDayAgrees(dayOfYear: nat)
    requires dayOfYear <= 365
    ensures var m := (5 * dayOfYear + 2) / 153;
            && CDiv(5 * dayOfYear + 2, 153) == m <= 11
            && CivilDay(dayOfYear) == dayOfYear - MonthStart(m) + 1 >= 1
  {
    MonthOfDay(dayOfYear);
  }

  /** At every day, before the epoch too, the truncating divisions give the fields the DOS clock's way back gives. */
  lemma CivilFieldsAgree(days: int)
    ensures CivilEra(days) == EraOf(days)
    ensures var dayOfEra := days - CivilEra(days) * 146097;
            && 0 <= dayOfEra <= 146096
            && CivilYear(dayOfEra) == YearOfEra(dayOfEra)
            && 0 <= CivilDayOfYear(dayOfEra) == dayOfEra - YearStart(YearOfEra(dayOfEra)) <= 365
            && var dayOfYear := CivilDayOfYear(dayOfEra);
               && 0 <= CDiv(5 * dayOfYear + 2, 153) == (5 * dayOfYear + 2) / 153 <= 11
               && CivilDay(dayOfYear) == dayOfYear - MonthStart((5 * dayOfYear + 2) / 153) + 1 >= 1
  {
    hide CivilYear, CivilDayOfYear, CivilDay, YearOfEra, YearStart, MonthStart;
    EraIsFloor(days);
    var dayOfEra: nat := days - EraOf(days) * 146097;
    YearOfEraInRange(dayOfEra);
    CivilYearAgrees(dayOfEra);
    CivilDayAgrees(CivilDayOfYear(dayOfEra));
  }

  /** The two day counts differ by their epochs on every date they share. */
  lemma DayCountsAgree(year: nat, month: nat, day: nat)
    requires year >= 1 && 1 <= month <= 12 && day >= 1
    ensures DosLfnDaysFromCivil(year, month, day) == DosClockDays(year, month, day) - EPOCH_DAYS
  {
    var shifted := ShiftedYear(year, month);
    EraOfYear(shifted);
  }

  lemma EraOfYear(year: nat)
    ensures CDiv(year, 400) == year / 400 && 0 <= year - year / 400 * 400 < 400
  {
  }

  /** And so do the two ways back, at every day. */
  lemma DatesAgree(days: int)
    ensures DosLfnCivilFromDays(days - EPOCH_DAYS) == DateOf(days)
  {
    hide CivilEra, CivilYear, CivilDayOfYear, CivilDay, YearOfEra, YearStart, MonthStart, EraOf, CDiv;
    CivilFieldsAgree(days);
  }

  lemma MonthsAgree(year: nat, month: nat)
    ensures DosLfnDaysInMonth(year, month) == DosClockDaysInMonth(year, month)
  {
  }

  /** DosLfnCivilFromDays inverts DosLfnDaysFromCivil on every date from year 1 on. */
  lemma CivilRoundTrip(year: nat, month: nat, day: nat)
    requires IsDate(year, month, day)
    ensures DosLfnCivilFromDays(DosLfnDaysFromCivil(year, month, day)) == Date(year, month, day)
  {
    hide DosLfnCivilFromDays, DosLfnDaysFromCivil, DosClockDays, DateOf;
    DayCountsAgree(year, month, day);
    DatesAgree(DosClockDays(year, month, day));
    DateOfDays(year, month, day);
  }

  // ---- packed dates and times ----

  function PackDate(year: nat, month: nat, day: nat): nat {
    year * 512 + month * 32 + day
  }

  function PackTime(hour: nat, minute: nat, halfSeconds: nat): nat {
    hour * 2048 + minute * 32 + halfSeconds
  }

  /** FILETIME to DOS: nothing outside the years a DOS date can hold. */
  function DosLfnFileTimeToDos(fileTime: nat): Option<Stamp> {
    var seconds := fileTime / 10000000;
    var remainder := fileTime % 10000000;
    var days := seconds / 86400 - UNIX_DAYS;
    var secondOfDay := seconds % 86400;
    var date := DosLfnCivilFromDays(days);
    if date.year < FIRST_YEAR || date.year > LAST_YEAR then None
    else
      var hour := secondOfDay / 3600;
      var minute := secondOfDay / 60 % 60;
      var second := secondOfDay % 60;
      Some(Stamp(PackDate(date.year - FIRST_YEAR, date.month, date.day) % 0x1_0000,
                 PackTime(hour, minute, second / 2) % 0x1_0000,
                 (second % 2 * 100 + remainder / 100000) % 0x100))
  }

  /** DOS to FILETIME: nothing for a field DOS cannot hold. */
  function DosLfnDosToFileTime(stamp: Stamp): Option<nat> {
    var year := FIRST_YEAR + stamp.date / 512;
    var month := stamp.date / 32 % 16;
    var day := stamp.date % 32;
    var hour := stamp.time / 2048;
    var minute := stamp.time / 32 % 64;
    var second := stamp.time % 32 * 2;
    if month < 1 || month > 12 || day < 1 || day > DosLfnDaysInMonth(year, month) then None
    else if hour > 23 || minute > 59 || second > 58 || stamp.tenMs > 199 then None
    else
      var days := DosLfnDaysFromCivil(year, month, day) + UNIX_DAYS;
      FileDaysPositive(year, month, day);
      Some((days * 86400 + hour * 3600 + minute * 60 + second) * 10000000 + stamp.tenMs * 100000)
  }

  lemma FileDaysPositive(year: nat, month: nat, day: nat)
    requires FIRST_YEAR <= year && 1 <= month <= 12 && day >= 1
    ensures DosLfnDaysFromCivil(year, month, day) + UNIX_DAYS > 0
  {
    DayCountsAgree(year, month, day);
  }

  /** The fields of a stamp that DOS can hold. */
  predicate IsStamp(year: nat, month: nat, day: nat, hour: nat, minute: nat, second: nat) {
    FIRST_YEAR <= year <= LAST_YEAR && IsDate(year, month, day) && hour <= 23 && minute <= 59 && second <= 59
  }

  lemma DateUnpacks(year: nat, month: nat, day: nat)
    requires year <= 127 && month <= 15 && day <= 31
    ensures var p := PackDate(year, month, day);
            p < 0x1_0000 && p / 512 == year && p / 32 % 16 == month && p % 32 == day
  {
    var p := PackDate(year, month, day);
    assert p / 32 == 16 * year + month;
  }

  lemma DatePacks(p: Word)
    ensures PackDate(p / 512, p / 32 % 16, p % 32) == p && p / 512 <= 127
  {
    assert p / 32 / 16 == p / 512;
  }

  lemma TimeUnpacks(hour: nat, minute: nat, halfSeconds: nat)
    requires hour <= 31 && minute <= 63 && halfSeconds <= 31
    ensures var p := PackTime(hour, minute, halfSeconds);
            p < 0x1_0000 && p / 2048 == hour && p / 32 % 64 == minute && p % 32 == halfSeconds
  {
    var p := PackTime(hour, minute, halfSeconds);
    assert p / 32 == 64 * hour + minute;
  }

  lemma TimePacks(p: Word)
    ensures PackTime(p / 2048, p / 32 % 64, p % 32) == p
  {
    assert p / 32 / 64 == p / 2048;
  }

  /** A FILETIME's days, time of day and ticks within the second. */
  lemma FileTimeParts(days: nat, hour: nat, minute: nat, second: nat, ticks: nat)
    requires hour <= 23 && minute <= 59 && second <= 59 && ticks < 10000000
    ensures var f := (days * 86400 + hour * 3600 + minute * 60 + second) * 10000000 + ticks;
            && f / 10000000 / 86400 == days && f % 10000000 == ticks
            && f / 10000000 % 86400 / 3600 == hour && f / 10000000 % 86400 / 60 % 60 == minute
                 && f / 10000000 % 86400 % 60 == second
  {
    var secondOfDay := hour * 3600 + minute * 60 + second;
    var f := (days * 86400 + secondOfDay) * 10000000 + ticks;
    assert f / 10000000 == days * 86400 + secondOfDay;
    assert f / 10000000 % 86400 == secondOfDay;
    assert secondOfDay / 60 == hour * 60 + minute;
  }

  /** The stamp of a FILETIME given by its fields. */
  lemma StampOfFields(year: nat, month: nat, day: nat, hour: nat, minute: nat, second: nat, hundredths: nat)
    requires IsStamp(year, month, day, hour, minute, second) && hundredths <= 99
    ensures var days := DosLfnDaysFromCivil(year, month, day) + UNIX_DAYS;
            && days > 0
            && DosLfnFileTimeToDos((days * 86400 + hour * 3600 + minute * 60 + second) * 10000000 + hundredths * 100000)
               == Some(Stamp(PackDate(year - FIRST_YEAR, month, day) % 0x1_0000,
                             PackTime(hour, minute, second / 2) % 0x1_0000,
                             second % 2 * 100 + hundredths))
  {
    hide DosLfnDaysFromCivil, DosLfnCivilFromDays, PackDate, PackTime, DosClockDaysInMonth;
    CivilRoundTrip(year, month, day);
    FileDaysPositive(year, month, day);
    FileTimeParts(DosLfnDaysFromCivil(year, month, day) + UNIX_DAYS, hour, minute, second, hundredths * 100000);
  }

  /** Converting a stamp to a FILETIME and back gives the stamp, for every one that is accepted. */
  lemma StampRoundTrip(stamp: Stamp)
    requires DosLfnDosToFileTime(stamp).Some?
    ensures DosLfnFileTimeToDos(DosLfnDosToFileTime(stamp).value) == Some(stamp)
  {
    hide DosLfnDaysFromCivil, DosLfnFileTimeToDos, PackDate, PackTime, DosLfnDaysInMonth, DosClockDaysInMonth;
    var year := FIRST_YEAR + stamp.date / 512;
    var month := stamp.date / 32 % 16;
    var day := stamp.date % 32;
    var odd := stamp.tenMs / 100;
    MonthsAgree(year, month);
    DatePacks(stamp.date);
    TimePacks(stamp.time);
    StampOfFields(year, month, day, stamp.time / 2048, stamp.time / 32 % 64, stamp.time % 32 * 2 + odd,
                  stamp.tenMs - 100 * odd);
  }

  /**
   * Accepted are exactly the stamps whose fields are a date of the
   * calendar, a time of day and less than two seconds over.
   */
  lemma StampAcceptedIff(stamp: Stamp)
    ensures DosLfnDosToFileTime(stamp).Some? <==>
              && IsStamp(FIRST_YEAR + stamp.date / 512, stamp.date / 32 % 16, stamp.date % 32,
                         stamp.time / 2048, stamp.time / 32 % 64, stamp.time % 32 * 2)
              && stamp.tenMs <= 199
  {
    hide DosLfnDaysFromCivil, DosLfnDaysInMonth, DosClockDaysInMonth;
    MonthsAgree(FIRST_YEAR + stamp.date / 512, stamp.date / 32 % 16);
    DatePacks(stamp.date);
  }

  /** The parts of a FILETIME's time, put together again. */
  lemma FileTimeWhole(f: nat)
    ensures var secondOfDay, remainder := f / 10000000 % 86400, f % 10000000;
            var hour, minute, second := secondOfDay / 3600, secondOfDay / 60 % 60, secondOfDay % 60;
            && hour <= 23 && minute <= 59 && second <= 59 && remainder / 100000 <= 99
            && (f / 10000000 / 86400 * 86400 + hour * 3600 + minute * 60 + second) * 10000000
               + remainder / 100000 * 100000 == f - f % 100000
  {
    var seconds := f / 10000000;
    var secondOfDay := seconds % 86400;
    assert secondOfDay / 60 / 60 == secondOfDay / 3600;
    assert seconds == seconds / 86400 * 86400 + secondOfDay;
    HundredthsWhole(f);
  }

  lemma HundredthsWhole(f: nat)
    ensures f % 10000000 / 100000 * 100000 == f % 10000000 - f % 100000
  {
    var q, r := f / 10000000, f % 10000000;
    assert f == 100000 * (100 * q + r / 100000) + r % 100000;
  }

  /** From 1601 on, a day's date counts back to the day. */
  lemma DayOfCivil(days: nat)
    ensures var date := DosLfnCivilFromDays(days - UNIX_DAYS);
            && date.year >= 1 && IsDate(date.year, date.month, date.day)
            && DosLfnDaysFromCivil(date.year, date.month, date.day) == days - UNIX_DAYS
  {
    hide DosLfnCivilFromDays, DosLfnDaysFromCivil, DosClockDays, DateOf, DosClockDaysInMonth;
    DatesAgree(days - UNIX_DAYS + EPOCH_DAYS);
    DaysOfDate(days - UNIX_DAYS + EPOCH_DAYS);
    var date := DosLfnCivilFromDays(days - UNIX_DAYS);
    DayCountsAgree(date.year, date.month, date.day);
  }

  /** The FILETIME of a stamp given by its fields. */
  lemma FileTimeOfFields(year: nat, month: nat, day: nat, hour: nat, minute: nat, halfSeconds: nat, tenMs: Byte)
    requires IsStamp(year, month, day, hour, minute, 2 * halfSeconds) && tenMs <= 199
    ensures var date, time := PackDate(year - FIRST_YEAR, month, day), PackTime(hour, minute, halfSeconds);
            && date < 0x1_0000 && time < 0x1_0000
            && DosLfnDosToFileTime(Stamp(date, time, tenMs)) ==
               Some(((DosLfnDaysFromCivil(year, month, day) + UNIX_DAYS) * 86400 + hour * 3600 + minute * 60
                     + 2 * halfSeconds) * 10000000
                    + tenMs * 100000)
  {
    hide DosLfnDaysFromCivil, PackDate, PackTime, DosLfnDaysInMonth, DosClockIsLeapYear;
    MonthsAgree(year, month);
    FileDaysPositive(year, month, day);
    DateUnpacks(year - FIRST_YEAR, month, day);
    TimeUnpacks(hour, minute, halfSeconds);
  }

  /** The other way the FILETIME comes back rounded down to 10 ms: less than 100000 ticks are lost. */
  lemma FileTimeRoundTrip(fileTime: nat)
    requires DosLfnFileTimeToDos(fileTime).Some?
    ensures DosLfnDosToFileTime(DosLfnFileTimeToDos(fileTime).value) == Some(fileTime - fileTime % 100000)
  {
    hide DosLfnDaysFromCivil, DosLfnCivilFromDays, PackDate, PackTime, DosLfnDosToFileTime, DosClockDaysInMonth;
    var days, secondOfDay := fileTime / 10000000 / 86400, fileTime / 10000000 % 86400;
    var date := DosLfnCivilFromDays(days - UNIX_DAYS);
    var second := secondOfDay % 60;
    DayOfCivil(days);
    FileTimeWhole(fileTime);
    FileTimeOfFields(date.year, date.month, date.day, secondOfDay / 3600, secondOfDay / 60 % 60, second / 2,
                     second % 2 * 100 + fileTime % 10000000 / 100000);
  }

  // ---- where the counts start ----

  lemma EpochDays()
    ensures DosLfnDaysFromCivil(1970, 1, 1) == 0 && DosLfnDaysFromCivil(1601, 1, 1) == -134774
    ensures DosLfnDaysFromCivil(1980, 1, 1) == 3652
  {
    hide DosLfnCivilFromDays, DosLfnDaysInMonth;
  }

  /** Day 0 of the long-name count is 1 January 1970, and day 0 of a FILETIME 1 January 1601, 134774 days earlier. */
  lemma CountsStart()
    ensures DosLfnDaysFromCivil(1970, 1, 1) == 0 && DosLfnCivilFromDays(0) == Date(1970, 1, 1)
    ensures DosLfnDaysFromCivil(1601, 1, 1) == -134774 && DosLfnCivilFromDays(-134774) == Date(1601, 1, 1)
  {
    EpochDays();
    hide DosLfnCivilFromDays, DosLfnDaysFromCivil;
    CivilRoundTrip(1970, 1, 1);
    CivilRoundTrip(1601, 1, 1);
  }

  /** Of every stamp accepted: its FILETIME is the ticks of 100 ns from 1 January 1601 to its date and time. */
  lemma StampCountsFrom1601(stamp: Stamp)
    requires DosLfnDosToFileTime(stamp).Some?
    ensures var days := DosLfnDaysFromCivil(1980 + stamp.date / 512, stamp.date / 32 % 16, stamp.date % 32)
                        - DosLfnDaysFromCivil(1601, 1, 1);
            var seconds := days * 86400 + stamp.time / 2048 * 3600 + stamp.time / 32 % 64 * 60 + stamp.time % 32 * 2;
            DosLfnDosToFileTime(stamp).value == seconds * 10000000 + stamp.tenMs * 100000
  {
    CountsStart();
    hide DosLfnDaysFromCivil, DosLfnDaysInMonth;
  }

  /** A FILETIME has a stamp exactly when its day, counted from 1 January 1601, is in the years 1980 to 2107. */
  lemma HasStampIff(fileTime: nat)
    ensures var date := DosLfnCivilFromDays(fileTime / 864000000000 + DosLfnDaysFromCivil(1601, 1, 1));
            DosLfnFileTimeToDos(fileTime).Some? <==> 1980 <= date.year <= 2107
  {
    CountsStart();
    hide DosLfnDaysFromCivil, DosLfnCivilFromDays, PackDate, PackTime;
    DaysOfTicks(fileTime);
  }

  lemma DaysOfTicks(f: nat)
    ensures f / 10000000 / 86400 == f / 864000000000
  {
  }

  /** The first instant DOS can stamp, midnight of 1 January 1980. */
  lemma FirstStamp()
    ensures DosLfnDosToFileTime(Stamp(0x0021, 0, 0)) == Some(119600064000000000)
    ensures DosLfnFileTimeToDos(119600064000000000) == Some(Stamp(0x0021, 0, 0))
  {
    EpochDays();
    hide DosLfnCivilFromDays, DosLfnDaysFromCivil, DosLfnFileTimeToDos;
    StampRoundTrip(Stamp(0x0021, 0, 0));
  }
}
