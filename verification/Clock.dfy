/** DOS's clock: the host's time moved by an offset in hundredths of a second, and the BIOS tick count it can follow. */
module Clock {
  import opened Calendar

  const PER_DAY: nat := 8640000
  const PIT_HZ: nat := 1193182
  const PIT_DIVISOR: nat := 6553600
  const TICKS_PER_DAY: nat := 0x1800B0
  const LAST_TICK: nat := 0x1800AF
  const FIRST_DAY: nat := 306

  datatype Time = Time(year: int, month: nat, day: nat, hour: nat, minute: nat, second: nat, hundredths: nat,
                       dayOfWeek: nat)

  predicate DosClockIsTimeValid(hour: nat, minute: nat, second: nat, hundredths: nat) {
    hour < 24 && minute < 60 && second < 60 && hundredths < 100
  }

  /** A reading of a clock; the weekday is not looked at. */
  predicate IsReading(t: Time) {
    t.year >= 1 && IsDate(t.year, t.month, t.day) && DosClockIsTimeValid(t.hour, t.minute, t.second, t.hundredths)
  }

  function TimeOfDay(hour: nat, minute: nat, second: nat, hundredths: nat): nat {
    ((hour * 60 + minute) * 60 + second) * 100 + hundredths
  }

  function DosClockPack(t: Time): int
    requires t.year >= 1
  {
    DosClockDays(t.year, t.month, t.day) * PER_DAY + TimeOfDay(t.hour, t.minute, t.second, t.hundredths)
  }

  function DosClockUnpack(packed: int): Time {
    RemainderInDay(packed);
    var behind := CMod(packed, PER_DAY) < 0;
    var days := CDiv(packed, PER_DAY) - if behind then 1 else 0;
    var remainder: nat := CMod(packed, PER_DAY) + if behind then PER_DAY else 0;
    var date := DateOf(days);
    Time(date.year, date.month, date.day,
         remainder / 100 / 60 / 60, remainder / 100 / 60 % 60, remainder / 100 % 60, remainder % 100,
         WeekdayOf(days))
  }

  /** Day 0 was a Wednesday. */
  function WeekdayOf(days: int): nat {
    WeekRemainder(days);
    CMod(CMod(days, 7) + 7 + 3, 7)
  }

  lemma WeekRemainder(days: int)
    ensures CMod(CMod(days, 7) + 7 + 3, 7) == (days + 3) % 7
  {
  }

  /** The truncating division with its correction is the floor. */
  lemma RemainderInDay(packed: int)
    ensures var behind := CMod(packed, 8640000) < 0;
            && CDiv(packed, 8640000) - (if behind then 1 else 0) == packed / 8640000
            && CMod(packed, 8640000) + (if behind then 8640000 else 0) == packed % 8640000
  {
  }

  lemma TimeTakenApart(t: nat)
    requires t < 8640000
    ensures var hour, minute, second, hundredths := t / 100 / 60 / 60, t / 100 / 60 % 60, t / 100 % 60, t % 100;
            DosClockIsTimeValid(hour, minute, second, hundredths) && TimeOfDay(hour, minute, second, hundredths) == t
  {
    assert t / 100 / 60 < 1440;
  }

  lemma TimePutTogether(hour: nat, minute: nat, second: nat, hundredths: nat)
    requires DosClockIsTimeValid(hour, minute, second, hundredths)
    ensures var t := TimeOfDay(hour, minute, second, hundredths);
            && t < 8640000
            && t / 100 / 60 / 60 == hour && t / 100 / 60 % 60 == minute && t / 100 % 60 == second
                 && t % 100 == hundredths
  {
    var t := TimeOfDay(hour, minute, second, hundredths);
    assert t / 100 == (hour * 60 + minute) * 60 + second;
    assert t / 100 / 60 == hour * 60 + minute;
  }

  lemma DayAndTime(days: int, time: nat)
    requires time < 8640000
    ensures (days * 8640000 + time) / 8640000 == days && (days * 8640000 + time) % 8640000 == time
  {
  }

  /** What unpacking a day and a time of day gives. */
  lemma UnpackParts(days: int, hour: nat, minute: nat, second: nat, hundredths: nat)
    requires DosClockIsTimeValid(hour, minute, second, hundredths)
    ensures DosClockUnpack(days * PER_DAY + TimeOfDay(hour, minute, second, hundredths)) ==
            var date := DateOf(days);
            Time(date.year, date.month, date.day, hour, minute, second, hundredths, WeekdayOf(days))
  {
    hide TimeOfDay, WeekdayOf, DateOf;
    var time := TimeOfDay(hour, minute, second, hundredths);
    TimePutTogether(hour, minute, second, hundredths);
    DayAndTime(days, time);
    RemainderInDay(days * 8640000 + time);
  }

  /** DosClockUnpack inverts DosClockPack, field by field. */
  lemma UnpackOfPack(t: Time)
    requires IsReading(t)
    ensures DosClockUnpack(DosClockPack(t)) == t.(dayOfWeek := WeekdayOf(DosClockDays(t.year, t.month, t.day)))
  {
    hide TimeOfDay, WeekdayOf, DateOf, DosClockDays, DosClockUnpack;
    DateOfDays(t.year, t.month, t.day);
    UnpackParts(DosClockDays(t.year, t.month, t.day), t.hour, t.minute, t.second, t.hundredths);
  }

  /** And DosClockPack inverts DosClockUnpack, from 1 January of year 1 on. */
  lemma PackOfUnpack(packed: int)
    requires packed >= FIRST_DAY * PER_DAY
    ensures IsReading(DosClockUnpack(packed)) && DosClockPack(DosClockUnpack(packed)) == packed
  {
    hide TimeOfDay, WeekdayOf, DateOf, DosClockDays;
    RemainderInDay(packed);
    TimeTakenApart(packed % 8640000);
    DaysOfDate(packed / 8640000);
  }

  function ReadingTime(t: Time): nat {
    TimeOfDay(t.hour, t.minute, t.second, t.hundredths)
  }

  /** Any count unpacks to a valid time of day, its remainder, and to its day's date. */
  lemma UnpackedParts(packed: int)
    ensures var t := DosClockUnpack(packed);
            && DosClockIsTimeValid(t.hour, t.minute, t.second, t.hundredths)
            && ReadingTime(t) == packed % PER_DAY
            && DateOf(packed / PER_DAY) == Date(t.year, t.month, t.day)
            && t.dayOfWeek == (packed / PER_DAY + 3) % 7
  {
    hide TimeOfDay, DateOf;
    RemainderInDay(packed);
    WeekRemainder(packed / 8640000);
    TimeTakenApart(packed % 8640000);
  }

  /** A day later is the next weekday, at every date. */
  lemma WeekdaysFollow(packed: int)
    ensures DosClockUnpack(packed + PER_DAY).dayOfWeek == (DosClockUnpack(packed).dayOfWeek + 1) % 7 < 7
  {
    hide DosClockUnpack, DateOf, TimeOfDay;
    UnpackedParts(packed);
    UnpackedParts(packed + PER_DAY);
    DayAndTime(packed / 8640000 + 1, packed % 8640000);
    NextWeekday(packed / 8640000);
  }

  lemma NextWeekday(days: int)
    ensures (days + 1 + 3) % 7 == ((days + 3) % 7 + 1) % 7
  {
  }

  /** However far it is moved, the guest's clock advances as the host's does. */
  lemma KeepsAdvancing(host: int, later: int, offset: int)
    requires host + offset >= FIRST_DAY * PER_DAY && later >= host
    ensures var from, to := DosClockUnpack(host + offset), DosClockUnpack(later + offset);
            from.year >= 1 && to.year >= 1 && DosClockPack(to) - DosClockPack(from) == later - host
  {
    hide DosClockUnpack, DosClockPack, IsDate;
    PackOfUnpack(host + offset);
    PackOfUnpack(later + offset);
  }

  /** Moving a reading by whole days leaves its time of day. */
  lemma WholeDaysKeepTime(packed: int, days: int)
    ensures var before, after := DosClockUnpack(packed), DosClockUnpack(packed + days * PER_DAY);
            && after.hour == before.hour && after.minute == before.minute
            && after.second == before.second && after.hundredths == before.hundredths
  {
    hide DateOf, WeekdayOf, CDiv, CMod;
    RemainderInDay(packed);
    RemainderInDay(packed + days * 8640000);
    SameTimeOfDay(packed, days);
  }

  lemma SameTimeOfDay(packed: int, days: int)
    ensures (packed + days * 8640000) % 8640000 == packed % 8640000
  {
    DayAndTime(packed / 8640000 + days, packed % 8640000);
    assert packed + days * 8640000 == (packed / 8640000 + days) * 8640000 + packed % 8640000;
  }

  // ---- ticks ----

  /** The timer's ticks in so many hundredths, whole ones. */
  function WholeTicks(t: nat): nat {
    t * PIT_HZ / PIT_DIVISOR
  }

  function DosClockTicksFromTime(hour: nat, minute: nat, second: nat, hundredths: nat): nat {
    var ticks := WholeTicks(TimeOfDay(hour, minute, second, hundredths)) % 0x1_0000_0000;
    if ticks < TICKS_PER_DAY then ticks else LAST_TICK
  }

  function DosClockHundredthsFromTicks(ticks: nat): nat {
    ticks * PIT_DIVISOR / PIT_HZ
  }

  /** The time of day a tick count stands for; at or past a day's length, the day's last hundredth. */
  function ClampedHundredths(ticks: nat): (elapsed: nat)
    ensures elapsed < 8640000
  {
    if DosClockHundredthsFromTicks(ticks) >= PER_DAY then PER_DAY - 1 else DosClockHundredthsFromTicks(ticks)
  }

  method DosClockTimeFromTicks(ticks: nat) returns (hour: nat, minute: nat, second: nat, hundredths: nat)
    ensures DosClockIsTimeValid(hour, minute, second, hundredths)
    ensures TimeOfDay(hour, minute, second, hundredths) == ClampedHundredths(ticks)
  {
    var elapsed := DosClockHundredthsFromTicks(ticks);
    if elapsed >= PER_DAY {
      elapsed := PER_DAY - 1;
    }
    TimeTakenApart(elapsed);
    hide DosClockHundredthsFromTicks, TimeOfDay;
    hundredths := elapsed % 100;
    elapsed := elapsed / 100;
    second := elapsed % 60;
    elapsed := elapsed / 60;
    minute := elapsed % 60;
    elapsed := elapsed / 60;
    hour := elapsed;
  }

  /** Whether the day length cuts the count: in the last 14 hundredths of it. */
  predicate IsClamped(t: nat) {
    WholeTicks(t) >= TICKS_PER_DAY
  }

  /** To ticks and back never moves a time forward; it loses at most 6 hundredths, or 20 where the count is clamped. */
  lemma TicksRoundTrip(hour: nat, minute: nat, second: nat, hundredths: nat)
    requires DosClockIsTimeValid(hour, minute, second, hundredths)
    ensures var t, ticks := TimeOfDay(hour, minute, second, hundredths),
              DosClockTicksFromTime(hour, minute, second, hundredths);
            && ticks <= LAST_TICK
            && ClampedHundredths(ticks) == DosClockHundredthsFromTicks(ticks)
            && DosClockHundredthsFromTicks(ticks) <= t <= DosClockHundredthsFromTicks(ticks) + 20
            && (!IsClamped(t) ==> t <= DosClockHundredthsFromTicks(ticks) + 6)
  {
    hide TimeOfDay, DosClockTicksFromTime;
    TimePutTogether(hour, minute, second, hundredths);
    TicksAre(hour, minute, second, hundredths);
    TicksAndBack(TimeOfDay(hour, minute, second, hundredths));
  }

  lemma TicksAndBack(t: nat)
    requires t < 8640000
    ensures var raw := t * 1193182 / 6553600;
            var ticks := if raw < 0x1800B0 then raw else 0x1800AF;
            && raw < 0x1_0000_0000
            && ticks * 6553600 / 1193182 <= t <= ticks * 6553600 / 1193182 + 20
            && (raw < 0x1800B0 ==> t <= ticks * 6553600 / 1193182 + 6)
  {
  }

  /**
   * A later time of day never has a smaller count, at the clamped end of the day too.
   */
  lemma TicksMonotone(t: Time, u: Time)
    requires DosClockIsTimeValid(t.hour, t.minute, t.second, t.hundredths)
    requires DosClockIsTimeValid(u.hour, u.minute, u.second, u.hundredths)
    requires ReadingTime(t) <= ReadingTime(u)
    ensures DosClockTicksFromTime(t.hour, t.minute, t.second, t.hundredths)
         <= DosClockTicksFromTime(u.hour, u.minute, u.second, u.hundredths)
  {
    hide TimeOfDay, DosClockTicksFromTime, WholeTicks;
    TicksAre(t.hour, t.minute, t.second, t.hundredths);
    TicksAre(u.hour, u.minute, u.second, u.hundredths);
    CountsGrow(ReadingTime(t), ReadingTime(u));
  }

  /** The product fits the DWORD it is divided in, so the cast changes nothing. */
  lemma TicksAre(hour: nat, minute: nat, second: nat, hundredths: nat)
    requires DosClockIsTimeValid(hour, minute, second, hundredths)
    ensures DosClockTicksFromTime(hour, minute, second, hundredths)
         == var ticks := WholeTicks(TimeOfDay(hour, minute, second, hundredths));
            if ticks < TICKS_PER_DAY then ticks else LAST_TICK
  {
    TimePutTogether(hour, minute, second, hundredths);
    WholeTicksFit(TimeOfDay(hour, minute, second, hundredths));
    hide TimeOfDay, WholeTicks;
  }

  lemma WholeTicksFit(t: nat)
    requires t < 8640000
    ensures WholeTicks(t) < 0x1_0000_0000
  {
    TicksAndBack(t);
  }

  /** The BIOS's own figures: no tick at midnight, 65543 an hour later, and at most 1800AFh in a day. */
  lemma CountsKnown()
    ensures DosClockTicksFromTime(0, 0, 0, 0) == 0 && DosClockTicksFromTime(1, 0, 0, 0) == 65543
    ensures DosClockTicksFromTime(23, 0, 0, 0) == 1507499 && DosClockTicksFromTime(23, 59, 59, 99) == 0x1800AF
  {
    TicksAre(0, 0, 0, 0);
    TicksAre(23, 0, 0, 0);
    assert TimeOfDay(23, 0, 0, 0) == 8280000;
    TicksAre(1, 0, 0, 0);
    TicksAre(23, 59, 59, 99);
    assert TimeOfDay(0, 0, 0, 0) == 0 && TimeOfDay(1, 0, 0, 0) == 360000 && TimeOfDay(23, 59, 59, 99) == 8639999;
    hide DosClockTicksFromTime, TimeOfDay;
  }

  /** A count at or past a day's length stands for the last hundredth of the day, one below it for its own time. */
  lemma TimeOfCount(ticks: nat)
    ensures ClampedHundredths(ticks) == if ticks * 6553600 / 1193182 < 8640000 then ticks * 6553600 / 1193182 else 8639999
    ensures ticks > 0x1800B2 ==> ClampedHundredths(ticks) == 8639999
    ensures ticks <= 0x1800B0 ==> ClampedHundredths(ticks) < 8639999
  {
  }

  /** 1 January 2000 was a Saturday. */
  lemma WeekdayKnown()
    ensures WeekdayOf(DosClockDays(2000, 1, 1)) == 6
  {
  }

  lemma CountsGrow(t: nat, u: nat)
    requires t <= u
    ensures WholeTicks(t) <= WholeTicks(u)
  {
  }

  lemma FollowedDay(atStore: nat, wraps: nat, timeOfDay: nat)
    requires timeOfDay < 8640000
    ensures var target := atStore - CMod(atStore, 8640000) + wraps * 8640000 + timeOfDay;
            && target == (atStore / 8640000 + wraps) * 8640000 + timeOfDay
            && target / 8640000 == atStore / 8640000 + wraps && target % 8640000 == timeOfDay
  {
    DayAndTime(atStore / 8640000 + wraps, timeOfDay);
  }

  // ---- the guest's offset ----

  lemma HostReadsBack()
    ensures forall t {:trigger DosClockPack(t)} :: IsReading(t) ==>
              DosClockUnpack(DosClockPack(t)) == t.(dayOfWeek := WeekdayOf(DosClockDays(t.year, t.month, t.day)))
  {
    hide DosClockPack, DosClockUnpack, DosClockDays, WeekdayOf;
    forall t {:trigger DosClockPack(t)} | IsReading(t)
      ensures DosClockUnpack(DosClockPack(t)) == t.(dayOfWeek := WeekdayOf(DosClockDays(t.year, t.month, t.day)))
    {
      UnpackOfPack(t);
    }
  }

  /** A clock of the guest's, kept as its distance from the host's in hundredths of a second. */
  class GuestClock {
    var offset: int

    /** A clock that was never set shows the host's time. */
    constructor ()
      ensures offset == 0
      ensures forall t {:trigger DosClockPack(t)} :: IsReading(t) ==>
                ReadingAt(DosClockPack(t)) == t.(dayOfWeek := WeekdayOf(DosClockDays(t.year, t.month, t.day)))
    {
      hide DosClockPack, DosClockUnpack, DosClockDays, WeekdayOf;
      offset := 0;
      new;
      HostReadsBack();
    }

    /** What the guest reads when the host's clock stands at `packed`. */
    ghost function ReadingAt(packed: int): Time
      reads this
    {
      DosClockUnpack(packed + offset)
    }

    /** The guest's reading: exactly `offset` hundredths past the host's, and the host's own while the offset is 0. */
    method DosClockApplyOffset(hostNow: Time) returns (guestNow: Time)
      requires IsReading(hostNow)
      ensures guestNow == ReadingAt(DosClockPack(hostNow))
      ensures DosClockPack(hostNow) + offset >= FIRST_DAY * PER_DAY ==>
                IsReading(guestNow) && DosClockPack(guestNow) - DosClockPack(hostNow) == offset
      ensures offset == 0 ==> guestNow.(dayOfWeek := hostNow.dayOfWeek) == hostNow
      ensures DosClockIsTimeValid(guestNow.hour, guestNow.minute, guestNow.second, guestNow.hundredths)
    {
      hide TimeOfDay, WeekdayOf, DateOf, DosClockDays, DosClockUnpack, DosClockPack;
      guestNow := DosClockUnpack(DosClockPack(hostNow) + offset);
      UnpackedParts(DosClockPack(hostNow) + offset);
      UnpackOfPack(hostNow);
      if DosClockPack(hostNow) + offset >= FIRST_DAY * PER_DAY {
        PackOfUnpack(DosClockPack(hostNow) + offset);
      }
    }

    /**
     * The date is the new one, the time of day stays, and the offset
     * moves by whole days: at every other instant too.
     */
    method DosClockSetDate(hostNow: Time, year: nat, month: nat, day: nat)
      requires IsReading(hostNow) && DosClockIsRealDate(year, month, day)
      modifies this
      ensures var host := DosClockPack(hostNow);
              && ReadingAt(host) == old(ReadingAt(host)).(year := year, month := month, day := day,
                                                          dayOfWeek := WeekdayOf(DosClockDays(year, month, day)))
              && offset == old(offset) + (DosClockDays(year, month, day) - old((host + offset) / PER_DAY)) * PER_DAY
    {
      hide TimeOfDay, WeekdayOf, DateOf, DosClockDays, DosClockUnpack;
      var host := DosClockPack(hostNow);
      var guestNow := DosClockApplyOffset(hostNow);
      UnpackedParts(host + offset);
      guestNow := guestNow.(year := year, month := month, day := day);
      UnpackOfPack(guestNow);
      offset := DosClockPack(guestNow) - host;
    }

    /** The time of day is the new one and the date stays. */
    method DosClockSetTime(hostNow: Time, hour: nat, minute: nat, second: nat, hundredths: nat)
      requires IsReading(hostNow) && DosClockIsTimeValid(hour, minute, second, hundredths)
      requires DosClockPack(hostNow) + offset >= FIRST_DAY * PER_DAY
      modifies this
      ensures var host := DosClockPack(hostNow);
              && ReadingAt(host) == old(ReadingAt(host)).(hour := hour, minute := minute, second := second,
                                                          hundredths := hundredths)
              && offset == old(offset) + TimeOfDay(hour, minute, second, hundredths) - old((host + offset) % PER_DAY)
    {
      hide TimeOfDay, WeekdayOf, DateOf, DosClockDays, DosClockUnpack;
      var host := DosClockPack(hostNow);
      var guestNow := DosClockApplyOffset(hostNow);
      UnpackedParts(host + offset);
      PackOfUnpack(host + offset);
      UnpackOfPack(guestNow);
      guestNow := guestNow.(hour := hour, minute := minute, second := second, hundredths := hundredths);
      UnpackOfPack(guestNow);
      offset := DosClockPack(guestNow) - host;
    }

    /** The time of day becomes the count's, and the date the day the count was stored on plus the midnights since. */
    method DosClockFollowTicks(hostNow: Time, ticks: nat, wraps: nat, since: nat)
      requires IsReading(hostNow)
      requires DosClockPack(hostNow) + offset >= DosClockHundredthsFromTicks(since)
      modifies this
      ensures var host := DosClockPack(hostNow);
              var storeDay := old((host + offset - DosClockHundredthsFromTicks(since)) / PER_DAY);
              && host + offset == (storeDay + wraps) * PER_DAY + ClampedHundredths(ticks)
              && DateOf(storeDay + wraps) == Date(ReadingAt(host).year, ReadingAt(host).month, ReadingAt(host).day)
              && ReadingTime(ReadingAt(host)) == ClampedHundredths(ticks)
    {
      hide TimeOfDay, WeekdayOf, DateOf, DosClockDays, DosClockUnpack, DosClockHundredthsFromTicks;
      var host := DosClockPack(hostNow);
      var atStore := host + offset - DosClockHundredthsFromTicks(since);
      var storeMidnight := atStore - CMod(atStore, PER_DAY);
      var timeOfDay := DosClockHundredthsFromTicks(ticks);
      if timeOfDay >= PER_DAY {
        timeOfDay := PER_DAY - 1;
      }
      offset := storeMidnight + wraps * PER_DAY + timeOfDay - host;
      FollowedDay(atStore, wraps, timeOfDay);
      UnpackedParts(host + offset);
    }
  }
}
