/**
 * The state of the TimezoneConverter component and its event handlers.
 *
 * The component keeps three pieces of state: the from-zone, the to-zone and
 * an optional moment shown in the date picker.  Each handler below is one
 * atomic transition of that triple.  Two ways of moving a moment to another
 * zone meet here: changing the from-zone and swapping RELABEL the moment (the
 * wall-clock fields stay, the instant moves), while the derived `converted`
 * value and the Now button keep the INSTANT.
 */
module Converter {
  import opened Options
  import opened CivilTime
  import opened Zoned
  import opened DayjsBridge

  const DefaultFromZone: ZoneId := "UTC"
  const DefaultToZone: ZoneId := "Asia/Ho_Chi_Minh"

  class TimezoneConverter {
    /** The zone database every Luxon call of the component consults. */
    const offset: OffsetTable
    var fromZone: ZoneId
    var toZone: ZoneId
    var date: Option<ZonedMoment>

    /** The moment, when there is one, is a reading in the from-zone. */
    ghost predicate Valid()
      reads this
    {
      date.Some? ==> date.value.zone == fromZone
    }

    /** The moment, when there is one, names an existing day and time of day. */
    ghost predicate CalendarValid()
      reads this
    {
      date.Some? ==> ValidCivil(date.value.civil)
    }

    /** The initial state; `now` is the clock reading in seconds since the epoch. */
    constructor (offset: OffsetTable, now: int)
      ensures this.offset == offset
      ensures fromZone == DefaultFromZone && toZone == DefaultToZone
      ensures date == Some(NowIn(now, DefaultFromZone, offset))
      ensures Valid() && CalendarValid()
    {
      this.offset := offset;
      fromZone := DefaultFromZone;
      toZone := DefaultToZone;
      date := Some(NowIn(now, DefaultFromZone, offset));
    }

    /** `converted`: the instant of the moment, read in the to-zone; null without a moment. */
    function Converted(): (r: Option<ZonedMoment>)
      reads this
      ensures r.None? <==> date.None?
      ensures r.Some? ==> r.value.zone == toZone && ValidCivil(r.value.civil)
      ensures r.Some? ==> Instant(r.value, offset) == Instant(date.value, offset)
    {
      if date.Some? then Some(SameInstantIn(date.value, toZone, offset)) else None
    }

    /** `value={luxonToDayjs(date)}`: what the date picker shows. */
    function PickerValue(): (r: Option<Dayjs>)
      reads this
      ensures r.None? <==> date.None?
      ensures date.Some? && CalendarValid() && FourDigitYear(date.value.civil)
              ==> r == Some(Parsed(DayjsOf(date.value.civil)))
      ensures date.Some? && CalendarValid() && !FourDigitYear(date.value.civil) ==> r == Some(InvalidDate)
    {
      LuxonToDayjs(date)
    }

    /** `handleFromZoneChange`: the new from-zone relabels the moment, keeping its six fields. */
    method HandleFromZoneChange(newZone: ZoneId)
      modifies this
      ensures fromZone == newZone && toZone == old(toZone)
      ensures date == if old(date).Some? then Some(RelabelZone(old(date).value, newZone)) else None
      ensures Valid() && (old(CalendarValid()) ==> CalendarValid())
    {
      fromZone := newZone;
      if date.Some? {
        date := Some(RelabelZone(date.value, newZone));
      }
    }

    /** The to-zone Select's `onChange={setToZone}`. */
    method SetToZone(newZone: ZoneId)
      modifies this
      ensures toZone == newZone && fromZone == old(fromZone) && date == old(date)
      ensures old(Valid()) ==> Valid()
    {
      toZone := newZone;
    }

    /** `handleSwap`: the zones change places and the moment is relabelled to the old to-zone. */
    method HandleSwap()
      modifies this
      ensures fromZone == old(toZone) && toZone == old(fromZone)
      ensures date == if old(date).Some? then Some(RelabelZone(old(date).value, old(toZone))) else None
      ensures Valid() && (old(CalendarValid()) ==> CalendarValid())
    {
      var prevFrom, prevTo := fromZone, toZone;
      fromZone := prevTo;
      toZone := prevFrom;
      if date.Some? {
        date := Some(RelabelZone(date.value, prevTo));
      }
    }

    /** The picker's `onChange`: a picked value becomes a reading in the from-zone; clearing gives null. */
    method OnPickerChange(value: Option<DayjsFields>)
      modifies this
      ensures fromZone == old(fromZone) && toZone == old(toZone)
      ensures date == if value.Some? then Some(ZonedMoment(CivilOfDayjs(value.value), fromZone)) else None
      ensures Valid()
      ensures (value.Some? ==> ValidDayjs(value.value)) ==> CalendarValid()
    {
      if value.Some? {
        date := Some(ZonedMoment(CivilOfDayjs(value.value), fromZone));
      } else {
        date := None;
      }
    }

    /** The Now button: the moment becomes the clock reading `now`, read in the from-zone. */
    method OnNow(now: int)
      modifies this
      ensures fromZone == old(fromZone) && toZone == old(toZone)
      ensures date.Some? && date.value.zone == fromZone && Instant(date.value, offset) == now
      ensures Valid() && CalendarValid()
    {
      date := Some(NowIn(now, fromZone, offset));
    }

    /** The Reset button: the default zones and the clock reading `now` read in UTC, whatever the state was. */
    method OnReset(now: int)
      modifies this
      ensures fromZone == DefaultFromZone && toZone == DefaultToZone
      ensures date == Some(NowIn(now, DefaultFromZone, offset))
      ensures Valid() && CalendarValid()
    {
      fromZone := DefaultFromZone;
      toZone := DefaultToZone;
      date := Some(NowIn(now, DefaultFromZone, offset));
    }
  }

  // ---------------------------------------------------------------------------
  // Sequences of events, stated from the handlers' contracts alone.

  /** Swapping twice restores the zone pair and, when the moment was anchored to the from-zone, the moment. */
  method SwapTwice(c: TimezoneConverter)
    modifies c
    ensures c.fromZone == old(c.fromZone) && c.toZone == old(c.toZone)
    ensures old(c.Valid()) ==> c.date == old(c.date)
  {
    c.HandleSwap();
    c.HandleSwap();
  }

  /** A swap shows the old to-zone reading of the instant only when the two zones share an offset. */
  method SwapRelabelsRatherThanConverts(c: TimezoneConverter)
    requires c.Valid() && c.CalendarValid() && c.date.Some?
    modifies c
    ensures c.date == old(c.Converted()) <==> c.offset(old(c.toZone)) == c.offset(old(c.fromZone))
  {
    ghost var m := c.date.value;
    RelabelIsSameInstantIff(m, c.toZone, c.offset);
    c.HandleSwap();
  }

  /** Picking a value and then changing the from-zone keeps the picked fields in the new zone. */
  method PickThenChangeFromZone(c: TimezoneConverter, v: DayjsFields, newZone: ZoneId)
    modifies c
    ensures c.date == Some(ZonedMoment(CivilOfDayjs(v), newZone)) && c.fromZone == newZone
  {
    c.OnPickerChange(Some(v));
    c.HandleFromZoneChange(newZone);
  }

  /**
   * Handing the picker's displayed value back to its `onChange` leaves the
   * moment as it was; only a four-digit year gives the picker a value to hand back.
   */
  method PickerEchoKeepsDate(c: TimezoneConverter)
    requires c.Valid() && c.CalendarValid() && c.date.Some? && FourDigitYear(c.date.value.civil)
    modifies c
    ensures c.date == old(c.date) && c.fromZone == old(c.fromZone) && c.toZone == old(c.toZone)
  {
    var shown := c.PickerValue();
    PickerRoundTrip(c.date.value);
    c.OnPickerChange(Some(shown.value.fields));
  }

  /**
   * A component mounted at 2024-01-01 00:00:00 UTC, with Asia/Ho_Chi_Minh at
   * UTC+7, shows that moment in UTC and converts it to 07:00:00 there.
   */
  method InitialConversionExample(offset: OffsetTable) returns (shown: Option<ZonedMoment>, converted: Option<ZonedMoment>)
    requires offset("UTC") == 0 && offset("Asia/Ho_Chi_Minh") == 7 * 3600
    ensures shown == Some(ZonedMoment(Civil(2024, 1, 1, 0, 0, 0), "UTC"))
    ensures converted == Some(ZonedMoment(Civil(2024, 1, 1, 7, 0, 0), "Asia/Ho_Chi_Minh"))
  {
    var now := 19723 * SecondsPerDay;
    NewYearInUtc(offset, now);
    var c := new TimezoneConverter(offset, now);
    HoChiMinhExample(offset);
    shown, converted := c.date, c.Converted();
  }
}
