/**
 * Zoned moments and the two ways the converter moves a moment to another zone.
 *
 * The zone database is a parameter: an `OffsetTable` gives each zone
 * identifier a fixed offset in seconds east of UTC.  With fixed offsets every
 * civil reading in a zone names exactly one instant, so the moment Luxon's
 * `DateTime.fromObject(fields, { zone })` builds is just the fields paired
 * with the zone.
 */
module Zoned {
  import opened CivilTime

  type ZoneId = string

  /** Seconds east of UTC for each zone. */
  type OffsetTable = ZoneId -> int

  /** A civil reading attached to a zone: a Luxon DateTime. */
  datatype ZonedMoment = ZonedMoment(civil: Civil, zone: ZoneId)

  /** Seconds since 1970-01-01 00:00:00 UTC of the moment: the instant Luxon keeps. */
  function Instant(m: ZonedMoment, offset: OffsetTable): int {
    LocalSeconds(m.civil) - offset(m.zone)
  }

  /**
   * The instant of a valid moment loses nothing: reading that instant in the
   * moment's own zone gives the moment back.
   */
  lemma InstantRecoversReading(m: ZonedMoment, offset: OffsetTable)
    requires ValidCivil(m.civil)
    ensures NowIn(Instant(m, offset), m.zone, offset) == m
  {
    NowInUnique(Instant(m, offset), m, offset);
  }

  /**
   * `DateTime.fromObject({ year: m.year, ..., second: m.second }, { zone })`:
   * the same wall-clock reading, reinterpreted as a reading in `zone`.
   */
  function RelabelZone(m: ZonedMoment, zone: ZoneId): (r: ZonedMoment)
    ensures r.civil == m.civil && r.zone == zone
  {
    ZonedMoment(m.civil, zone)
  }

  /** `m.setZone(zone)`: the reading in `zone` of the instant `m` denotes. */
  function SameInstantIn(m: ZonedMoment, zone: ZoneId, offset: OffsetTable): (r: ZonedMoment)
    ensures r.zone == zone && ValidCivil(r.civil)
    ensures Instant(r, offset) == Instant(m, offset)
  {
    ZonedMoment(CivilFromLocalSeconds(Instant(m, offset) + offset(zone)), zone)
  }

  /** `DateTime.now().setZone(zone)`, the clock reading `now` given in seconds since the epoch. */
  function NowIn(now: int, zone: ZoneId, offset: OffsetTable): (r: ZonedMoment)
    ensures r.zone == zone && ValidCivil(r.civil)
    ensures Instant(r, offset) == now
  {
    ZonedMoment(CivilFromLocalSeconds(now + offset(zone)), zone)
  }

  /** The Now button reads the clock's instant in a zone exactly as `setZone` reads a moment's instant. */
  lemma NowInIsSameInstantIn(m: ZonedMoment, zone: ZoneId, offset: OffsetTable)
    ensures NowIn(Instant(m, offset), zone, offset) == SameInstantIn(m, zone, offset)
  {
    SameInstantUnique(m, NowIn(Instant(m, offset), zone, offset), offset);
  }

  /** Relabelling keeps the reading and moves the instant by the difference of the offsets. */
  lemma RelabelShiftsInstant(m: ZonedMoment, zone: ZoneId, offset: OffsetTable)
    ensures RelabelZone(m, zone).civil == m.civil && RelabelZone(m, zone).zone == zone
    ensures Instant(RelabelZone(m, zone), offset) == Instant(m, offset) + offset(m.zone) - offset(zone)
  {
  }

  /** A valid moment in `zone` with the instant of `m` is the one SameInstantIn gives. */
  lemma SameInstantUnique(m: ZonedMoment, r: ZonedMoment, offset: OffsetTable)
    requires ValidCivil(r.civil) && Instant(r, offset) == Instant(m, offset)
    ensures r == SameInstantIn(m, r.zone, offset)
  {
    LocalSecondsInjective(r.civil, SameInstantIn(m, r.zone, offset).civil);
  }

  /** The moment Now gives is the one valid reading in `zone` whose instant is the clock reading. */
  lemma NowInUnique(now: int, r: ZonedMoment, offset: OffsetTable)
    requires ValidCivil(r.civil) && Instant(r, offset) == now
    ensures NowIn(now, r.zone, offset) == r
  {
    LocalSecondsInjective(r.civil, NowIn(now, r.zone, offset).civil);
  }

  /** Converting a valid moment to its own zone changes nothing. */
  lemma SameInstantInOwnZone(m: ZonedMoment, offset: OffsetTable)
    requires ValidCivil(m.civil)
    ensures SameInstantIn(m, m.zone, offset) == m
  {
    SameInstantUnique(m, m, offset);
  }

  /** Converting there and back restores a valid moment. */
  lemma SameInstantRoundTrip(m: ZonedMoment, zone: ZoneId, offset: OffsetTable)
    requires ValidCivil(m.civil)
    ensures SameInstantIn(SameInstantIn(m, zone, offset), m.zone, offset) == m
  {
    SameInstantUnique(SameInstantIn(m, zone, offset), m, offset);
  }

  /** The two conversions agree exactly when the zones share an offset. */
  lemma RelabelIsSameInstantIff(m: ZonedMoment, zone: ZoneId, offset: OffsetTable)
    requires ValidCivil(m.civil)
    ensures RelabelZone(m, zone) == SameInstantIn(m, zone, offset) <==> offset(zone) == offset(m.zone)
  {
    if offset(zone) == offset(m.zone) {
      SameInstantUnique(m, RelabelZone(m, zone), offset);
    }
  }

  /** The clock reading 19723 days after the epoch is 2024-01-01 00:00:00 in UTC. */
  lemma NewYearInUtc(offset: OffsetTable, now: int)
    requires offset("UTC") == 0 && now == 19723 * SecondsPerDay
    ensures NowIn(now, "UTC", offset) == ZonedMoment(Civil(2024, 1, 1, 0, 0, 0), "UTC")
  {
    var newYear := ZonedMoment(Civil(2024, 1, 1, 0, 0, 0), "UTC");
    UnixEpochDay();
    assert LocalSeconds(newYear.civil) == now;
    NowInUnique(now, newYear, offset);
  }

  /** 2024-01-01 00:00:00 in UTC is 2024-01-01 07:00:00 in Asia/Ho_Chi_Minh (UTC+7). */
  lemma HoChiMinhExample(offset: OffsetTable)
    requires offset("UTC") == 0 && offset("Asia/Ho_Chi_Minh") == 7 * 3600
    ensures SameInstantIn(ZonedMoment(Civil(2024, 1, 1, 0, 0, 0), "UTC"), "Asia/Ho_Chi_Minh", offset)
         == ZonedMoment(Civil(2024, 1, 1, 7, 0, 0), "Asia/Ho_Chi_Minh")
  {
    SameInstantUnique(ZonedMoment(Civil(2024, 1, 1, 0, 0, 0), "UTC"),
                      ZonedMoment(Civil(2024, 1, 1, 7, 0, 0), "Asia/Ho_Chi_Minh"), offset);
  }
}
