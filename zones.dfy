/**
  Zone descriptors: for every UTC instant a zone reports an offset, a
  daylight-saving flag and an abbreviation, and it converts wall-clock
  readings back to instants with one fixed policy for the readings that
  a change of offset skips or repeats.

  A zone here is a standard period plus at most one daylight-saving window
  (a half-open interval of UTC instants). The registry holds only the
  zones and the offsets that the test suite asserts; it is a table, not a
  rule set.
*/
module Zones {
  import opened Wrappers

  /** What a zone reports for the instants of one of its periods. */
  datatype ZonePeriod = ZonePeriod(utcOffset: int, dst: bool, abbreviation: string)

  /** Instants `starts <= u < ends` (UTC seconds) use `period`. */
  datatype DstWindow = DstWindow(starts: int, ends: int, period: ZonePeriod)

  datatype Zone = Zone(name: string, standard: ZonePeriod, summer: Option<DstWindow>)

  datatype ZoneError = ZoneNotFound(name: string)

  /**
    The standard period is not daylight-saving time and the window's period
    is. The window moves clocks forward (or not at all) when it starts, and
    lasts at least as long as that move.
  */
  predicate WellFormed(z: Zone) {
    && !z.standard.dst
    && (z.summer.Some? ==>
      && z.summer.value.period.dst
      && z.standard.utcOffset <= z.summer.value.period.utcOffset
      && z.summer.value.starts + (z.summer.value.period.utcOffset - z.standard.utcOffset) <= z.summer.value.ends)
  }

  predicate InWindow(z: Zone, u: int) {
    z.summer.Some? && z.summer.value.starts <= u < z.summer.value.ends
  }

  /** How far clocks move forward when the window starts (0 for a zone without one). */
  function Shift(z: Zone): int {
    if z.summer.Some? then z.summer.value.period.utcOffset - z.standard.utcOffset else 0
  }

  /** The period in force at instant `u`. */
  function PeriodAt(z: Zone, u: int): ZonePeriod {
    if InWindow(z, u) then z.summer.value.period else z.standard
  }

  function OffsetAt(z: Zone, u: int): int {
    PeriodAt(z, u).utcOffset
  }

  /**
    The wall-clock reading of instant `u` in zone `z`, as seconds on the UTC
    scale. No instant shows a reading that the start of the window skips.
  */
  function UtcToLocal(z: Zone, u: int): (local: int)
    ensures WellFormed(z) ==> !InGap(z, local)
  {
    u + OffsetAt(z, u)
  }

  /**
    The instant that wall-clock reading `local` denotes in zone `z`: the
    latest period whose start is at or before `local` minus that period's
    offset. A reading repeated when clocks go back therefore denotes the
    later of its two instants, and a reading skipped when clocks go forward
    is read with the offset in force before the change, which moves it
    forward by the size of the skip.
  */
  function LocalToUtc(z: Zone, local: int): (u: int)
    ensures u == local - z.standard.utcOffset || (z.summer.Some? && u == local - z.summer.value.period.utcOffset)
  {
    var a := z.standard.utcOffset;
    match z.summer
    case None => local - a
    case Some(w) =>
      if local - a >= w.ends then local - a
      else if local - w.period.utcOffset >= w.starts then local - w.period.utcOffset
      else local - a
  }

  /** Readings that clocks skip when the window starts. */
  predicate InGap(z: Zone, local: int) {
    z.summer.Some?
    && z.summer.value.starts + z.standard.utcOffset <= local
    && local < z.summer.value.starts + z.summer.value.period.utcOffset
  }

  /** Instants whose reading occurs twice, and which are the earlier of the two. */
  predicate InRepeatedHour(z: Zone, u: int) {
    InWindow(z, u) && u + Shift(z) >= z.summer.value.ends
  }

  /** Some instant shows the reading `local`. */
  ghost predicate Occurs(z: Zone, local: int) {
    exists u :: UtcToLocal(z, u) == local
  }

  /** A reading that occurs is shown again by the instant it resolves to. */
  lemma {:induction false} LocalToUtcShowsReading(z: Zone, local: int)
    requires WellFormed(z) && !InGap(z, local)
    ensures UtcToLocal(z, LocalToUtc(z, local)) == local
  {
  }

  /** The skipped readings are exactly those that no instant shows. */
  lemma {:induction false} OccursIffNotInGap(z: Zone, local: int)
    requires WellFormed(z)
    ensures Occurs(z, local) <==> !InGap(z, local)
  {
    if InGap(z, local) {
      forall u ensures UtcToLocal(z, u) != local {
        if InWindow(z, u) {
          assert UtcToLocal(z, u) >= z.summer.value.starts + z.summer.value.period.utcOffset;
        } else if u < z.summer.value.starts {
          assert UtcToLocal(z, u) < z.summer.value.starts + z.standard.utcOffset;
        } else {
          assert UtcToLocal(z, u) >= z.summer.value.ends + z.standard.utcOffset;
          assert z.summer.value.ends + z.standard.utcOffset >= z.summer.value.starts + z.summer.value.period.utcOffset;
        }
      }
    } else {
      LocalToUtcShowsReading(z, local);
      assert UtcToLocal(z, LocalToUtc(z, local)) == local;
    }
  }

  /** A skipped reading resolves to the instant the skip's size later on the wall clock. */
  lemma {:induction false} GapMovesForward(z: Zone, local: int)
    requires WellFormed(z) && InGap(z, local)
    ensures UtcToLocal(z, LocalToUtc(z, local)) == local + Shift(z)
    ensures LocalToUtc(z, local) == local - z.standard.utcOffset
  {
  }

  /**
    Reading an instant on the wall clock and resolving the reading gives
    the instant back, except in the hour that clocks repeat, where the
    later instant is chosen.
  */
  lemma {:induction false} LocalToUtcOfReading(z: Zone, u: int)
    requires WellFormed(z)
    ensures LocalToUtc(z, UtcToLocal(z, u)) == if InRepeatedHour(z, u) then u + Shift(z) else u
    ensures InRepeatedHour(z, u) ==> UtcToLocal(z, u + Shift(z)) == UtcToLocal(z, u)
  {
  }

  /** Zones without a window convert both ways exactly. */
  lemma {:induction false} FixedOffsetRoundTrips(z: Zone, u: int, local: int)
    requires z.summer.None?
    ensures LocalToUtc(z, UtcToLocal(z, u)) == u
    ensures UtcToLocal(z, LocalToUtc(z, local)) == local
    ensures OffsetAt(z, u) == z.standard.utcOffset
  {
  }

  // ---------------------------------------------------------------------
  // The registry

  const Utc := Zone("UTC", ZonePeriod(0, false, "UTC"), None)

  /** Eastern time with the daylight-saving window of 2000: 2000-04-02T07:00:00Z to 2000-10-29T06:00:00Z. */
  const Eastern := Zone("Eastern Time (US & Canada)", ZonePeriod(-18000, false, "EST"),
    Some(DstWindow(954658800, 972799200, ZonePeriod(-14400, true, "EDT"))))

  const Alaska := Zone("Alaska", ZonePeriod(-32400, false, "AKST"), None)

  const Hawaii := Zone("Hawaii", ZonePeriod(-36000, false, "HST"), None)

  /** The zone registered under `name`. */
  function Lookup(name: string): (r: Result<Zone, ZoneError>)
    ensures r.Ok? ==> r.value.name == name && WellFormed(r.value)
    ensures r.Err? ==> r.error == ZoneNotFound(name)
    ensures r.Ok? <==> name in {Utc.name, Eastern.name, Alaska.name, Hawaii.name}
  {
    if name == Utc.name then Ok(Utc)
    else if name == Eastern.name then Ok(Eastern)
    else if name == Alaska.name then Ok(Alaska)
    else if name == Hawaii.name then Ok(Hawaii)
    else Err(ZoneNotFound(name))
  }

  /** Resolves an optional zone name; no name means no zone. */
  function GetZone(name: Option<string>): (r: Result<Option<Zone>, ZoneError>)
    ensures name.None? ==> r == Ok(None)
    ensures name.Some? ==> (r.Ok? <==> Lookup(name.value).Ok?)
    ensures r.Ok? && r.value.Some? ==> r.value.value.name == name.value && WellFormed(r.value.value)
  {
    match name
    case None => Ok(None)
    case Some(n) =>
      match Lookup(n)
      case Ok(z) => Ok(Some(z))
      case Err(e) => Err(e)
  }
}
