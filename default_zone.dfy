/**
  The process-wide default zone (`Time.zone`) and the scoped helper that
  sets it for the length of a block and, in its `ensure` clause, writes
  back the setting it saved.
*/
module DefaultZone {
  import opened Wrappers
  import opened Zones
  import opened ZonedTime

  class ZoneSetting {
    /** The current default zone; `None` when no default is set. */
    var zone: Option<Zone>

    /** No default zone is set at start. */
    constructor ()
      ensures zone.None?
    {
      zone := None;
    }

    /**
      `with_time_zone(name) { ... }`: saves the default zone and makes the
      zone named `name` the default in one parallel assignment, runs
      `block` with it in force, and writes the saved zone back on the way
      out. The zone is resolved before anything is assigned, so a name that
      does not resolve fails before the saved zone is recorded; the write
      on the way out then clears the default instead of restoring it. A
      block that fails is a block whose result is an error value; the
      default is restored for it all the same.
    */
    method WithTimeZone<R>(name: Option<string>, block: Option<Zone> -> R) returns (r: Result<R, ZoneError>)
      modifies this
      ensures GetZone(name).Ok? ==> zone == old(zone) && r == Ok(block(GetZone(name).value))
      ensures GetZone(name).Err? ==> zone.None? && r == Err(GetZone(name).error)
    {
      var saved: Option<Zone> := None;
      match GetZone(name) {
        case Err(e) =>
          r := Err(e);
        case Ok(z) =>
          saved, zone := zone, z;
          var v := block(zone);
          r := Ok(v);
      }
      zone := saved;
    }

    /** `in_current_time_zone` under the current default. */
    method InCurrentTimeZoneOf(m: Moment) returns (r: Moment)
      ensures zone.None? ==> r == m
      ensures zone.Some? ==> r == Zoned(TimeWithZone(Instant(m), zone.value))
    {
      r := InCurrentTimeZone(m, zone);
    }

    /** `change_time_zone_to_current` under the current default. */
    method ChangeTimeZoneToCurrentOf(m: Moment) returns (r: Moment)
      ensures zone.None? ==> r == m
      ensures zone.Some? ==> r == Zoned(ChangeTimeZone(m, zone.value))
      ensures zone.Some? && WellFormed(zone.value) && !InGap(zone.value, Reading(m))
        ==> r.Zoned? && r.value.zone == zone.value && Time(r.value) == Reading(m)
    {
      r := ChangeTimeZoneToCurrent(m, zone);
    }
  }
}
