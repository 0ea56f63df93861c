/**
  The zone-aware time value. A TimeWithZone holds one absolute instant
  (integer seconds since 1970-01-01T00:00:00Z) and a zone; its wall-clock
  fields are derived from the two and never stored. Plain UTC times and
  DateTimes (offset zero, whole seconds) take part in conversions and
  comparisons through `Moment`.
*/
module ZonedTime {
  import opened Wrappers
  import opened Calendar
  import opened Zones

  datatype TimeWithZone = TimeWithZone(utc: int, zone: Zone)

  /** The values a zone-aware operation accepts: plain UTC times, DateTimes and zoned values. */
  datatype Moment = UtcTime(seconds: int) | DateTime(seconds: int) | Zoned(value: TimeWithZone)

  // ---------------------------------------------------------------------
  // Construction and the derived local representation

  /** A value built from a UTC instant alone is in the UTC zone. */
  function FromUtc(utc: int): (t: TimeWithZone)
    ensures t.utc == utc && IsUtc(t)
  {
    TimeWithZone(utc, Zones.Utc)
  }

  /**
    The wall-clock reading of `t`, as seconds on the UTC scale (the plain
    time that `time` returns). In UTC it is the instant itself. The zone
    never skips it, and resolving it in the zone gives the instant back,
    except in the hour that clocks repeat.
  */
  function Time(t: TimeWithZone): (local: int)
    ensures IsUtc(t) ==> local == t.utc
    ensures WellFormed(t.zone) ==> !InGap(t.zone, local)
    ensures WellFormed(t.zone) && !InRepeatedHour(t.zone, t.utc) ==> LocalToUtc(t.zone, local) == t.utc
  {
    var local := UtcToLocal(t.zone, t.utc);
    assert WellFormed(t.zone) ==> LocalToUtc(t.zone, local) == if InRepeatedHour(t.zone, t.utc) then t.utc + Shift(t.zone) else t.utc by {
      if WellFormed(t.zone) {
        LocalToUtcOfReading(t.zone, t.utc);
      }
    }
    local
  }

  /** The local civil fields of `t`: valid fields that denote the reading `time`. */
  function Local(t: TimeWithZone): (c: Civil)
    ensures ValidCivil(c)
  {
    FromSeconds(Time(t))
  }

  /**
    A value built from local civil fields and a zone: the instant those
    fields denote in the zone. Fields that the zone skips resolve as
    `Zones.LocalToUtc` says.
  */
  function FromLocal(local: Civil, zone: Zone): (t: TimeWithZone)
    requires ValidCivil(local)
    ensures t.zone == zone
    ensures WellFormed(zone) && !InGap(zone, ToSeconds(local)) ==> Local(t) == local
  {
    var t := TimeWithZone(LocalToUtc(zone, ToSeconds(local)), zone);
    assert WellFormed(zone) && !InGap(zone, ToSeconds(local)) ==> Local(t) == local by {
      if WellFormed(zone) && !InGap(zone, ToSeconds(local)) {
        LocalToUtcShowsReading(zone, ToSeconds(local));
        FromSecondsToSeconds(local);
      }
    }
    t
  }

  /** The absolute instant of any moment. */
  function Instant(m: Moment): int {
    match m
    case UtcTime(s) => s
    case DateTime(s) => s
    case Zoned(t) => t.utc
  }

  /** The wall-clock reading of any moment: plain times read in UTC, zoned values in their zone. */
  function Reading(m: Moment): int {
    match m
    case UtcTime(s) => s
    case DateTime(s) => s
    case Zoned(t) => Time(t)
  }

  // ---------------------------------------------------------------------
  // Zone queries

  /** `utc_offset`: the standard offset, moved forward by the window's shift exactly while `dst?` holds. */
  function UtcOffset(t: TimeWithZone): (offset: int)
    ensures WellFormed(t.zone) ==> offset == t.zone.standard.utcOffset + (if IsDst(t) then Shift(t.zone) else 0)
  {
    OffsetAt(t.zone, t.utc)
  }

  /** `dst?`: holds exactly while the instant lies in the zone's daylight-saving window. */
  function IsDst(t: TimeWithZone): (dst: bool)
    ensures WellFormed(t.zone) ==> (dst <==> InWindow(t.zone, t.utc))
  {
    PeriodAt(t.zone, t.utc).dst
  }

  /** `zone`: the abbreviation of the window's period while `dst?` holds, else the standard one. */
  function Abbreviation(t: TimeWithZone): (abbreviation: string)
    ensures WellFormed(t.zone) && IsDst(t) ==> t.zone.summer.Some? && abbreviation == t.zone.summer.value.period.abbreviation
    ensures WellFormed(t.zone) && !IsDst(t) ==> abbreviation == t.zone.standard.abbreviation
  {
    PeriodAt(t.zone, t.utc).abbreviation
  }

  /** `utc?`: the value is in the UTC zone, which has no offset, no daylight saving and the abbreviation UTC. */
  predicate IsUtc(t: TimeWithZone)
    ensures IsUtc(t) ==> UtcOffset(t) == 0 && !IsDst(t) && Abbreviation(t) == "UTC"
  {
    t.zone == Zones.Utc
  }

  lemma {:induction false} UtcZoneHasNoOffset(t: TimeWithZone)
    requires IsUtc(t)
    ensures UtcOffset(t) == 0 && !IsDst(t) && Time(t) == t.utc
    ensures Local(t) == FromSeconds(t.utc)
  {
  }

  /** The time reading is the instant moved by the offset in force, and the fields read it back. */
  lemma {:induction false} TimeIsInstantPlusOffset(t: TimeWithZone)
    ensures Time(t) == t.utc + UtcOffset(t)
    ensures ToSeconds(Local(t)) == Time(t)
  {
    ToSecondsFromSeconds(Time(t));
  }

  // ---------------------------------------------------------------------
  // Changing zones

  /** `in_time_zone`: the same instant seen through another zone. */
  function InTimeZone(m: Moment, zone: Zone): (t: TimeWithZone)
    ensures t.utc == Instant(m) && t.zone == zone
  {
    TimeWithZone(Instant(m), zone)
  }

  /** `in_time_zone(name)`: the zone is looked up by name first. */
  function InTimeZoneNamed(m: Moment, name: string): (r: Result<TimeWithZone, ZoneError>)
    ensures r.Ok? <==> Lookup(name).Ok?
    ensures r.Ok? ==> r.value.utc == Instant(m) && r.value.zone.name == name
    ensures r.Ok? ==> r.value == InTimeZone(m, Lookup(name).value)
  {
    match Lookup(name)
    case Ok(z) => Ok(InTimeZone(m, z))
    case Err(e) => Err(e)
  }

  /** `change_time_zone`: the same wall-clock reading, now read in another zone. */
  function ChangeTimeZone(m: Moment, zone: Zone): (t: TimeWithZone)
    ensures t.zone == zone
    ensures WellFormed(zone) && !InGap(zone, Reading(m)) ==> Time(t) == Reading(m)
  {
    var t := TimeWithZone(LocalToUtc(zone, Reading(m)), zone);
    assert WellFormed(zone) && !InGap(zone, Reading(m)) ==> Time(t) == Reading(m) by {
      if WellFormed(zone) && !InGap(zone, Reading(m)) {
        LocalToUtcShowsReading(zone, Reading(m));
      }
    }
    t
  }

  /** `change_time_zone(name)`: the zone is looked up by name first. */
  function ChangeTimeZoneNamed(m: Moment, name: string): (r: Result<TimeWithZone, ZoneError>)
    ensures r.Ok? <==> Lookup(name).Ok?
    ensures r.Ok? ==> r.value.zone.name == name
    ensures r.Ok? ==> r.value == ChangeTimeZone(m, Lookup(name).value)
    ensures r.Ok? && !InGap(r.value.zone, Reading(m)) ==> Time(r.value) == Reading(m)
  {
    match Lookup(name)
    case Ok(z) => Ok(ChangeTimeZone(m, z))
    case Err(e) => Err(e)
  }

  /** `in_current_time_zone`: converts to the default zone when one is set, else returns the input. */
  function InCurrentTimeZone(m: Moment, current: Option<Zone>): (r: Moment)
    ensures current.None? ==> r == m
    ensures current.Some? ==> r.Zoned? && r.value.utc == Instant(m) && r.value.zone == current.value
  {
    match current
    case None => m
    case Some(z) => Zoned(InTimeZone(m, z))
  }

  /** `change_time_zone_to_current`: rereads the wall clock in the default zone when one is set, else returns the input. */
  function ChangeTimeZoneToCurrent(m: Moment, current: Option<Zone>): (r: Moment)
    ensures current.None? ==> r == m
    ensures current.Some? ==> r.Zoned? && r.value.zone == current.value
    ensures current.Some? && WellFormed(current.value) && !InGap(current.value, Reading(m))
      ==> Time(r.value) == Reading(m)
  {
    match current
    case None => m
    case Some(z) => Zoned(ChangeTimeZone(m, z))
  }

  /** Seeing an instant through a new zone keeps the instant; only the fields change. */
  lemma {:induction false} InTimeZoneKeepsInstant(t: TimeWithZone, zone: Zone)
    ensures InTimeZone(Zoned(t), zone) == TimeWithZone(t.utc, zone)
    ensures Time(InTimeZone(Zoned(t), zone)) == t.utc + OffsetAt(zone, t.utc)
  {
    assert InTimeZone(Zoned(t), zone) == TimeWithZone(t.utc, zone);
  }

  /**
    Rereading the wall clock in a zone with a fixed offset moves the instant
    by the difference of the offsets, so it differs from `in_time_zone`
    exactly when the offsets differ.
  */
  lemma {:induction false} ChangeTimeZoneMovesInstant(t: TimeWithZone, zone: Zone)
    requires zone.summer.None?
    ensures ChangeTimeZone(Zoned(t), zone).utc == t.utc + UtcOffset(t) - zone.standard.utcOffset
    ensures ChangeTimeZone(Zoned(t), zone).utc == InTimeZone(Zoned(t), zone).utc
      <==> UtcOffset(t) == zone.standard.utcOffset
  {
  }

  /** Rereading the wall clock keeps the local civil fields whenever the new zone shows that reading. */
  lemma {:induction false} ChangeTimeZoneKeepsFields(m: Moment, zone: Zone)
    requires WellFormed(zone) && !InGap(zone, Reading(m))
    ensures Local(ChangeTimeZone(m, zone)) == FromSeconds(Reading(m))
  {
    LocalToUtcShowsReading(zone, Reading(m));
  }

  // ---------------------------------------------------------------------
  // Arithmetic

  /** An amount added with `+`: plain seconds, or whole calendar days (`n.days`). */
  datatype Duration = Seconds(n: int) | Days(n: int)
  {
    function Negated(): Duration {
      match this
      case Seconds(n) => Seconds(-n)
      case Days(n) => Days(-n)
    }
  }

  /**
    `+`: seconds move the instant; days move the wall-clock date and keep
    the wall-clock time, and the new reading is resolved in the same zone.
  */
  function Plus(t: TimeWithZone, d: Duration): (r: TimeWithZone)
    ensures r.zone == t.zone
    ensures d.Seconds? ==> r.utc == t.utc + d.n
  {
    match d
    case Seconds(n) => TimeWithZone(t.utc + n, t.zone)
    case Days(n) => TimeWithZone(LocalToUtc(t.zone, Time(t) + n * 86400), t.zone)
  }

  /** `-`: adding the negated amount. */
  function Minus(t: TimeWithZone, d: Duration): (r: TimeWithZone)
    ensures r.zone == t.zone
    ensures d.Seconds? ==> r.utc == t.utc - d.n
  {
    Plus(t, d.Negated())
  }

  /** Adding and then subtracting the same number of seconds gives the value back. */
  lemma {:induction false} PlusMinusSeconds(t: TimeWithZone, n: int)
    ensures Minus(Plus(t, Seconds(n)), Seconds(n)) == t
    ensures Plus(Minus(t, Seconds(n)), Seconds(n)) == t
  {
  }

  /**
    Adding days to a value whose new reading the zone shows moves the local
    date by exactly that many days and keeps the local time of day.
  */
  lemma {:induction false} PlusDaysKeepsTimeOfDay(t: TimeWithZone, n: int)
    requires WellFormed(t.zone) && !InGap(t.zone, Time(t) + n * 86400)
    ensures Time(Plus(t, Days(n))) == Time(t) + n * 86400
    ensures var a, b := Local(t), Local(Plus(t, Days(n)));
      && b.hour == a.hour && b.minute == a.minute && b.second == a.second
      && DaysFromCivil(b.DateOf()) == DaysFromCivil(a.DateOf()) + n
  {
    var s := Time(t) + n * 86400;
    assert Time(Plus(t, Days(n))) == s by {
      LocalToUtcShowsReading(t.zone, s);
    }
    ShiftByDays(Time(t), n, Time(Plus(t, Days(n))));
  }

  /** In a zone with a fixed offset, subtracting days undoes adding them. */
  lemma {:induction false} PlusMinusDays(t: TimeWithZone, n: int)
    requires t.zone.summer.None?
    ensures Minus(Plus(t, Days(n)), Days(n)) == t
  {
    var z := t.zone;
    FixedOffsetRoundTrips(z, t.utc, Time(t) + n * 86400);
    var p := Plus(t, Days(n));
    assert Time(p) == Time(t) + n * 86400;
    FixedOffsetRoundTrips(z, t.utc, Time(p) - n * 86400);
  }

  // ---------------------------------------------------------------------
  // Comparison

  /** `<=>`: the order of the absolute instants, whatever the zones. */
  function Compare(t: TimeWithZone, other: Moment): (r: int)
    ensures -1 <= r <= 1
    ensures r == 0 <==> t.utc == Instant(other)
    ensures r < 0 <==> t.utc < Instant(other)
  {
    if t.utc < Instant(other) then -1 else if t.utc == Instant(other) then 0 else 1
  }

  /** Comparison ignores the zones on both sides. */
  lemma {:induction false} CompareIgnoresZones(t: TimeWithZone, other: TimeWithZone, z1: Zone, z2: Zone)
    ensures Compare(InTimeZone(Zoned(t), z1), Zoned(InTimeZone(Zoned(other), z2))) == Compare(t, Zoned(other))
  {
  }

  /** Swapping the operands negates the result. */
  lemma {:induction false} CompareAntisymmetric(a: TimeWithZone, b: TimeWithZone)
    ensures Compare(a, Zoned(b)) == -Compare(b, Zoned(a))
  {
  }

  lemma {:induction false} CompareTransitive(a: TimeWithZone, b: TimeWithZone, c: TimeWithZone)
    requires Compare(a, Zoned(b)) <= 0 && Compare(b, Zoned(c)) <= 0
    ensures Compare(a, Zoned(c)) <= 0
  {
  }

  /** A plain UTC time, a DateTime and a zoned value at the same instant compare alike. */
  lemma {:induction false} CompareSameInstant(t: TimeWithZone, s: int, zone: Zone)
    ensures Compare(t, UtcTime(s)) == Compare(t, DateTime(s)) == Compare(t, Zoned(TimeWithZone(s, zone)))
  {
  }

  // ---------------------------------------------------------------------
  // Operations of the local time that the value answers itself

  /** The closed list of local-time operations a TimeWithZone answers by delegation. */
  datatype LocalCall = Year | Month | Day | MonthsSince(months: int)

  /** A field value passes through; a time result is wrapped again in the same zone. */
  datatype CallResult = Field(value: int) | Wrapped(time: TimeWithZone)

  function Delegate(t: TimeWithZone, call: LocalCall): (r: CallResult)
    ensures call.MonthsSince? <==> r.Wrapped?
    ensures call == Year ==> r == Field(Local(t).year)
    ensures call == Month ==> r == Field(Local(t).month)
    ensures call == Day ==> r == Field(Local(t).day)
    ensures r.Wrapped? ==> r.time.zone == t.zone
  {
    match call
    case Year => Field(Local(t).year)
    case Month => Field(Local(t).month)
    case Day => Field(Local(t).day)
    case MonthsSince(n) =>
      Wrapped(TimeWithZone(LocalToUtc(t.zone, ToSeconds(AdvanceMonths(Local(t), n))), t.zone))
  }

  /**
    `months_since(n)` moves the local month by `n`, clamps the day to the
    new month and keeps the time of day, whenever the zone shows the new
    reading.
  */
  lemma {:induction false} MonthsSinceMovesMonth(t: TimeWithZone, n: int)
    requires WellFormed(t.zone) && !InGap(t.zone, ToSeconds(AdvanceMonths(Local(t), n)))
    ensures var a, b := Local(t), Local(Delegate(t, MonthsSince(n)).time);
      && b.year * 12 + b.month == a.year * 12 + a.month + n
      && b.day == (if a.day <= DaysInMonth(b.year, b.month) then a.day else DaysInMonth(b.year, b.month))
      && b.hour == a.hour && b.minute == a.minute && b.second == a.second
  {
    var c := AdvanceMonths(Local(t), n);
    LocalToUtcShowsReading(t.zone, ToSeconds(c));
    FromSecondsToSeconds(c);
  }
}
