# TimeWithZone, modelled in Dafny

A model of ActiveSupport's zone-aware time value, `TimeWithZone`, as its
test suite (`activesupport/test/core_ext/time_with_zone_test.rb`) pins it
down. A value is one absolute instant (integer seconds since
1970-01-01T00:00:00Z) together with a zone. Everything the value shows in
its zone (`time`, the civil fields, `zone`, `dst?`, `formatted_offset`,
the text layouts) is derived from those two by a days-from-civil calendar
and the zone's offset at that instant.

The files, one module each:

- `wrappers.dfy`: `Option` and `Result`.
- `calendar.dfy` (`Calendar`): the proleptic Gregorian calendar. Civil
  fields and seconds since the epoch map to each other one to one, in both
  directions. Dates are moved by days and by months.
- `zones.dfy` (`Zones`): the zone descriptor and the registry.
  - A zone has a standard period and at most one daylight-saving window of
    UTC instants.
  - Going from an instant to the wall clock adds the offset in force.
  - Going from a wall-clock reading back to an instant uses one fixed
    policy. A reading that occurs twice when clocks go back resolves to the
    later instant. A reading skipped when clocks go forward is moved
    forward by the size of the skip.
  - The registry holds UTC, Eastern (EST -05:00, with the EDT -04:00 window
    of 2000), Alaska (AKST -09:00) and Hawaii (HST -10:00). An unknown name
    is a `ZoneNotFound` error.
- `time_with_zone.dfy` (`ZonedTime`): the value and its pure operations.
  - Construction from a UTC instant or from local fields plus a zone.
  - `time` and the queries `utc?`, `dst?`, `zone` and `formatted_offset`.
  - `in_time_zone`, which keeps the instant.
  - `change_time_zone`, which keeps the wall-clock reading.
  - `in_current_time_zone` and `change_time_zone_to_current`.
  - `+` and `-` with seconds (absolute) and with days (calendar).
  - `<=>` against plain UTC times, DateTimes and zoned values.
  - The closed list of local-time operations the value answers itself:
    `year`, `month`, `day` and `months_since`.
  - `time_zone` is the value's `zone` field.
- `formatting.dfy` (`Formats`): the text forms.
  - `strftime` with the directives `%Y %m %d %H %M %S %a %b %Z %z %%`.
  - `to_s`, `to_s(:db)`, `xmlschema`, `to_json` and `inspect`.
  - Parsers that read the machine-readable layouts back, so that every
    layout has a round-trip lemma.
- `default_zone.dfy` (`DefaultZone`): the process-wide default zone.
  - A class with a mutable `zone` field.
  - `with_time_zone` saves the default and puts the named zone in its
    place, runs a block, and writes the saved zone back. The name is
    resolved before anything is saved, so a name that does not resolve
    leaves nothing saved, and the write on the way out clears the default.
- `scenarios.dfy` (`Scenarios`): every assertion of the test file except
  those listed under "Left out", stated about the model and proved. A
  lemma about one of the test's values takes it as a parameter fixed by
  its precondition.

Plain `Time` values and `DateTime`s enter as `Moment`s, which hold only an
instant. They read their wall clock in UTC.

## Model

| member | source | states |
|---|---|---|
| Calendar.CivilFromDaysFromCivil | activesupport/test/core_ext/time_with_zone_test.rb:17-19 | Every valid date is recovered from its day number. |
| Calendar.DaysFromCivilFromDays | activesupport/test/core_ext/time_with_zone_test.rb:17-19 | Every day number is recovered from the date computed for it. |
| Calendar.ToSecondsFromSeconds | activesupport/test/core_ext/time_with_zone_test.rb:17-19 | An instant turned into civil fields and back gives the same seconds. |
| Calendar.FromSecondsToSeconds | activesupport/test/core_ext/time_with_zone_test.rb:17-19 | Valid civil fields turned into seconds and back give the same fields. |
| Calendar.SplitEraCovers | activesupport/test/core_ext/time_with_zone_test.rb:17-19 | The year and day found for a day of a 400-year era lie inside that year, and that year's start plus the day is the day of the era. |
| Calendar.ShiftByDays | activesupport/test/core_ext/time_with_zone_test.rb:113-123 | Moving an instant by n whole days keeps hour, minute and second and adds n to the day number of its date. |
| Calendar.AdvanceMonths | activesupport/test/core_ext/time_with_zone_test.rb:139-142 | Moving by n months gives valid fields. Year·12 + month grows by n. The day is clamped to the length of the new month, and the time of day is kept. |
| Calendar.DaysFromCivil | activesupport/test/core_ext/time_with_zone_test.rb:13-19 | The epoch 1970-01-01 is day 0. |
| Calendar.Tomorrow | activesupport/test/core_ext/time_with_zone_test.rb:113-115 | The day after a valid date is a valid date. |
| Calendar.NextDay | activesupport/test/core_ext/time_with_zone_test.rb:113-123 | The day after any valid date has the next day number, across month ends, leap and common Februaries and the turn of the year. |
| Calendar.CivilFromDays | activesupport/test/core_ext/time_with_zone_test.rb:13-19 | Every day number names a valid date. |
| Calendar.ToSeconds | activesupport/test/core_ext/time_with_zone_test.rb:13-19 | The whole days of the seconds are the day number of the date, and the remainder is the clock as seconds since midnight. |
| Calendar.FromSeconds | activesupport/test/core_ext/time_with_zone_test.rb:13-19 | Every instant gives valid civil fields whose clock reads the seconds since midnight. |
| Calendar.Weekday | activesupport/test/core_ext/time_with_zone_test.rb:75-77 | The weekday is 0 (Sunday) to 6 (Saturday), and day 0, 1970-01-01, is a Thursday. |
| Calendar.WeekdayNext | activesupport/test/core_ext/time_with_zone_test.rb:75-77 | The next day is the next weekday, and Sunday follows Saturday. |
| Zones.UtcToLocal | activesupport/test/core_ext/time_with_zone_test.rb:17-19 | In a well-formed zone no instant shows a reading that the start of the window skips. |
| Zones.LocalToUtc | activesupport/test/core_ext/time_with_zone_test.rb:35-45 | The instant is the reading less either the standard offset or the window's offset. |
| Zones.LocalToUtcShowsReading | activesupport/test/core_ext/time_with_zone_test.rb:35-45 | A reading that is not skipped resolves to an instant whose wall clock shows that reading. |
| Zones.OccursIffNotInGap | activesupport/test/core_ext/time_with_zone_test.rb:35-45 | Some instant shows a reading if and only if the reading is not in the skipped hour. |
| Zones.GapMovesForward | activesupport/test/core_ext/time_with_zone_test.rb:35-45 | A skipped reading resolves with the standard offset, so its instant shows the reading moved forward by the size of the skip. |
| Zones.LocalToUtcOfReading | activesupport/test/core_ext/time_with_zone_test.rb:35-45 | Resolving an instant's own reading gives the instant back. In the repeated hour it gives the later instant with the same reading instead. |
| Zones.FixedOffsetRoundTrips | activesupport/test/core_ext/time_with_zone_test.rb:164-199 | A zone without a window converts exactly in both directions, with the standard offset everywhere. |
| Zones.Lookup | activesupport/test/core_ext/time_with_zone_test.rb:9 | A name resolves if and only if it is one of the four registered names. It resolves to a well-formed zone of that name; otherwise the result is `ZoneNotFound` for the name. |
| Zones.GetZone | activesupport/test/core_ext/time_with_zone_test.rb:151-156 | No name means no zone. A name resolves exactly when the registry knows it, to the zone of that name. |
| ZonedTime.FromUtc | activesupport/test/core_ext/time_with_zone_test.rb:49 | A value built from a UTC instant alone keeps the instant and is in the UTC zone. |
| ZonedTime.FromLocal | activesupport/test/core_ext/time_with_zone_test.rb:37 | A value built from local fields and a zone is in that zone and shows those fields whenever the zone shows that reading. |
| ZonedTime.Time | activesupport/test/core_ext/time_with_zone_test.rb:17-19 | In UTC, `time` is the instant itself. In a well-formed zone the zone never skips it, and resolving it gives the instant back everywhere but in the repeated hour. |
| ZonedTime.Local | activesupport/test/core_ext/time_with_zone_test.rb:17-19 | The local fields are valid civil fields. |
| ZonedTime.UtcOffset | activesupport/test/core_ext/time_with_zone_test.rb:52-55 | In a well-formed zone the offset is the standard offset, plus the window's shift exactly when `dst?` holds. |
| ZonedTime.IsDst | activesupport/test/core_ext/time_with_zone_test.rb:57-60 | In a well-formed zone `dst?` holds exactly when the instant lies in the zone's daylight-saving window. |
| ZonedTime.Abbreviation | activesupport/test/core_ext/time_with_zone_test.rb:62-65 | In a well-formed zone `zone` is the window period's abbreviation when `dst?` holds and the standard abbreviation otherwise. |
| ZonedTime.IsUtc | activesupport/test/core_ext/time_with_zone_test.rb:47-50 | A value that is `utc?` has offset 0, no daylight saving, and the abbreviation UTC. |
| ZonedTime.UtcZoneHasNoOffset | activesupport/test/core_ext/time_with_zone_test.rb:47-50 | A UTC value has offset 0 and no daylight saving, and its wall clock is its instant. |
| ZonedTime.TimeIsInstantPlusOffset | activesupport/test/core_ext/time_with_zone_test.rb:13-19 | `time` is the instant plus the offset in force, and the local fields denote exactly that reading. |
| ZonedTime.InTimeZone | activesupport/test/core_ext/time_with_zone_test.rb:25-27 | The result has the input's instant and the new zone. |
| ZonedTime.InTimeZoneNamed | activesupport/test/core_ext/time_with_zone_test.rb:25-27 | It succeeds exactly when the name is registered. The result is `in_time_zone` into the zone of that name, so the instant is kept. |
| ZonedTime.InTimeZoneKeepsInstant | activesupport/test/core_ext/time_with_zone_test.rb:25-27 | Converting equals a fresh value built from the same instant in the new zone. Its wall clock is the instant plus the new zone's offset. |
| ZonedTime.ChangeTimeZone | activesupport/test/core_ext/time_with_zone_test.rb:35-39 | The result is in the new zone and shows the input's wall-clock reading whenever the new zone shows it. |
| ZonedTime.ChangeTimeZoneNamed | activesupport/test/core_ext/time_with_zone_test.rb:35-39 | It succeeds exactly when the name is registered. The result is `change_time_zone` into the zone of that name, and it shows the input's reading wherever that zone shows it. |
| ZonedTime.ChangeTimeZoneMovesInstant | activesupport/test/core_ext/time_with_zone_test.rb:35-39 | For a fixed-offset target, the instant moves by the difference of the offsets. It equals `in_time_zone`'s instant if and only if the offsets are equal. |
| ZonedTime.ChangeTimeZoneKeepsFields | activesupport/test/core_ext/time_with_zone_test.rb:35-45 | In a well-formed zone that shows the original reading, the local fields after `change_time_zone` are the fields of that reading. |
| ZonedTime.InCurrentTimeZone | activesupport/test/core_ext/time_with_zone_test.rb:29-33 | With no default zone the input comes back unchanged. Otherwise the result is a zoned value with the same instant in the default zone. |
| ZonedTime.ChangeTimeZoneToCurrent | activesupport/test/core_ext/time_with_zone_test.rb:41-45 | With no default zone the input comes back unchanged. Otherwise the result is a zoned value in the default zone that shows the same reading, wherever the zone shows it. |
| ZonedTime.Plus | activesupport/test/core_ext/time_with_zone_test.rb:109-115 | Adding keeps the zone, and adding seconds moves the instant by exactly that many seconds. |
| ZonedTime.Minus | activesupport/test/core_ext/time_with_zone_test.rb:117-123 | Subtracting keeps the zone, and subtracting seconds moves the instant back by exactly that many seconds. |
| ZonedTime.PlusMinusSeconds | activesupport/test/core_ext/time_with_zone_test.rb:109-119 | Adding and subtracting the same number of seconds undo each other, in either order. |
| ZonedTime.PlusDaysKeepsTimeOfDay | activesupport/test/core_ext/time_with_zone_test.rb:113-123 | Adding n days moves the reading by n·86400 seconds. The local time of day is kept and the local date moves by n days. |
| ZonedTime.PlusMinusDays | activesupport/test/core_ext/time_with_zone_test.rb:113-123 | In a fixed-offset zone, subtracting n days undoes adding them. |
| ZonedTime.Compare | activesupport/test/core_ext/time_with_zone_test.rb:91-107 | The result is -1, 0 or 1, and 0 and -1 hold exactly when the instants are equal or the left one is earlier. |
| ZonedTime.CompareIgnoresZones | activesupport/test/core_ext/time_with_zone_test.rb:91-107 | Converting either operand to any zone does not change the comparison. |
| ZonedTime.CompareAntisymmetric | activesupport/test/core_ext/time_with_zone_test.rb:91-107 | Swapping the operands negates the result. |
| ZonedTime.CompareTransitive | activesupport/test/core_ext/time_with_zone_test.rb:91-107 | The order is transitive. |
| ZonedTime.CompareSameInstant | activesupport/test/core_ext/time_with_zone_test.rb:91-107 | A plain UTC time, a DateTime and a zoned value at the same instant compare alike. |
| ZonedTime.Delegate | activesupport/test/core_ext/time_with_zone_test.rb:139-148 | `year`, `month` and `day` return the local fields. `months_since` and only it returns a value wrapped again in the same zone. |
| ZonedTime.MonthsSinceMovesMonth | activesupport/test/core_ext/time_with_zone_test.rb:139-142 | `months_since(n)` moves the local month by n, clamps the day and keeps the time of day, wherever the zone shows the new reading. |
| Formats.Padded | activesupport/test/core_ext/time_with_zone_test.rb:67-89 | The text is decimal digits whose value is n and at least `width` long. For widths 1 to 4 it is exactly `width` long when n fits. |
| Formats.FormatOffset | activesupport/test/core_ext/time_with_zone_test.rb:52-55 | The offset text starts with its sign and has at least six characters with the colon, five without. |
| Formats.OffsetRoundTrip | activesupport/test/core_ext/time_with_zone_test.rb:52-55 | A whole-minute offset under 100 hours is written in six (with colon) or five characters and reads back as the same offset. |
| Formats.FormattedOffset | activesupport/test/core_ext/time_with_zone_test.rb:52-55 | For a whole-minute offset under 100 hours, `formatted_offset` is six characters with the colon and five without, and it reads back as the offset in force. |
| Formats.Texts | activesupport/test/core_ext/time_with_zone_test.rb:71-77 | Month, day, hour, minute and second texts are two characters. The weekday and month names come from their tables. `%Z` is the abbreviation, and `%z` is the offset without a colon. |
| Formats.RenderPlainText | activesupport/test/core_ext/time_with_zone_test.rb:71-73 | A layout without `%` is written as it stands. |
| Formats.RenderAppend | activesupport/test/core_ext/time_with_zone_test.rb:71-73 | A layout that does not end inside a directive, followed by another, is written as the two written one after the other. |
| Formats.StrftimeStamp | activesupport/test/core_ext/time_with_zone_test.rb:71-89 | Any `%Y?%m?%d?%H:%M:%S` layout writes the local fields in the fixed-width stamp with its separators. |
| Formats.StrftimeInspect | activesupport/test/core_ext/time_with_zone_test.rb:75-77 | The `inspect` layout writes weekday name, day, month name, year and clock of the local fields. |
| Formats.StrftimeOf | activesupport/test/core_ext/time_with_zone_test.rb:71-73 | `strftime` writes a layout without directives as it stands, and every stamp layout as the stamp of the local fields. |
| Formats.StrftimeZoneTokens | activesupport/test/core_ext/time_with_zone_test.rb:71-73 | For any value, `%Z` writes the abbreviation in force and `%z` the offset in force without a colon. |
| Formats.StrftimeStampZone | activesupport/test/core_ext/time_with_zone_test.rb:71-73 | For any value, a stamp layout followed by ` %Z %z` writes the stamp of the local fields, the abbreviation and the offset without a colon. |
| Formats.InspectPieces | activesupport/test/core_ext/time_with_zone_test.rb:75-77 | `inspect` of any value is the weekday name, day, month name, year and clock of its local fields, then its abbreviation and its offset with a colon. |
| Formats.ToS | activesupport/test/core_ext/time_with_zone_test.rb:79-81 | `to_s` is the stamp of the local fields with `-` and a space, then a space and the offset without a colon. |
| Formats.ToSDb | activesupport/test/core_ext/time_with_zone_test.rb:83-85 | `to_s(:db)` is the stamp of the UTC fields of the instant, with `-` and a space. |
| Formats.Xmlschema | activesupport/test/core_ext/time_with_zone_test.rb:87-89 | `xmlschema` is the stamp of the local fields with `-` and `T`, then the offset with a colon. |
| Formats.ToJson | activesupport/test/core_ext/time_with_zone_test.rb:67-69 | `to_json` is a quoted string: the stamp of the local fields with `/` and a space, then a space and the offset without a colon. |
| Formats.Stamp | activesupport/test/core_ext/time_with_zone_test.rb:79-89 | A stamp of a year between 0 and 9999 is 19 characters long. |
| Formats.StampRoundTrip | activesupport/test/core_ext/time_with_zone_test.rb:79-89 | For a year from 0 to 9999, reading a stamp from the front of any text gives back the fields and the rest of the text. |
| Formats.FieldsDenoteInstant | activesupport/test/core_ext/time_with_zone_test.rb:79-89 | The local fields less the offset in force denote the value's instant. |
| Formats.XmlschemaTextRoundTrip | activesupport/test/core_ext/time_with_zone_test.rb:87-89 | For a year from 0 to 9999 and a whole-minute offset under 100 hours, an `xmlschema` text reads back as the fields and the offset it was written from. |
| Formats.XmlschemaRoundTrip | activesupport/test/core_ext/time_with_zone_test.rb:87-89 | `xmlschema` of a value reads back as its local fields and offset, and so as its instant. |
| Formats.ToSTextRoundTrip | activesupport/test/core_ext/time_with_zone_test.rb:79-81 | For a year from 0 to 9999 and a whole-minute offset under 100 hours, a `to_s` text reads back as the fields and the offset it was written from. |
| Formats.ToSRoundTrip | activesupport/test/core_ext/time_with_zone_test.rb:79-81 | `to_s` of a value reads back as its local fields and offset, and so as its instant. |
| Formats.ToJsonTextRoundTrip | activesupport/test/core_ext/time_with_zone_test.rb:67-69 | For a year from 0 to 9999 and a whole-minute offset under 100 hours, a `to_json` text reads back as the fields and the offset it was written from. |
| Formats.ToJsonRoundTrip | activesupport/test/core_ext/time_with_zone_test.rb:67-69 | `to_json` of a value reads back as its local fields and offset, and so as its instant. |
| Formats.DbTextRoundTrip | activesupport/test/core_ext/time_with_zone_test.rb:83-85 | For a year from 0 to 9999, the `:db` stamp reads back as the fields it was written from, with nothing left over. |
| Formats.ToSDbRoundTrip | activesupport/test/core_ext/time_with_zone_test.rb:83-85 | `to_s(:db)` reads back as the UTC fields of the instant, which denote the instant. It writes the same text whatever the value's zone. |
| DefaultZone.ZoneSetting.constructor | activesupport/test/core_ext/time_with_zone_test.rb:151-156 | No default zone is set at start. |
| DefaultZone.ZoneSetting.WithTimeZone | activesupport/test/core_ext/time_with_zone_test.rb:151-156 | When the name resolves, the block's result is returned, computed with the resolved zone in force, and the old default is back afterwards. When it does not, the block does not run, the lookup error is returned, and the default is cleared. |
| DefaultZone.ZoneSetting.InCurrentTimeZoneOf | activesupport/test/core_ext/time_with_zone_test.rb:29-33 | Under no default the input comes back. Under a default the result is the same instant in the default zone. |
| DefaultZone.ZoneSetting.ChangeTimeZoneToCurrentOf | activesupport/test/core_ext/time_with_zone_test.rb:41-45 | Under no default the input comes back. Under a default the result is `change_time_zone` into the default zone, and it shows the input's reading wherever that zone shows it. |
| Scenarios.EasternTime | activesupport/test/core_ext/time_with_zone_test.rb:13-19 | The Eastern value's `utc` is 2000-01-01T00:00Z and its `time` is five hours earlier. |
| Scenarios.EasternNewYear | activesupport/test/core_ext/time_with_zone_test.rb:17-19 | The Eastern value's fields read 1999-12-31 19:00:00. |
| Scenarios.TimeZoneOfEastern | activesupport/test/core_ext/time_with_zone_test.rb:21-23 | `time_zone` of the Eastern value is the zone the registry gives for "Eastern Time (US & Canada)". |
| Scenarios.InTimeZoneAlaska | activesupport/test/core_ext/time_with_zone_test.rb:25-27 | `in_time_zone('Alaska')` equals the value built from the same instant in Alaska. |
| Scenarios.EasternUnderAlaska | activesupport/test/core_ext/time_with_zone_test.rb:29-45 | With Alaska as the default, `in_current_time_zone` is the same instant in Alaska, and `change_time_zone_to_current` is the reading 1999-12-31 19:00 in Alaska. |
| Scenarios.ChangeTimeZoneAlaska | activesupport/test/core_ext/time_with_zone_test.rb:35-39 | `change_time_zone('Alaska')` equals the value built from the fields 1999-12-31 19:00 in Alaska. |
| Scenarios.EveInAlaska | activesupport/test/core_ext/time_with_zone_test.rb:37 | 1999-12-31 19:00 in Alaska is 2000-01-01T04:00Z and shows those fields again. |
| Scenarios.UtcQuery | activesupport/test/core_ext/time_with_zone_test.rb:47-50 | `utc?` is false for the Eastern value and true for a value built from a UTC time alone. |
| Scenarios.EasternWinter | activesupport/test/core_ext/time_with_zone_test.rb:57-65 | In January Eastern has offset -18000, no daylight saving, and the abbreviation EST. |
| Scenarios.EasternSummer | activesupport/test/core_ext/time_with_zone_test.rb:57-65 | In June Eastern has offset -14400, daylight saving, and the abbreviation EDT. |
| Scenarios.EasternPeriods | activesupport/test/core_ext/time_with_zone_test.rb:57-65 | An Eastern value is in daylight-saving time, at -14400 and EDT, exactly from 2000-04-02T07:00Z up to 2000-10-29T06:00Z; at every other instant it is at -18000 and EST. |
| Scenarios.FormattedOffsets | activesupport/test/core_ext/time_with_zone_test.rb:52-55 | `formatted_offset` is "-05:00" in January and "-04:00" in June. |
| Scenarios.ToJsonOfEastern | activesupport/test/core_ext/time_with_zone_test.rb:67-69 | `to_json` is "\"1999/12/31 19:00:00 -0500\"". |
| Scenarios.StrftimeOfEastern | activesupport/test/core_ext/time_with_zone_test.rb:71-73 | `strftime('%Y-%m-%d %H:%M:%S %Z %z')` is "1999-12-31 19:00:00 EST -0500". |
| Scenarios.InspectOfEastern | activesupport/test/core_ext/time_with_zone_test.rb:75-77 | `inspect` is "Fri, 31 Dec 1999 19:00:00 EST -05:00". |
| Scenarios.ToSOfEastern | activesupport/test/core_ext/time_with_zone_test.rb:79-81 | `to_s` is "1999-12-31 19:00:00 -0500". |
| Scenarios.ToSDbOfEastern | activesupport/test/core_ext/time_with_zone_test.rb:83-85 | `to_s(:db)` is "2000-01-01 00:00:00". |
| Scenarios.XmlschemaOfEastern | activesupport/test/core_ext/time_with_zone_test.rb:87-89 | `xmlschema` is "1999-12-31T19:00:00-05:00". |
| Scenarios.CompareWithTime | activesupport/test/core_ext/time_with_zone_test.rb:91-95 | Against UTC times one second before, at and after the instant, `<=>` gives 1, 0 and -1. |
| Scenarios.CompareWithDateTime | activesupport/test/core_ext/time_with_zone_test.rb:97-101 | Against DateTimes one second before, at and after, `<=>` gives 1, 0 and -1. |
| Scenarios.CompareWithTimeWithZone | activesupport/test/core_ext/time_with_zone_test.rb:103-107 | Against UTC-zoned values one second before, at and after, `<=>` gives 1, 0 and -1. |
| Scenarios.PlusFiveSeconds | activesupport/test/core_ext/time_with_zone_test.rb:109-111 | `(@twz + 5).time` reads 1999-12-31 19:00:05. |
| Scenarios.PlusFiveDays | activesupport/test/core_ext/time_with_zone_test.rb:113-115 | `(@twz + 5.days).time` reads 2000-01-05 19:00:00. |
| Scenarios.MinusFiveSeconds | activesupport/test/core_ext/time_with_zone_test.rb:117-119 | `(@twz - 5).time` reads 1999-12-31 18:59:55. |
| Scenarios.MinusFiveDays | activesupport/test/core_ext/time_with_zone_test.rb:121-123 | `(@twz - 5.days).time` reads 1999-12-26 19:00:00. |
| Scenarios.MonthsSinceOne | activesupport/test/core_ext/time_with_zone_test.rb:139-142 | `months_since(1)` is wrapped again in Eastern and reads 2000-01-31 19:00:00. |
| Scenarios.FieldPassThrough | activesupport/test/core_ext/time_with_zone_test.rb:144-148 | `year`, `month` and `day` are 1999, 12 and 31. |
| Scenarios.PlainInTimeZone | activesupport/test/core_ext/time_with_zone_test.rb:164-173 | A plain time or DateTime at 2000-01-01T00:00Z converted to Alaska or Hawaii keeps its instant. |
| Scenarios.InspectAlaskaEve | activesupport/test/core_ext/time_with_zone_test.rb:167-168 | That instant in Alaska inspects as "Fri, 31 Dec 1999 15:00:00 AKST -09:00". |
| Scenarios.InspectHawaiiEve | activesupport/test/core_ext/time_with_zone_test.rb:169-170 | That instant in Hawaii inspects as "Fri, 31 Dec 1999 14:00:00 HST -10:00". |
| Scenarios.InCurrentTimeZoneScopes | activesupport/test/core_ext/time_with_zone_test.rb:175-188 | Under `with_time_zone` 'Alaska', 'Hawaii' and nil, `in_current_time_zone` gives the instant in Alaska, in Hawaii, and the input itself. The setting is unchanged afterwards. |
| Scenarios.PlainChangeTimeZone | activesupport/test/core_ext/time_with_zone_test.rb:190-199 | `change_time_zone` of a plain time or DateTime to Alaska or Hawaii keeps the reading 2000-01-01 00:00. |
| Scenarios.InspectAlaskaMidnight | activesupport/test/core_ext/time_with_zone_test.rb:193-194 | The reading 2000-01-01 00:00 in Alaska inspects as "Sat, 01 Jan 2000 00:00:00 AKST -09:00". |
| Scenarios.InspectHawaiiMidnight | activesupport/test/core_ext/time_with_zone_test.rb:195-196 | The reading 2000-01-01 00:00 in Hawaii inspects as "Sat, 01 Jan 2000 00:00:00 HST -10:00". |
| Scenarios.ChangeTimeZoneToCurrentScopes | activesupport/test/core_ext/time_with_zone_test.rb:201-214 | Under `with_time_zone` 'Alaska', 'Hawaii' and nil, `change_time_zone_to_current` rereads the clock in Alaska, in Hawaii, or returns the input. The setting is unchanged afterwards. |

## Left out

- The zone rule database: zones are a table of the four zones the tests use. Eastern's daylight-saving window is only the one of 2000 (2000-04-02T07:00Z to 2000-10-29T06:00Z), and other years read as EST. No general DST rule is modelled.
- The Rails implementation files (the TimeWithZone class, the time zone class and the Time and DateTime extensions) are not part of this model. The behaviour is taken from the test file. The policy for repeated and skipped readings is a fixed choice that the tests do not exercise.
- `to_time` (activesupport/test/core_ext/time_with_zone_test.rb:125-127) returns the value itself. There is no model of it.
- `acts_like?`, `is_a?` and `kind_of?` (activesupport/test/core_ext/time_with_zone_test.rb:129-137) are Ruby reflection. Forwarding unknown methods to the local time is replaced by the closed list `year`, `month`, `day` and `months_since`.
- Equality: the model has no `==` operation of its own. Equality by instant, whatever the zone, is `ZonedTime.Compare(..) == 0`. Dafny's `==` on `TimeWithZone` also compares the zone.
- Sub-second precision and DateTime's rational fractions: all instants are whole seconds, and offsets are whole seconds.
- `silence_warnings` is logging noise from the zone library.
- `strftime` directives other than `%Y %m %d %H %M %S %a %b %Z %z %%`: any other directive is written as it stands.
- The raising of exceptions: a failed zone lookup is an `Err` value, and a block that fails under `with_time_zone` is a block whose result is an error value. The `ensure` clause still runs on a failed lookup, and clears the default, as `DefaultZone.ZoneSetting.WithTimeZone` states.
- railties/test/generator/app_test.rb: application skeleton generation, command-line options, shelling out and fetching templates are file-system and network plumbing.
- ZonedTime.FromLocal: the fields are shown again only for readings the zone shows. A skipped reading resolves by the fixed policy (`Zones.GapMovesForward`) instead.
- ZonedTime.ChangeTimeZone: the same condition applies to keeping the reading, because a skipped reading cannot be kept.
- ZonedTime.ChangeTimeZoneKeepsFields: the same condition applies. It is stated only for well-formed zones that show the original reading.
- ZonedTime.ChangeTimeZoneToCurrent: the same condition applies.
- ZonedTime.PlusDaysKeepsTimeOfDay: the same condition applies to the new reading.
- ZonedTime.MonthsSinceMovesMonth: the same condition applies to the new reading.
- ZonedTime.PlusMinusDays: stated only for zones with a fixed offset. Across a daylight-saving change, adding and subtracting days need not return the same instant in the repeated hour.
- Formats.OffsetRoundTrip: stated only for whole-minute offsets under 100 hours. The text form drops an offset's seconds.
- Formats.XmlschemaRoundTrip: stated only for years 0 to 9999 and whole-minute offsets, the range in which the layout is fixed-width and exact. The same bound applies to Formats.ToSRoundTrip and Formats.ToJsonRoundTrip.
- Formats.ToSRoundTrip: the same bounds as `xmlschema`.
- Formats.ToJsonRoundTrip: the same bounds as `xmlschema`.
- Formats.ToSDbRoundTrip: stated only for UTC years 0 to 9999.
- Formats.Stamp: the length is stated only for years 0 to 9999.
- Formats.StampRoundTrip: stated only for years 0 to 9999, where the stamp has a fixed width. A year of five or more digits, or a negative year, writes a longer stamp that this parser does not read.
- Formats.XmlschemaTextRoundTrip: stated only for years 0 to 9999 and whole-minute offsets under 100 hours. The offset text drops seconds.
- Formats.ToSTextRoundTrip: the same bounds as Formats.XmlschemaTextRoundTrip.
- Formats.ToJsonTextRoundTrip: the same bounds as Formats.XmlschemaTextRoundTrip.
- Formats.DbTextRoundTrip: stated only for years 0 to 9999.
- Formats.FormattedOffset: the length and the read-back are stated only for whole-minute offsets under 100 hours.
- Formats.Inspect: its meaning is stated by Formats.InspectPieces rather than by a contract of its own.
- ZonedTime.ChangeTimeZoneNamed: the reading is kept only where the zone shows it, as for ZonedTime.ChangeTimeZone.
- DefaultZone.ZoneSetting.ChangeTimeZoneToCurrentOf: the reading is kept only where the default zone shows it, as for ZonedTime.ChangeTimeZoneToCurrent.
- ZonedTime.Local: its own contract says only that the fields are valid. That they denote `time` is stated by ZonedTime.TimeIsInstantPlusOffset.
- ZonedTime.Time: the instant is given back only outside the repeated hour. Zones.LocalToUtcOfReading states what happens inside it.
- Calendar.DaysFromCivil: its own contract fixes only day 0. That the numbering is one to one is stated by Calendar.CivilFromDaysFromCivil and Calendar.DaysFromCivilFromDays, and that it counts days in calendar order by Calendar.NextDay.
- Calendar.CivilFromDays: its own contract says only that the date is valid. That it inverts Calendar.DaysFromCivil is stated by the same two lemmas.
