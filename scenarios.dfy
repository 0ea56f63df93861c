/**
  The concrete cases of the test suite, stated about the model: the
  Eastern value at 2000-01-01T00:00:00Z, and the plain UTC time and
  DateTime at that instant, seen, moved, compared and written as the
  tests expect. Each lemma about one of these values takes it as a
  parameter pinned by its precondition and proves one fact about it.
*/
module Scenarios {
  import opened Wrappers
  import opened Calendar
  import opened Zones
  import opened ZonedTime
  import opened Formats
  import opened DefaultZone

  /** 2000-01-01T00:00:00Z. */
  const NewYear: int := 946684800

  /** 2000-06-01T00:00:00Z. */
  const June: int := 959817600

  /** The value under test: 2000-01-01T00:00:00Z in Eastern time. */
  const Twz := TimeWithZone(NewYear, Eastern)

  /** Its wall clock: 1999-12-31 19:00:00. */
  const Eve := Civil(1999, 12, 31, 19, 0, 0)

  // ---------------------------------------------------------------------
  // Calendar facts about the instants the tests use

  lemma {:induction false} NewYearInstant(c: Civil)
    requires c == Civil(2000, 1, 1, 0, 0, 0)
    ensures ToSeconds(c) == NewYear
  {
  }

  lemma {:induction false} JuneInstant(c: Civil)
    requires c == Civil(2000, 6, 1, 0, 0, 0)
    ensures ToSeconds(c) == June
  {
  }

  lemma {:induction false} EveInstant(c: Civil)
    requires c == Eve
    ensures ToSeconds(c) == NewYear - 5 * 3600
  {
  }

  /** The fields of a value are `c` when `c` denotes its reading. */
  lemma {:induction false} LocalReads(t: TimeWithZone, c: Civil)
    requires ValidCivil(c) && ToSeconds(c) == Time(t)
    ensures Local(t) == c
  {
    FromSecondsToSeconds(c);
  }

  lemma {:induction false} EveIsFriday(d: Date)
    requires d == Date(1999, 12, 31)
    ensures Weekday(DaysFromCivil(d)) == 5
  {
  }

  lemma {:induction false} NewYearIsSaturday(d: Date)
    requires d == Date(2000, 1, 1)
    ensures Weekday(DaysFromCivil(d)) == 6
  {
  }

  // ---------------------------------------------------------------------
  // The Eastern value

  /** `utc` is the instant the value was built from; `time` is five hours earlier. */
  lemma {:induction false} EasternTime(t: TimeWithZone)
    requires t == Twz
    ensures t.utc == NewYear
    ensures Time(t) == NewYear - 5 * 3600
  {
  }

  /** `time` reads 1999-12-31 19:00:00. */
  lemma {:induction false} EasternNewYear(t: TimeWithZone)
    requires t == Twz
    ensures Local(t) == Eve
  {
    EasternTime(t);
    EveInstant(Eve);
    LocalReads(t, Eve);
  }

  lemma {:induction false} LookupAlaska(name: string)
    requires name == "Alaska"
    ensures Lookup(name) == Ok(Alaska)
  {
  }

  lemma {:induction false} LookupHawaii(name: string)
    requires name == "Hawaii"
    ensures Lookup(name) == Ok(Hawaii)
  {
  }

  /** `in_time_zone('Alaska')` equals a value built from the same instant in Alaska. */
  lemma {:induction false} InTimeZoneAlaska(t: TimeWithZone)
    requires t == Twz
    ensures InTimeZoneNamed(Zoned(t), "Alaska") == Ok(TimeWithZone(NewYear, Alaska))
  {
    LookupAlaska("Alaska");
  }

  /** `change_time_zone('Alaska')` equals a value built from the fields 1999-12-31 19:00 in Alaska. */
  lemma {:induction false} ChangeTimeZoneAlaska(t: TimeWithZone, c: Civil)
    requires t == Twz && c == Eve
    ensures ChangeTimeZoneNamed(Zoned(t), "Alaska") == Ok(FromLocal(c, Alaska))
  {
    LookupAlaska("Alaska");
    EasternTime(t);
    EveInstant(c);
    assert ChangeTimeZoneNamed(Zoned(t), "Alaska") == Ok(ChangeTimeZone(Zoned(t), Alaska));
  }

  /**
    With Alaska as the default zone, `in_current_time_zone` gives the same
    instant in Alaska and `change_time_zone_to_current` gives the reading
    1999-12-31 19:00 in Alaska.
  */
  lemma {:induction false} EasternUnderAlaska(t: TimeWithZone, c: Civil)
    requires t == Twz && c == Eve
    ensures InCurrentTimeZone(Zoned(t), Some(Alaska)) == Zoned(TimeWithZone(NewYear, Alaska))
    ensures ChangeTimeZoneToCurrent(Zoned(t), Some(Alaska)) == Zoned(FromLocal(c, Alaska))
  {
    assert InCurrentTimeZone(Zoned(t), Some(Alaska)) == Zoned(TimeWithZone(t.utc, Alaska));
    assert ChangeTimeZone(Zoned(t), Alaska) == FromLocal(c, Alaska) by {
      ChangeTimeZoneAlaska(t, c);
      LookupAlaska("Alaska");
    }
  }

  /** 1999-12-31 19:00 in Alaska is 2000-01-01T04:00:00Z, and it reads back. */
  lemma {:induction false} EveInAlaska(c: Civil)
    requires c == Eve
    ensures FromLocal(c, Alaska) == TimeWithZone(NewYear + 4 * 3600, Alaska)
    ensures Local(FromLocal(c, Alaska)) == c
  {
    EveInstant(c);
  }

  /** `utc?` is false in Eastern time and true for a value built from a UTC time alone. */
  lemma {:induction false} UtcQuery(t: TimeWithZone, u: TimeWithZone)
    requires t == Twz && u == FromUtc(NewYear)
    ensures !IsUtc(t) && IsUtc(u)
  {
  }

  /** `time_zone` is the zone the value was built with: the registry's Eastern entry. */
  lemma {:induction false} TimeZoneOfEastern(t: TimeWithZone)
    requires t == Twz
    ensures Lookup("Eastern Time (US & Canada)") == Ok(t.zone)
  {
  }

  /**
    Any Eastern value keeps daylight-saving time, offset -04:00 and EDT
    exactly from 2000-04-02T07:00:00Z up to 2000-10-29T06:00:00Z, and
    standard time, offset -05:00 and EST at every other instant.
  */
  lemma {:induction false} EasternPeriods(t: TimeWithZone)
    requires t.zone == Eastern
    ensures IsDst(t) <==> 954658800 <= t.utc < 972799200
    ensures UtcOffset(t) == if IsDst(t) then -14400 else -18000
    ensures Abbreviation(t) == if IsDst(t) then "EDT" else "EST"
  {
  }

  /** January is standard time. */
  lemma {:induction false} EasternWinter(t: TimeWithZone)
    requires t == Twz
    ensures UtcOffset(t) == -18000 && !IsDst(t) && Abbreviation(t) == "EST"
  {
  }

  /** June is daylight-saving time. */
  lemma {:induction false} EasternSummer(t: TimeWithZone)
    requires t == TimeWithZone(June, Eastern)
    ensures UtcOffset(t) == -14400 && IsDst(t) && Abbreviation(t) == "EDT"
  {
  }

  /** Offsets of whole hours west of UTC, written with a colon. */
  lemma {:induction false} HourOffsetColon(offset: int, h: int, text: string)
    requires offset == -h * 3600
    requires (h == 4 && text == "-04:00") || (h == 5 && text == "-05:00")
      || (h == 9 && text == "-09:00") || (h == 10 && text == "-10:00")
    ensures FormatOffset(offset, true) == text
  {
    OffsetChars(offset, true);
  }

  /** Offsets of whole hours west of UTC, written without a colon. */
  lemma {:induction false} HourOffsetPlain(offset: int, h: int, text: string)
    requires offset == -h * 3600
    requires h == 5 && text == "-0500"
    ensures FormatOffset(offset, false) == text
  {
    OffsetChars(offset, false);
  }

  /** `formatted_offset` in January and in June. */
  lemma {:induction false} FormattedOffsets(t: TimeWithZone, june: TimeWithZone)
    requires t == Twz && june == TimeWithZone(June, Eastern)
    ensures FormattedOffset(t, true) == "-05:00"
    ensures FormattedOffset(june, true) == "-04:00"
  {
    EasternWinter(t);
    EasternSummer(june);
    HourOffsetColon(-18000, 5, "-05:00");
    HourOffsetColon(-14400, 4, "-04:00");
  }

  /** What the directives of the value under test read. */
  lemma {:induction false} EasternFields(t: TimeWithZone)
    requires t == Twz
    ensures Fields(t) == Stamped(Eve, 5, "EST", -18000)
  {
    EasternNewYear(t);
    EasternWinter(t);
    EveIsFriday(Eve.DateOf());
  }

  // ---------------------------------------------------------------------
  // Text forms of the Eastern value

  /** The pieces of 1999-12-31 19:00:00 with the given separators. */
  lemma {:induction false} EveParts(c: Civil, dateSep: char, timeSep: char)
    requires c == Eve
    ensures YearText(c.year) == "1999"
    ensures Part(dateSep, c.month) == [dateSep, '1', '2'] && Part(dateSep, c.day) == [dateSep, '3', '1']
    ensures Part(timeSep, c.hour) == [timeSep, '1', '9']
    ensures Part(':', c.minute) == ":00" && Part(':', c.second) == ":00"
  {
    PaddedFour(1999);
    PartChars(dateSep, 12);
    PartChars(dateSep, 31);
    PartChars(timeSep, 19);
    PartChars(':', 0);
  }

  /** The pieces of 2000-01-01 00:00:00 with the given separators. */
  lemma {:induction false} NewYearParts(c: Civil, dateSep: char, timeSep: char)
    requires c == Civil(2000, 1, 1, 0, 0, 0)
    ensures YearText(c.year) == "2000"
    ensures Part(dateSep, c.month) == [dateSep, '0', '1'] && Part(dateSep, c.day) == [dateSep, '0', '1']
    ensures Part(timeSep, c.hour) == [timeSep, '0', '0']
    ensures Part(':', c.minute) == ":00" && Part(':', c.second) == ":00"
  {
    PaddedFour(2000);
    PartChars(dateSep, 1);
    PartChars(timeSep, 0);
    PartChars(':', 0);
  }

  /** 1999-12-31 19:00:00 in the stamp shape, with the given separators. */
  lemma {:induction false} EveStamp(c: Civil, dateSep: char, timeSep: char)
    requires c == Eve
    ensures Stamp(c, dateSep, timeSep)
      == ['1', '9', '9', '9', dateSep, '1', '2', dateSep, '3', '1', timeSep, '1', '9', ':', '0', '0', ':', '0', '0']
  {
    EveParts(c, dateSep, timeSep);
    StampChars(c, dateSep, timeSep, "1999", '1', '2', '3', '1', '1', '9');
  }

  lemma {:induction false} EveStampDb(c: Civil)
    requires c == Eve
    ensures Stamp(c, '-', ' ') == "1999-12-31 19:00:00"
  {
    EveStamp(c, '-', ' ');
  }

  lemma {:induction false} EveStampXml(c: Civil)
    requires c == Eve
    ensures Stamp(c, '-', 'T') == "1999-12-31T19:00:00"
  {
    EveStamp(c, '-', 'T');
  }

  lemma {:induction false} EveStampJson(c: Civil)
    requires c == Eve
    ensures Stamp(c, '/', ' ') == "1999/12/31 19:00:00"
  {
    EveStamp(c, '/', ' ');
  }

  lemma {:induction false} JoinToS(stamp: string, offset: string)
    requires stamp == "1999-12-31 19:00:00" && offset == "-0500"
    ensures stamp + (" " + offset) == "1999-12-31 19:00:00 -0500"
  {
  }

  /** `to_s`. */
  lemma {:induction false} ToSOfEastern(t: TimeWithZone)
    requires t == Twz
    ensures ToS(t) == "1999-12-31 19:00:00 -0500"
  {
    var f := Fields(t);
    EasternFields(t);
    StampFormats();
    StrftimeStamp(DbFormat, f, '-', ' ');
    EveStampDb(f.local);
    HourOffsetPlain(f.utcOffset, 5, "-0500");
    JoinToS(Strftime(DbFormat, f), FormatOffset(f.utcOffset, false));
  }

  lemma {:induction false} JoinXmlschema(stamp: string, offset: string)
    requires stamp == "1999-12-31T19:00:00" && offset == "-05:00"
    ensures stamp + offset == "1999-12-31T19:00:00-05:00"
  {
  }

  /** `xmlschema`. */
  lemma {:induction false} XmlschemaOfEastern(t: TimeWithZone)
    requires t == Twz
    ensures Xmlschema(t) == "1999-12-31T19:00:00-05:00"
  {
    var f := Fields(t);
    EasternFields(t);
    StampFormats();
    StrftimeStamp(XmlFormat, f, '-', 'T');
    EveStampXml(f.local);
    HourOffsetColon(f.utcOffset, 5, "-05:00");
    JoinXmlschema(Strftime(XmlFormat, f), FormatOffset(f.utcOffset, true));
  }

  lemma {:induction false} JoinJson(stamp: string, offset: string)
    requires stamp == "1999/12/31 19:00:00" && offset == "-0500"
    ensures "\"" + (stamp + (" " + offset + "\"")) == "\"1999/12/31 19:00:00 -0500\""
  {
  }

  /** `to_json`. */
  lemma {:induction false} ToJsonOfEastern(t: TimeWithZone)
    requires t == Twz
    ensures ToJson(t) == "\"1999/12/31 19:00:00 -0500\""
  {
    var f := Fields(t);
    EasternFields(t);
    StampFormats();
    StrftimeStamp(JsonFormat, f, '/', ' ');
    EveStampJson(f.local);
    HourOffsetPlain(f.utcOffset, 5, "-0500");
    JoinJson(Strftime(JsonFormat, f), FormatOffset(f.utcOffset, false));
  }

  lemma {:induction false} NewYearStamp(c: Civil)
    requires c == Civil(2000, 1, 1, 0, 0, 0)
    ensures Stamp(c, '-', ' ') == "2000-01-01 00:00:00"
  {
    NewYearParts(c, '-', ' ');
    StampChars(c, '-', ' ', ['2', '0', '0', '0'], '0', '1', '0', '1', '0', '0');
  }

  /** A stamp whose pieces are known is those pieces, character by character. */
  lemma {:induction false} StampChars(c: Civil, dateSep: char, timeSep: char, year: string,
                                      month0: char, month1: char, day0: char, day1: char, hour0: char, hour1: char)
    requires ValidCivil(c) && |year| == 4 && YearText(c.year) == year
    requires Part(dateSep, c.month) == [dateSep, month0, month1] && Part(dateSep, c.day) == [dateSep, day0, day1]
    requires Part(timeSep, c.hour) == [timeSep, hour0, hour1]
    requires Part(':', c.minute) == ":00" && Part(':', c.second) == ":00"
    ensures Stamp(c, dateSep, timeSep)
      == [year[0], year[1], year[2], year[3], dateSep, month0, month1, dateSep, day0, day1, timeSep, hour0, hour1,
          ':', '0', '0', ':', '0', '0']
  {
  }

  /** The UTC fields of the instant are 2000-01-01 00:00:00. */
  lemma {:induction false} NewYearUtcFields(u: TimeWithZone)
    requires u == FromUtc(NewYear)
    ensures Local(u) == Civil(2000, 1, 1, 0, 0, 0)
  {
    var c := Civil(2000, 1, 1, 0, 0, 0);
    NewYearInstant(c);
    LocalReads(u, c);
  }

  /** `to_s(:db)` writes the UTC fields. */
  lemma {:induction false} ToSDbOfEastern(t: TimeWithZone)
    requires t == Twz
    ensures ToSDb(t) == "2000-01-01 00:00:00"
  {
    var u := FromUtc(t.utc);
    NewYearUtcFields(u);
    var f := Fields(u);
    StampFormats();
    StrftimeStamp(DbFormat, f, '-', ' ');
    NewYearStamp(f.local);
  }

  lemma {:induction false} JoinStrftime(stamp: string, abbreviation: string, offset: string)
    requires stamp == "1999-12-31 19:00:00" && abbreviation == "EST" && offset == "-0500"
    ensures stamp + (" " + (abbreviation + (" " + offset))) == "1999-12-31 19:00:00 EST -0500"
  {
  }

  lemma {:induction false} SplitStrftimeFormat(format: string)
    requires format == "%Y-%m-%d %H:%M:%S %Z %z"
    ensures format == DbFormat + " %Z %z"
  {
  }

  /** `strftime('%Y-%m-%d %H:%M:%S %Z %z')`. */
  lemma {:induction false} StrftimeOfEastern(t: TimeWithZone, format: string)
    requires t == Twz && format == "%Y-%m-%d %H:%M:%S %Z %z"
    ensures StrftimeOf(t, format) == "1999-12-31 19:00:00 EST -0500"
  {
    var f := Fields(t);
    EasternFields(t);
    SplitStrftimeFormat(format);
    StampFormats();
    StrftimeStampZone(t, DbFormat, '-', ' ');
    EveStampDb(f.local);
    HourOffsetPlain(f.utcOffset, 5, "-0500");
    JoinStrftime(Stamp(Local(t), '-', ' '), Abbreviation(t), FormattedOffset(t, false));
  }

  // ---------------------------------------------------------------------
  // `inspect`

  /** A clock reading on the hour. */
  lemma {:induction false} OnTheHour(c: Civil, h: int, text: string)
    requires ValidCivil(c) && c.hour == h && c.minute == 0 && c.second == 0
    requires (h == 0 && text == "00:00:00") || (h == 14 && text == "14:00:00")
      || (h == 15 && text == "15:00:00") || (h == 19 && text == "19:00:00")
    ensures Clock(c) == text
  {
    PaddedTwo(c.hour);
    PaddedTwo(0);
  }

  /** The date pieces of `inspect` for 1999-12-31 and 2000-01-01. */
  lemma {:induction false} DatePieces(c: Civil)
    requires ValidCivil(c) && (c.DateOf() == Date(1999, 12, 31) || c.DateOf() == Date(2000, 1, 1))
    ensures c.DateOf() == Date(1999, 12, 31) ==>
      WeekdayNames[Weekday(DaysFromCivil(c.DateOf()))] == "Fri" && Padded(c.day, 2) == "31"
      && MonthNames[c.month - 1] == "Dec" && YearText(c.year) == "1999"
    ensures c.DateOf() == Date(2000, 1, 1) ==>
      WeekdayNames[Weekday(DaysFromCivil(c.DateOf()))] == "Sat" && Padded(c.day, 2) == "01"
      && MonthNames[c.month - 1] == "Jan" && YearText(c.year) == "2000"
  {
    if c.DateOf() == Date(1999, 12, 31) {
      EveIsFriday(c.DateOf());
      PaddedTwo(31);
      PaddedFour(1999);
    } else {
      NewYearIsSaturday(c.DateOf());
      PaddedTwo(1);
      PaddedFour(2000);
    }
  }

  /** `inspect` of a value whose local date is 1999-12-31. */
  lemma {:induction false} InspectOnEve(t: TimeWithZone, clock: string, abbreviation: string, offset: string)
    requires Local(t).DateOf() == Date(1999, 12, 31)
    requires Clock(Local(t)) == clock && Abbreviation(t) == abbreviation && FormattedOffset(t, true) == offset
    ensures Inspect(t) == InspectLine("Fri", "31", "Dec", "1999", clock, abbreviation, offset)
  {
    InspectPieces(t);
    DatePieces(Local(t));
  }

  /** `inspect` of a value whose local date is 2000-01-01. */
  lemma {:induction false} InspectOnNewYear(t: TimeWithZone, clock: string, abbreviation: string, offset: string)
    requires Local(t).DateOf() == Date(2000, 1, 1)
    requires Clock(Local(t)) == clock && Abbreviation(t) == abbreviation && FormattedOffset(t, true) == offset
    ensures Inspect(t) == InspectLine("Sat", "01", "Jan", "2000", clock, abbreviation, offset)
  {
    InspectPieces(t);
    DatePieces(Local(t));
  }

  lemma {:induction false} JoinInspectEastern(w: string, d: string, m: string, y: string, cl: string, a: string, o: string)
    requires w == "Fri" && d == "31" && m == "Dec" && y == "1999" && cl == "19:00:00" && a == "EST" && o == "-05:00"
    ensures InspectLine(w, d, m, y, cl, a, o) == "Fri, 31 Dec 1999 19:00:00 EST -05:00"
  {
  }

  /** `inspect`. */
  lemma {:induction false} InspectOfEastern(t: TimeWithZone)
    requires t == Twz
    ensures Inspect(t) == "Fri, 31 Dec 1999 19:00:00 EST -05:00"
  {
    EasternNewYear(t);
    EasternWinter(t);
    OnTheHour(Local(t), 19, "19:00:00");
    HourOffsetColon(UtcOffset(t), 5, "-05:00");
    InspectOnEve(t, "19:00:00", "EST", "-05:00");
    JoinInspectEastern("Fri", "31", "Dec", "1999", "19:00:00", "EST", "-05:00");
  }

  // ---------------------------------------------------------------------
  // Comparison

  lemma {:induction false} SecondBefore(c: Civil)
    requires c == Civil(1999, 12, 31, 23, 59, 59)
    ensures ToSeconds(c) == NewYear - 1
  {
  }

  lemma {:induction false} SecondAfter(c: Civil)
    requires c == Civil(2000, 1, 1, 0, 0, 1)
    ensures ToSeconds(c) == NewYear + 1
  {
  }

  /** `<=>` against plain UTC times one second before, at and after the instant. */
  lemma {:induction false} CompareWithTime(t: TimeWithZone, before: Civil, at: Civil, after: Civil)
    requires t == Twz
    requires before == Civil(1999, 12, 31, 23, 59, 59) && at == Civil(2000, 1, 1, 0, 0, 0) && after == Civil(2000, 1, 1, 0, 0, 1)
    ensures Compare(t, UtcTime(ToSeconds(before))) == 1
    ensures Compare(t, UtcTime(ToSeconds(at))) == 0
    ensures Compare(t, UtcTime(ToSeconds(after))) == -1
  {
    SecondBefore(before);
    NewYearInstant(at);
    SecondAfter(after);
  }

  /** `<=>` against DateTimes one second before, at and after the instant. */
  lemma {:induction false} CompareWithDateTime(t: TimeWithZone, before: Civil, at: Civil, after: Civil)
    requires t == Twz
    requires before == Civil(1999, 12, 31, 23, 59, 59) && at == Civil(2000, 1, 1, 0, 0, 0) && after == Civil(2000, 1, 1, 0, 0, 1)
    ensures Compare(t, DateTime(ToSeconds(before))) == 1
    ensures Compare(t, DateTime(ToSeconds(at))) == 0
    ensures Compare(t, DateTime(ToSeconds(after))) == -1
  {
    SecondBefore(before);
    NewYearInstant(at);
    SecondAfter(after);
  }

  /** `<=>` against UTC-zoned values one second before, at and after the instant. */
  lemma {:induction false} CompareWithTimeWithZone(t: TimeWithZone, before: Civil, at: Civil, after: Civil)
    requires t == Twz
    requires before == Civil(1999, 12, 31, 23, 59, 59) && at == Civil(2000, 1, 1, 0, 0, 0) && after == Civil(2000, 1, 1, 0, 0, 1)
    ensures Compare(t, Zoned(FromUtc(ToSeconds(before)))) == 1
    ensures Compare(t, Zoned(FromUtc(ToSeconds(at)))) == 0
    ensures Compare(t, Zoned(FromUtc(ToSeconds(after)))) == -1
  {
    SecondBefore(before);
    NewYearInstant(at);
    SecondAfter(after);
  }

  // ---------------------------------------------------------------------
  // Arithmetic

  /** `(@twz + 5).time` reads 19:00:05. */
  lemma {:induction false} PlusFiveSeconds(t: TimeWithZone, c: Civil)
    requires t == Twz && c == Civil(1999, 12, 31, 19, 0, 5)
    ensures Local(Plus(t, Seconds(5))) == c
  {
    assert ToSeconds(c) == NewYear - 5 * 3600 + 5;
    LocalReads(Plus(t, Seconds(5)), c);
  }

  /** `(@twz - 5).time` reads 18:59:55. */
  lemma {:induction false} MinusFiveSeconds(t: TimeWithZone, c: Civil)
    requires t == Twz && c == Civil(1999, 12, 31, 18, 59, 55)
    ensures Local(Minus(t, Seconds(5))) == c
  {
    assert ToSeconds(c) == NewYear - 5 * 3600 - 5;
    LocalReads(Minus(t, Seconds(5)), c);
  }

  /** `(@twz + 5.days).time` reads 2000-01-05 19:00. */
  lemma {:induction false} PlusFiveDays(t: TimeWithZone, c: Civil)
    requires t == Twz && c == Civil(2000, 1, 5, 19, 0, 0)
    ensures Local(Plus(t, Days(5))) == c
  {
    EasternTime(t);
    assert ToSeconds(c) == NewYear - 5 * 3600 + 5 * 86400;
    LocalToUtcShowsReading(Eastern, Time(t) + 5 * 86400);
    LocalReads(Plus(t, Days(5)), c);
  }

  /** `(@twz - 5.days).time` reads 1999-12-26 19:00. */
  lemma {:induction false} MinusFiveDays(t: TimeWithZone, c: Civil)
    requires t == Twz && c == Civil(1999, 12, 26, 19, 0, 0)
    ensures Local(Minus(t, Days(5))) == c
  {
    EasternTime(t);
    assert ToSeconds(c) == NewYear - 5 * 3600 - 5 * 86400;
    LocalToUtcShowsReading(Eastern, Time(t) - 5 * 86400);
    LocalReads(Minus(t, Days(5)), c);
  }

  // ---------------------------------------------------------------------
  // Delegation to the local time

  lemma {:induction false} MonthAfterEve(c: Civil)
    requires c == Eve
    ensures AdvanceMonths(c, 1) == Civil(2000, 1, 31, 19, 0, 0)
  {
  }

  lemma {:induction false} MonthLaterInstant(c: Civil)
    requires c == Civil(2000, 1, 31, 19, 0, 0)
    ensures ToSeconds(c) == NewYear - 5 * 3600 + 31 * 86400
  {
  }

  /** `months_since(1)` is wrapped again in Eastern time and reads 2000-01-31 19:00. */
  lemma {:induction false} MonthsSinceOne(t: TimeWithZone, c: Civil)
    requires t == Twz && c == Civil(2000, 1, 31, 19, 0, 0)
    ensures Delegate(t, MonthsSince(1)).Wrapped?
    ensures Delegate(t, MonthsSince(1)).time.zone == Eastern
    ensures Local(Delegate(t, MonthsSince(1)).time) == c
  {
    EasternNewYear(t);
    MonthAfterEve(Local(t));
    var r := TimeWithZone(LocalToUtc(Eastern, ToSeconds(c)), Eastern);
    assert Delegate(t, MonthsSince(1)) == Wrapped(r);
    MonthLaterInstant(c);
    LocalToUtcShowsReading(Eastern, ToSeconds(c));
    LocalReads(r, c);
  }

  /** `year`, `month` and `day` pass the local fields through. */
  lemma {:induction false} FieldPassThrough(t: TimeWithZone)
    requires t == Twz
    ensures Delegate(t, Year) == Field(1999)
    ensures Delegate(t, Month) == Field(12)
    ensures Delegate(t, Day) == Field(31)
  {
    EasternNewYear(t);
  }

  // ---------------------------------------------------------------------
  // Plain UTC times and DateTimes at 2000-01-01T00:00:00Z

  /** `in_time_zone('Alaska')` and `in_time_zone('Hawaii')` of a plain time or DateTime keep the instant. */
  lemma {:induction false} PlainInTimeZone(m: Moment)
    requires m == UtcTime(NewYear) || m == DateTime(NewYear)
    ensures InTimeZoneNamed(m, "Alaska") == Ok(TimeWithZone(NewYear, Alaska))
    ensures InTimeZoneNamed(m, "Hawaii") == Ok(TimeWithZone(NewYear, Hawaii))
  {
    LookupAlaska("Alaska");
    LookupHawaii("Hawaii");
  }

  /** `change_time_zone('Alaska')` and `change_time_zone('Hawaii')` of a plain time or DateTime keep the reading 00:00. */
  lemma {:induction false} PlainChangeTimeZone(m: Moment)
    requires m == UtcTime(NewYear) || m == DateTime(NewYear)
    ensures ChangeTimeZoneNamed(m, "Alaska") == Ok(TimeWithZone(NewYear + 9 * 3600, Alaska))
    ensures ChangeTimeZoneNamed(m, "Hawaii") == Ok(TimeWithZone(NewYear + 10 * 3600, Hawaii))
  {
    LookupAlaska("Alaska");
    LookupHawaii("Hawaii");
  }

  lemma {:induction false} AlaskaEveInstant(c: Civil)
    requires c == Civil(1999, 12, 31, 15, 0, 0)
    ensures ToSeconds(c) == NewYear - 9 * 3600
  {
  }

  /** The wall-clock reading of 2000-01-01T00:00:00Z in Alaska. */
  lemma {:induction false} AlaskaEveTime(t: TimeWithZone)
    requires t == TimeWithZone(NewYear, Alaska)
    ensures Time(t) == NewYear - 9 * 3600
  {
  }

  lemma {:induction false} AlaskaEvePeriod(t: TimeWithZone)
    requires t == TimeWithZone(NewYear, Alaska)
    ensures Abbreviation(t) == "AKST" && UtcOffset(t) == -9 * 3600
  {
  }

  lemma {:induction false} AlaskaEveLocal(t: TimeWithZone, c: Civil)
    requires t == TimeWithZone(NewYear, Alaska) && c == Civil(1999, 12, 31, 15, 0, 0)
    ensures Local(t) == c
  {
    AlaskaEveInstant(c);
    AlaskaEveTime(t);
    LocalReads(t, c);
  }

  lemma {:induction false} JoinInspectAlaskaEve(w: string, d: string, m: string, y: string, cl: string, a: string, o: string)
    requires w == "Fri" && d == "31" && m == "Dec" && y == "1999" && cl == "15:00:00" && a == "AKST" && o == "-09:00"
    ensures InspectLine(w, d, m, y, cl, a, o) == "Fri, 31 Dec 1999 15:00:00 AKST -09:00"
  {
  }

  /** `inspect` of 2000-01-01T00:00:00Z in Alaska. */
  lemma {:induction false} InspectAlaskaEve(t: TimeWithZone)
    requires t == TimeWithZone(NewYear, Alaska)
    ensures Inspect(t) == "Fri, 31 Dec 1999 15:00:00 AKST -09:00"
  {
    AlaskaEveLocal(t, Civil(1999, 12, 31, 15, 0, 0));
    AlaskaEvePeriod(t);
    OnTheHour(Local(t), 15, "15:00:00");
    HourOffsetColon(UtcOffset(t), 9, "-09:00");
    InspectOnEve(t, "15:00:00", "AKST", "-09:00");
    JoinInspectAlaskaEve("Fri", "31", "Dec", "1999", "15:00:00", "AKST", "-09:00");
  }

  lemma {:induction false} HawaiiEveInstant(c: Civil)
    requires c == Civil(1999, 12, 31, 14, 0, 0)
    ensures ToSeconds(c) == NewYear - 10 * 3600
  {
  }

  /** The wall-clock reading of 2000-01-01T00:00:00Z in Hawaii. */
  lemma {:induction false} HawaiiEveTime(t: TimeWithZone)
    requires t == TimeWithZone(NewYear, Hawaii)
    ensures Time(t) == NewYear - 10 * 3600
  {
  }

  lemma {:induction false} HawaiiEvePeriod(t: TimeWithZone)
    requires t == TimeWithZone(NewYear, Hawaii)
    ensures Abbreviation(t) == "HST" && UtcOffset(t) == -10 * 3600
  {
  }

  lemma {:induction false} HawaiiEveLocal(t: TimeWithZone, c: Civil)
    requires t == TimeWithZone(NewYear, Hawaii) && c == Civil(1999, 12, 31, 14, 0, 0)
    ensures Local(t) == c
  {
    HawaiiEveInstant(c);
    HawaiiEveTime(t);
    LocalReads(t, c);
  }

  lemma {:induction false} JoinInspectHawaiiEve(w: string, d: string, m: string, y: string, cl: string, a: string, o: string)
    requires w == "Fri" && d == "31" && m == "Dec" && y == "1999" && cl == "14:00:00" && a == "HST" && o == "-10:00"
    ensures InspectLine(w, d, m, y, cl, a, o) == "Fri, 31 Dec 1999 14:00:00 HST -10:00"
  {
  }

  /** `inspect` of 2000-01-01T00:00:00Z in Hawaii. */
  lemma {:induction false} InspectHawaiiEve(t: TimeWithZone)
    requires t == TimeWithZone(NewYear, Hawaii)
    ensures Inspect(t) == "Fri, 31 Dec 1999 14:00:00 HST -10:00"
  {
    HawaiiEveLocal(t, Civil(1999, 12, 31, 14, 0, 0));
    HawaiiEvePeriod(t);
    OnTheHour(Local(t), 14, "14:00:00");
    HourOffsetColon(UtcOffset(t), 10, "-10:00");
    InspectOnEve(t, "14:00:00", "HST", "-10:00");
    JoinInspectHawaiiEve("Fri", "31", "Dec", "1999", "14:00:00", "HST", "-10:00");
  }

  /** The wall-clock reading of 2000-01-01 00:00 read in Alaska. */
  lemma {:induction false} AlaskaMidnightTime(t: TimeWithZone)
    requires t == TimeWithZone(NewYear + 9 * 3600, Alaska)
    ensures Time(t) == NewYear
  {
  }

  lemma {:induction false} AlaskaMidnightPeriod(t: TimeWithZone)
    requires t == TimeWithZone(NewYear + 9 * 3600, Alaska)
    ensures Abbreviation(t) == "AKST" && UtcOffset(t) == -9 * 3600
  {
  }

  lemma {:induction false} AlaskaMidnightLocal(t: TimeWithZone, c: Civil)
    requires t == TimeWithZone(NewYear + 9 * 3600, Alaska) && c == Civil(2000, 1, 1, 0, 0, 0)
    ensures Local(t) == c
  {
    NewYearInstant(c);
    AlaskaMidnightTime(t);
    LocalReads(t, c);
  }

  lemma {:induction false} JoinInspectAlaskaMidnight(w: string, d: string, m: string, y: string, cl: string, a: string, o: string)
    requires w == "Sat" && d == "01" && m == "Jan" && y == "2000" && cl == "00:00:00" && a == "AKST" && o == "-09:00"
    ensures InspectLine(w, d, m, y, cl, a, o) == "Sat, 01 Jan 2000 00:00:00 AKST -09:00"
  {
  }

  /** `inspect` of 2000-01-01 00:00 read in Alaska. */
  lemma {:induction false} InspectAlaskaMidnight(t: TimeWithZone)
    requires t == TimeWithZone(NewYear + 9 * 3600, Alaska)
    ensures Inspect(t) == "Sat, 01 Jan 2000 00:00:00 AKST -09:00"
  {
    AlaskaMidnightLocal(t, Civil(2000, 1, 1, 0, 0, 0));
    AlaskaMidnightPeriod(t);
    OnTheHour(Local(t), 0, "00:00:00");
    HourOffsetColon(UtcOffset(t), 9, "-09:00");
    InspectOnNewYear(t, "00:00:00", "AKST", "-09:00");
    JoinInspectAlaskaMidnight("Sat", "01", "Jan", "2000", "00:00:00", "AKST", "-09:00");
  }

  /** The wall-clock reading of 2000-01-01 00:00 read in Hawaii. */
  lemma {:induction false} HawaiiMidnightTime(t: TimeWithZone)
    requires t == TimeWithZone(NewYear + 10 * 3600, Hawaii)
    ensures Time(t) == NewYear
  {
  }

  lemma {:induction false} HawaiiMidnightPeriod(t: TimeWithZone)
    requires t == TimeWithZone(NewYear + 10 * 3600, Hawaii)
    ensures Abbreviation(t) == "HST" && UtcOffset(t) == -10 * 3600
  {
  }

  lemma {:induction false} HawaiiMidnightLocal(t: TimeWithZone, c: Civil)
    requires t == TimeWithZone(NewYear + 10 * 3600, Hawaii) && c == Civil(2000, 1, 1, 0, 0, 0)
    ensures Local(t) == c
  {
    NewYearInstant(c);
    HawaiiMidnightTime(t);
    LocalReads(t, c);
  }

  lemma {:induction false} JoinInspectHawaiiMidnight(w: string, d: string, m: string, y: string, cl: string, a: string, o: string)
    requires w == "Sat" && d == "01" && m == "Jan" && y == "2000" && cl == "00:00:00" && a == "HST" && o == "-10:00"
    ensures InspectLine(w, d, m, y, cl, a, o) == "Sat, 01 Jan 2000 00:00:00 HST -10:00"
  {
  }

  /** `inspect` of 2000-01-01 00:00 read in Hawaii. */
  lemma {:induction false} InspectHawaiiMidnight(t: TimeWithZone)
    requires t == TimeWithZone(NewYear + 10 * 3600, Hawaii)
    ensures Inspect(t) == "Sat, 01 Jan 2000 00:00:00 HST -10:00"
  {
    HawaiiMidnightLocal(t, Civil(2000, 1, 1, 0, 0, 0));
    HawaiiMidnightPeriod(t);
    OnTheHour(Local(t), 0, "00:00:00");
    HourOffsetColon(UtcOffset(t), 10, "-10:00");
    InspectOnNewYear(t, "00:00:00", "HST", "-10:00");
    JoinInspectHawaiiMidnight("Sat", "01", "Jan", "2000", "00:00:00", "HST", "-10:00");
  }

  // ---------------------------------------------------------------------
  // The default zone

  /**
    `in_current_time_zone` inside `with_time_zone 'Alaska'`, `'Hawaii'`
    and `nil`, one after the other on the same setting.
  */
  method InCurrentTimeZoneScopes(setting: ZoneSetting, m: Moment)
    returns (alaska: Result<Moment, ZoneError>, hawaii: Result<Moment, ZoneError>, none: Result<Moment, ZoneError>)
    modifies setting
    ensures setting.zone == old(setting.zone)
    ensures alaska == Ok(Zoned(TimeWithZone(Instant(m), Alaska)))
    ensures hawaii == Ok(Zoned(TimeWithZone(Instant(m), Hawaii)))
    ensures none == Ok(m)
  {
    alaska := setting.WithTimeZone(Some("Alaska"), (z: Option<Zone>) => InCurrentTimeZone(m, z));
    hawaii := setting.WithTimeZone(Some("Hawaii"), (z: Option<Zone>) => InCurrentTimeZone(m, z));
    none := setting.WithTimeZone(None, (z: Option<Zone>) => InCurrentTimeZone(m, z));
  }

  /**
    `change_time_zone_to_current` inside `with_time_zone 'Alaska'`,
    `'Hawaii'` and `nil`, one after the other on the same setting.
  */
  method ChangeTimeZoneToCurrentScopes(setting: ZoneSetting, m: Moment)
    returns (alaska: Result<Moment, ZoneError>, hawaii: Result<Moment, ZoneError>, none: Result<Moment, ZoneError>)
    modifies setting
    ensures setting.zone == old(setting.zone)
    ensures alaska == Ok(Zoned(ChangeTimeZone(m, Alaska)))
    ensures hawaii == Ok(Zoned(ChangeTimeZone(m, Hawaii)))
    ensures none == Ok(m)
  {
    alaska := setting.WithTimeZone(Some("Alaska"), (z: Option<Zone>) => ChangeTimeZoneToCurrent(m, z));
    hawaii := setting.WithTimeZone(Some("Hawaii"), (z: Option<Zone>) => ChangeTimeZoneToCurrent(m, z));
    none := setting.WithTimeZone(None, (z: Option<Zone>) => ChangeTimeZoneToCurrent(m, z));
  }
}
