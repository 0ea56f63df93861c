/**
  Text forms of a TimeWithZone: the strftime directives the value answers,
  the offset text, and the fixed layouts `to_s`, `to_s(:db)`, `xmlschema`,
  `to_json` and `inspect`. Parsers for the machine-readable layouts read
  the instant back.
*/
module Formats {
  import opened Wrappers
  import opened Calendar
  import opened Zones
  import opened ZonedTime

  // ---------------------------------------------------------------------
  // Decimal digits

  predicate IsDigit(c: char) {
    '0' <= c <= '9'
  }

  predicate AllDigits(s: string) {
    forall i :: 0 <= i < |s| ==> IsDigit(s[i])
  }

  function DigitChar(d: int): (c: char)
    requires 0 <= d < 10
    ensures IsDigit(c)
  {
    ('0' as int + d) as char
  }

  function DigitValue(c: char): (d: int)
    requires IsDigit(c)
    ensures 0 <= d < 10
  {
    c as int - '0' as int
  }

  /** The number written by a string of decimal digits. */
  function Value(s: string): nat
    requires AllDigits(s)
  {
    if s == [] then 0 else Value(s[..|s| - 1]) * 10 + DigitValue(s[|s| - 1])
  }

  /**
    `n` in decimal with at least `width` digits, zeros in front: what a
    `%0<width>d` conversion writes for a number that is not negative.
  */
  function Padded(n: nat, width: nat): (s: string)
    ensures AllDigits(s) && Value(s) == n
    ensures |s| >= 1 && |s| >= width
    ensures width == 1 && n < 10 ==> |s| == 1
    ensures width == 2 && n < 100 ==> |s| == 2
    ensures width == 3 && n < 1000 ==> |s| == 3
    ensures width == 4 && n < 10000 ==> |s| == 4
    decreases n + width
  {
    if n < 10 && width <= 1 then [DigitChar(n)]
    else
      var front := Padded(n / 10, if width > 0 then width - 1 else 0);
      var s := front + [DigitChar(n % 10)];
      assert s[..|s| - 1] == front;
      s
  }

  /** Two-digit fields are written digit by digit. */
  lemma {:induction false} PaddedTwo(n: nat)
    requires n < 100
    ensures Padded(n, 2) == [DigitChar(n / 10), DigitChar(n % 10)]
  {
    assert Padded(n / 10, 1) == [DigitChar(n / 10)];
  }

  lemma {:induction false} DivTen(n: nat)
    ensures n / 10 / 10 == n / 100 && n / 100 / 10 == n / 1000
  {
  }

  /** Four-digit fields are written digit by digit. */
  lemma {:induction false} PaddedFour(n: nat)
    requires n < 10000
    ensures Padded(n, 4) == [DigitChar(n / 1000), DigitChar(n / 100 % 10), DigitChar(n / 10 % 10), DigitChar(n % 10)]
  {
    DivTen(n);
    PaddedTwo(n / 100);
    assert Padded(n / 10, 3) == Padded(n / 100, 2) + [DigitChar(n / 10 % 10)];
  }

  // ---------------------------------------------------------------------
  // Field texts

  /** `%Y`: the year with at least four digits, after a minus sign when negative. */
  function YearText(y: int): string {
    if y >= 0 then Padded(y, 4) else "-" + Padded(-y, 4)
  }

  const MonthNames: seq<string> := ["Jan", "Feb", "Mar", "Apr", "May", "Jun", "Jul", "Aug", "Sep", "Oct", "Nov", "Dec"]

  const WeekdayNames: seq<string> := ["Sun", "Mon", "Tue", "Wed", "Thu", "Fri", "Sat"]

  /**
    The signed offset as hours and minutes, `+HH:MM` or `+HHMM`; seconds
    of the offset are dropped.
  */
  function FormatOffset(offset: int, colon: bool): (s: string)
    ensures |s| >= (if colon then 6 else 5)
    ensures s[0] == (if offset < 0 then '-' else '+')
  {
    var a := if offset < 0 then -offset else offset;
    [if offset < 0 then '-' else '+'] + Padded(a / 3600, 2) + (if colon then ":" else "") + Padded(a % 3600 / 60, 2)
  }

  /**
    `formatted_offset`: the offset in force at the instant, in six
    characters with the colon and five without, reading back as that
    offset whenever it is whole minutes under 100 hours.
  */
  function FormattedOffset(t: TimeWithZone, colon: bool): (s: string)
    ensures Representable(UtcOffset(t)) ==> |s| == (if colon then 6 else 5) && ParseOffset(s, colon) == Some(UtcOffset(t))
  {
    var s := FormatOffset(UtcOffset(t), colon);
    assert Representable(UtcOffset(t)) ==> |s| == (if colon then 6 else 5) && ParseOffset(s, colon) == Some(UtcOffset(t)) by {
      if Representable(UtcOffset(t)) {
        OffsetRoundTrip(UtcOffset(t), colon);
      }
    }
    s
  }

  /**
    The values a strftime directive reads: local fields, the day of the
    week (0 for Sunday), the zone abbreviation and the offset.
  */
  datatype Stamped = Stamped(local: Civil, weekday: int, abbreviation: string, utcOffset: int)

  predicate ValidStamped(f: Stamped) {
    ValidCivil(f.local) && 0 <= f.weekday < 7
  }

  /** The values `strftime` reads from a value: its local fields, their weekday, the abbreviation and the offset in force. */
  function Fields(t: TimeWithZone): (f: Stamped)
    ensures ValidStamped(f)
  {
    var l := Local(t);
    Stamped(l, Weekday(DaysFromCivil(l.DateOf())), Abbreviation(t), UtcOffset(t))
  }

  /** The text each directive stands for: `%Y`, `%m`, `%d`, `%H`, `%M`, `%S`, `%a`, `%b`, `%Z` and `%z`. */
  datatype FieldTexts = FieldTexts(year: string, month: string, day: string, hour: string, minute: string,
    second: string, weekday: string, monthName: string, zone: string, offset: string)

  /** The directive texts of the values a layout reads. */
  function Texts(f: Stamped): (x: FieldTexts)
    requires ValidStamped(f)
    ensures |x.month| == |x.day| == |x.hour| == |x.minute| == |x.second| == 2
    ensures x.weekday in WeekdayNames && x.monthName in MonthNames && x.zone == f.abbreviation
    ensures x.offset == FormatOffset(f.utcOffset, false)
  {
    var l := f.local;
    FieldTexts(YearText(l.year), Padded(l.month, 2), Padded(l.day, 2), Padded(l.hour, 2),
      Padded(l.minute, 2), Padded(l.second, 2), WeekdayNames[f.weekday], MonthNames[l.month - 1],
      f.abbreviation, FormatOffset(f.utcOffset, false))
  }

  /** The text of the directive `%` followed by `c`; an unknown directive stands for itself. */
  function Directive(c: char, x: FieldTexts): string {
    match c
    case 'Y' => x.year
    case 'm' => x.month
    case 'd' => x.day
    case 'H' => x.hour
    case 'M' => x.minute
    case 'S' => x.second
    case 'a' => x.weekday
    case 'b' => x.monthName
    case 'Z' => x.zone
    case 'z' => x.offset
    case '%' => "%"
    case _ => ['%', c]
  }

  predicate NoDirectives(s: string) {
    forall i :: 0 <= i < |s| ==> s[i] != '%'
  }

  /** Writes `format` with each directive replaced by its text; a lone `%` at the end is kept. */
  function Render(format: string, x: FieldTexts): string
    decreases |format|
  {
    if format == [] then []
    else if format[0] == '%' && |format| >= 2 then Directive(format[1], x) + Render(format[2..], x)
    else [format[0]] + Render(format[1..], x)
  }

  /** `strftime`: directives are replaced by the texts of the fields, all other characters are kept. */
  function Strftime(format: string, f: Stamped): string
    requires ValidStamped(f)
  {
    Render(format, Texts(f))
  }

  /** A layout without directives is written as it stands. */
  lemma {:induction false} RenderPlainText(format: string, x: FieldTexts)
    requires NoDirectives(format)
    ensures Render(format, x) == format
    decreases |format|
  {
    if format != [] {
      assert NoDirectives(format[1..]) by {
        forall i | 0 <= i < |format[1..]|
          ensures format[1..][i] != '%'
        {
          assert format[1..][i] == format[i + 1];
        }
      }
      RenderPlainText(format[1..], x);
    }
  }

  /** No directive of `format` is cut off by its end. */
  predicate Closed(format: string)
    decreases |format|
  {
    if format == [] then true
    else if format[0] == '%' then |format| >= 2 && Closed(format[2..])
    else Closed(format[1..])
  }

  /** A layout that ends on a whole directive, followed by more, is written one part after the other. */
  lemma {:induction false} RenderAppend(a: string, b: string, x: FieldTexts)
    requires Closed(a)
    ensures Render(a + b, x) == Render(a, x) + Render(b, x)
    decreases |a|
  {
    if a == [] {
      assert a + b == b;
    } else if a[0] == '%' {
      RenderAppend(a[2..], b, x);
      AppendAfterDirective(a, b, x);
    } else {
      RenderAppend(a[1..], b, x);
      AppendAfterLiteral(a, b, x);
    }
  }

  /** The step of `RenderAppend` at a leading directive. */
  lemma {:induction false} AppendAfterDirective(a: string, b: string, x: FieldTexts)
    requires |a| >= 2 && a[0] == '%'
    requires Render(a[2..] + b, x) == Render(a[2..], x) + Render(b, x)
    ensures Render(a + b, x) == Render(a, x) + Render(b, x)
  {
    var ab := a + b;
    assert ab[0] == '%' && ab[1] == a[1] && ab[2..] == a[2..] + b;
    var d := Directive(a[1], x);
    assert Render(ab, x) == d + Render(ab[2..], x);
    assert Render(a, x) == d + Render(a[2..], x);
    ConcatAssoc(d, Render(a[2..], x), Render(b, x));
  }

  /** The step of `RenderAppend` at a leading ordinary character. */
  lemma {:induction false} AppendAfterLiteral(a: string, b: string, x: FieldTexts)
    requires |a| >= 1 && a[0] != '%'
    requires Render(a[1..] + b, x) == Render(a[1..], x) + Render(b, x)
    ensures Render(a + b, x) == Render(a, x) + Render(b, x)
  {
    var ab := a + b;
    assert ab[0] == a[0] && ab[1..] == a[1..] + b;
    assert Render(ab, x) == [a[0]] + Render(ab[1..], x);
    assert Render(a, x) == [a[0]] + Render(a[1..], x);
    ConcatAssoc([a[0]], Render(a[1..], x), Render(b, x));
  }

  lemma {:induction false} ConcatAssoc(x: string, y: string, z: string)
    ensures x + (y + z) == (x + y) + z
  {
  }

  /** One step of writing a layout at a directive. */
  lemma {:induction false} RenderAtDirective(format: string, i: nat, x: FieldTexts)
    requires i + 1 < |format| && format[i] == '%'
    ensures Render(format[i..], x) == Directive(format[i + 1], x) + Render(format[i + 2..], x)
  {
    assert format[i..][2..] == format[i + 2..];
  }

  /** One step of writing a layout at an ordinary character. */
  lemma {:induction false} RenderAtLiteral(format: string, i: nat, x: FieldTexts)
    requires i < |format| && format[i] != '%'
    ensures Render(format[i..], x) == [format[i]] + Render(format[i + 1..], x)
  {
    assert format[i..][1..] == format[i + 1..];
  }

  /** A separator followed by a two-digit field. */
  function Part(sep: char, n: nat): (s: string)
    requires n < 100
    ensures |s| == 3
  {
    [sep] + Padded(n, 2)
  }

  /** Year, month, day, hour, minute and second in the fixed-width `%Y?%m?%d?%H:%M:%S` shape. */
  function Stamp(c: Civil, dateSep: char, timeSep: char): (s: string)
    requires ValidCivil(c)
    ensures 0 <= c.year <= 9999 ==> |s| == 19
  {
    YearText(c.year) + (Part(dateSep, c.month) + (Part(dateSep, c.day) + (Part(timeSep, c.hour)
      + (Part(':', c.minute) + Part(':', c.second)))))
  }

  lemma {:induction false} PartChars(sep: char, n: nat)
    requires n < 100
    ensures Part(sep, n) == [sep, DigitChar(n / 10), DigitChar(n % 10)]
  {
    PaddedTwo(n);
  }

  /** An offset under 100 hours, character by character. */
  lemma {:induction false} OffsetChars(offset: int, colon: bool)
    requires -360000 < offset < 360000
    ensures var a := if offset < 0 then -offset else offset;
      var h, m := a / 3600, a % 3600 / 60;
      FormatOffset(offset, colon) ==
        [if offset < 0 then '-' else '+', DigitChar(h / 10), DigitChar(h % 10)]
        + (if colon then ":" else "") + [DigitChar(m / 10), DigitChar(m % 10)]
  {
    var a := if offset < 0 then -offset else offset;
    PaddedTwo(a / 3600);
    PaddedTwo(a % 3600 / 60);
  }

  /** `format` is `%Y`, `dateSep`, `%m`, `dateSep`, `%d`, `timeSep`, `%H:%M:%S`. */
  predicate IsStampFormat(format: string, dateSep: char, timeSep: char) {
    |format| == 17 && dateSep != '%' && timeSep != '%'
    && format[0] == '%' && format[1] == 'Y' && format[2] == dateSep
    && format[3] == '%' && format[4] == 'm' && format[5] == dateSep
    && format[6] == '%' && format[7] == 'd' && format[8] == timeSep
    && format[9] == '%' && format[10] == 'H' && format[11] == ':'
    && format[12] == '%' && format[13] == 'M' && format[14] == ':'
    && format[15] == '%' && format[16] == 'S'
  }

  /** The clock half of a stamp layout writes hour, minute and second. */
  lemma {:induction false} RenderStampClock(format: string, x: FieldTexts, dateSep: char, timeSep: char)
    requires IsStampFormat(format, dateSep, timeSep)
    ensures Render(format[8..], x) == ([timeSep] + x.hour) + (([':'] + x.minute) + ([':'] + x.second))
  {
    RenderAtDirective(format, 15, x);
    assert format[17..] == [];
    RenderAtLiteral(format, 14, x);
    assert Render(format[14..], x) == [':'] + x.second;
    RenderAtDirective(format, 12, x);
    RenderAtLiteral(format, 11, x);
    assert Render(format[11..], x) == ([':'] + x.minute) + ([':'] + x.second);
    RenderAtDirective(format, 9, x);
    RenderAtLiteral(format, 8, x);
  }

  /** A stamp layout writes year, month, day, hour, minute and second with its separators. */
  lemma {:induction false} RenderStamp(format: string, x: FieldTexts, dateSep: char, timeSep: char)
    requires IsStampFormat(format, dateSep, timeSep)
    ensures Render(format, x) == x.year + (([dateSep] + x.month) + (([dateSep] + x.day)
      + Render(format[8..], x)))
  {
    RenderAtDirective(format, 6, x);
    RenderAtLiteral(format, 5, x);
    assert Render(format[5..], x) == ([dateSep] + x.day) + Render(format[8..], x);
    RenderAtDirective(format, 3, x);
    RenderAtLiteral(format, 2, x);
    assert Render(format[2..], x) == ([dateSep] + x.month) + Render(format[5..], x);
    RenderAtDirective(format, 0, x);
    assert format[0..] == format;
  }

  /** A stamp layout given to `strftime` writes the stamp of the local fields. */
  lemma {:induction false} StrftimeStamp(format: string, f: Stamped, dateSep: char, timeSep: char)
    requires ValidStamped(f) && IsStampFormat(format, dateSep, timeSep)
    ensures Strftime(format, f) == Stamp(f.local, dateSep, timeSep)
  {
    var x := Texts(f);
    RenderStampClock(format, x, dateSep, timeSep);
    RenderStamp(format, x, dateSep, timeSep);
  }

  // ---------------------------------------------------------------------
  // The layouts

  const DbFormat := "%Y-%m-%d %H:%M:%S"

  const XmlFormat := "%Y-%m-%dT%H:%M:%S"

  const JsonFormat := "%Y/%m/%d %H:%M:%S"

  const InspectFormat := "%a, %d %b %Y %H:%M:%S"

  lemma {:induction false} StampFormats()
    ensures IsStampFormat(DbFormat, '-', ' ')
    ensures IsStampFormat(XmlFormat, '-', 'T')
    ensures IsStampFormat(JsonFormat, '/', ' ')
    ensures IsInspectFormat(InspectFormat)
  {
  }

  /** Hour, minute and second as `%H:%M:%S` writes them. */
  function Clock(c: Civil): (s: string)
    requires ValidCivil(c)
    ensures |s| == 8
  {
    Padded(c.hour, 2) + (":" + (Padded(c.minute, 2) + (":" + Padded(c.second, 2))))
  }

  /** `format` ends with `%H:%M:%S` starting at index `i`. */
  predicate ClockFormatAt(format: string, i: nat) {
    |format| == i + 8
    && format[i] == '%' && format[i + 1] == 'H' && format[i + 2] == ':'
    && format[i + 3] == '%' && format[i + 4] == 'M' && format[i + 5] == ':'
    && format[i + 6] == '%' && format[i + 7] == 'S'
  }

  lemma {:induction false} RenderClockAt(format: string, i: nat, x: FieldTexts)
    requires ClockFormatAt(format, i)
    ensures Render(format[i..], x) == x.hour + (":" + (x.minute + (":" + x.second)))
  {
    RenderAtDirective(format, i + 6, x);
    assert format[i + 8..] == [];
    RenderAtLiteral(format, i + 5, x);
    RenderAtDirective(format, i + 3, x);
    RenderAtLiteral(format, i + 2, x);
    RenderAtDirective(format, i, x);
  }

  /** `format` is `%a, %d %b %Y %H:%M:%S`. */
  predicate IsInspectFormat(format: string) {
    ClockFormatAt(format, 13)
    && format[0] == '%' && format[1] == 'a' && format[2] == ',' && format[3] == ' '
    && format[4] == '%' && format[5] == 'd' && format[6] == ' '
    && format[7] == '%' && format[8] == 'b' && format[9] == ' '
    && format[10] == '%' && format[11] == 'Y' && format[12] == ' '
  }

  /** The month, year and clock half of the `inspect` layout. */
  lemma {:induction false} RenderInspectTail(format: string, x: FieldTexts)
    requires IsInspectFormat(format)
    ensures Render(format[7..], x) == x.monthName + (" " + (x.year + (" " + Render(format[13..], x))))
  {
    RenderAtLiteral(format, 12, x);
    RenderAtDirective(format, 10, x);
    assert Render(format[10..], x) == x.year + (" " + Render(format[13..], x));
    RenderAtLiteral(format, 9, x);
    RenderAtDirective(format, 7, x);
  }

  /** The weekday and day half of the `inspect` layout. */
  lemma {:induction false} RenderInspectHead(format: string, x: FieldTexts)
    requires IsInspectFormat(format)
    ensures Render(format, x) == x.weekday + (", " + (x.day + (" " + Render(format[7..], x))))
  {
    var rest := Render(format[7..], x);
    assert Render(format[4..], x) == x.day + (" " + rest) by {
      RenderAtLiteral(format, 6, x);
      RenderAtDirective(format, 4, x);
    }
    assert Render(format[2..], x) == ", " + Render(format[4..], x) by {
      RenderAtLiteral(format, 3, x);
      RenderAtLiteral(format, 2, x);
    }
    RenderAtDirective(format, 0, x);
    assert format[0..] == format;
  }

  /** The `inspect` layout writes weekday, day, month name, year and clock. */
  lemma {:induction false} StrftimeInspect(format: string, f: Stamped)
    requires ValidStamped(f) && IsInspectFormat(format)
    ensures var l := f.local;
      Strftime(format, f) == WeekdayNames[f.weekday] + (", " + (Padded(l.day, 2)
        + (" " + (MonthNames[l.month - 1] + (" " + (YearText(l.year) + (" " + Clock(l))))))))
  {
    var x := Texts(f);
    RenderClockAt(format, 13, x);
    RenderInspectTail(format, x);
    RenderInspectHead(format, x);
  }

  /**
    `strftime` on the value: the directives read the local fields and the
    zone. A layout without directives is written as it stands, and every
    stamp layout writes the stamp of the local fields.
  */
  function StrftimeOf(t: TimeWithZone, format: string): (s: string)
    ensures NoDirectives(format) ==> s == format
    ensures forall dateSep, timeSep :: IsStampFormat(format, dateSep, timeSep) ==> s == Stamp(Local(t), dateSep, timeSep)
  {
    var f := Fields(t);
    assert NoDirectives(format) ==> Strftime(format, f) == format by {
      if NoDirectives(format) {
        RenderPlainText(format, Texts(f));
      }
    }
    forall dateSep, timeSep | IsStampFormat(format, dateSep, timeSep)
      ensures Strftime(format, f) == Stamp(Local(t), dateSep, timeSep)
    {
      StrftimeStamp(format, f, dateSep, timeSep);
    }
    Strftime(format, f)
  }

  /** The tail `%Z %z` writes the abbreviation and the offset without a colon. */
  lemma {:induction false} ZoneSuffix(format: string, x: FieldTexts)
    requires |format| == 6
    requires format[0] == ' ' && format[1] == '%' && format[2] == 'Z' && format[3] == ' ' && format[4] == '%' && format[5] == 'z'
    ensures Render(format, x) == " " + (x.zone + (" " + x.offset))
  {
    RenderAtDirective(format, 4, x);
    assert format[6..] == [];
    RenderAtLiteral(format, 3, x);
    RenderAtDirective(format, 1, x);
    RenderAtLiteral(format, 0, x);
    assert format[0..] == format;
  }

  /** A stamp layout holds no dangling `%`, so text appended after it is written on its own. */
  lemma {:induction false} StampFormatClosed(format: string, dateSep: char, timeSep: char)
    requires IsStampFormat(format, dateSep, timeSep)
    ensures Closed(format)
  {
    assert Closed(format[17..]);
    assert Closed(format[15..]);
    assert Closed(format[14..]);
    assert Closed(format[12..]);
    assert Closed(format[11..]);
    assert Closed(format[9..]);
    assert Closed(format[8..]);
    assert Closed(format[6..]);
    assert Closed(format[5..]);
    assert Closed(format[3..]);
    assert Closed(format[2..]);
    assert format[0..] == format;
  }

  /** A stamp layout followed by `%Z %z` writes the stamp, the abbreviation and the offset. */
  lemma {:induction false} StampWithZone(format: string, dateSep: char, timeSep: char, x: FieldTexts)
    requires IsStampFormat(format, dateSep, timeSep)
    ensures Render(format + " %Z %z", x) == Render(format, x) + (" " + (x.zone + (" " + x.offset)))
  {
    StampFormatClosed(format, dateSep, timeSep);
    RenderAppend(format, " %Z %z", x);
    ZoneSuffix(" %Z %z", x);
  }

  /**
    `%Z` and `%z` on any value: the zone's abbreviation in force, and the
    offset in force without a colon.
  */
  lemma {:induction false} StrftimeZoneTokens(t: TimeWithZone)
    ensures StrftimeOf(t, "%Z") == Abbreviation(t)
    ensures StrftimeOf(t, "%z") == FormattedOffset(t, false)
  {
    var f := Fields(t);
    RenderDirectiveAlone('Z', Texts(f));
    RenderDirectiveAlone('z', Texts(f));
  }

  /** A layout of one directive writes that directive's text. */
  lemma {:induction false} RenderDirectiveAlone(c: char, x: FieldTexts)
    ensures Render(['%', c], x) == Directive(c, x)
  {
    assert ['%', c][2..] == [];
  }

  /**
    A stamp layout followed by `%Z %z`, on any value: the stamp of the
    local fields, then the abbreviation and the offset without a colon.
  */
  lemma {:induction false} StrftimeStampZone(t: TimeWithZone, format: string, dateSep: char, timeSep: char)
    requires IsStampFormat(format, dateSep, timeSep)
    ensures StrftimeOf(t, format + " %Z %z")
      == Stamp(Local(t), dateSep, timeSep) + (" " + (Abbreviation(t) + (" " + FormattedOffset(t, false))))
  {
    var f := Fields(t);
    StampWithZone(format, dateSep, timeSep, Texts(f));
    StrftimeStamp(format, f, dateSep, timeSep);
  }

  /** `to_s`: local fields and the offset without a colon. */
  function ToSText(f: Stamped): string
    requires ValidStamped(f)
  {
    Strftime(DbFormat, f) + (" " + FormatOffset(f.utcOffset, false))
  }

  /** `xmlschema`: local fields, a `T`, and the offset with a colon. */
  function XmlschemaText(f: Stamped): string
    requires ValidStamped(f)
  {
    Strftime(XmlFormat, f) + FormatOffset(f.utcOffset, true)
  }

  /** `to_json`: a quoted string of local fields with slashes and the offset without a colon. */
  function ToJsonText(f: Stamped): string
    requires ValidStamped(f)
  {
    "\"" + (Strftime(JsonFormat, f) + (" " + FormatOffset(f.utcOffset, false) + "\""))
  }

  /** `to_s`: the stamp of the local fields with `-` and a space, then the offset without a colon. */
  function ToS(t: TimeWithZone): (s: string)
    ensures s == Stamp(Local(t), '-', ' ') + (" " + FormattedOffset(t, false))
  {
    StampFormats();
    StrftimeStamp(DbFormat, Fields(t), '-', ' ');
    ToSText(Fields(t))
  }

  /** `to_s(:db)`: the stamp of the UTC fields of the instant, whatever the zone. */
  function ToSDb(t: TimeWithZone): (s: string)
    ensures s == Stamp(FromSeconds(t.utc), '-', ' ')
  {
    StampFormats();
    StrftimeStamp(DbFormat, Fields(FromUtc(t.utc)), '-', ' ');
    Strftime(DbFormat, Fields(FromUtc(t.utc)))
  }

  /** `xmlschema`: the stamp of the local fields with `-` and `T`, then the offset with a colon. */
  function Xmlschema(t: TimeWithZone): (s: string)
    ensures s == Stamp(Local(t), '-', 'T') + FormattedOffset(t, true)
  {
    StampFormats();
    StrftimeStamp(XmlFormat, Fields(t), '-', 'T');
    XmlschemaText(Fields(t))
  }

  /** `to_json`: the stamp of the local fields with `/` and a space, then the offset without a colon, quoted. */
  function ToJson(t: TimeWithZone): (s: string)
    ensures s == "\"" + (Stamp(Local(t), '/', ' ') + (" " + FormattedOffset(t, false) + "\""))
  {
    StampFormats();
    StrftimeStamp(JsonFormat, Fields(t), '/', ' ');
    ToJsonText(Fields(t))
  }

  /** The date and clock half of the `inspect` line. */
  function InspectHead(weekday: string, day: string, month: string, year: string, clock: string): string {
    weekday + (", " + (day + (" " + (month + (" " + (year + (" " + clock)))))))
  }

  /** The `inspect` line assembled from its pieces. */
  function InspectLine(weekday: string, day: string, month: string, year: string, clock: string, abbreviation: string, offset: string): string {
    InspectHead(weekday, day, month, year, clock) + " " + abbreviation + " " + offset
  }

  /** `inspect`: weekday, day, month name, year, time, zone abbreviation and the offset with a colon. */
  function Inspect(t: TimeWithZone): string {
    StrftimeOf(t, InspectFormat) + " " + Abbreviation(t) + " " + FormattedOffset(t, true)
  }

  /**
    `inspect` of any value: the weekday name, the day, the month name, the
    year and the clock of the local fields, then the zone abbreviation and
    the offset with a colon.
  */
  lemma {:induction false} InspectPieces(t: TimeWithZone)
    ensures var l := Local(t);
      Inspect(t) == InspectLine(WeekdayNames[Weekday(DaysFromCivil(l.DateOf()))], Padded(l.day, 2),
        MonthNames[l.month - 1], YearText(l.year), Clock(l), Abbreviation(t), FormattedOffset(t, true))
  {
    var f := Fields(t);
    var l := f.local;
    StampFormats();
    StrftimeInspect(InspectFormat, f);
    assert Strftime(InspectFormat, f) == InspectHead(WeekdayNames[Weekday(DaysFromCivil(l.DateOf()))], Padded(l.day, 2),
        MonthNames[l.month - 1], YearText(l.year), Clock(l));
  }

  // ---------------------------------------------------------------------
  // Reading the layouts back

  /** Reads `n` digits from the front of `s`, giving their number and the rest. */
  function TakeNumber(s: string, n: nat): Option<(nat, string)> {
    if |s| >= n && AllDigits(s[..n]) then Some((Value(s[..n]), s[n..])) else None
  }

  /** Reads the separator `sep` and two digits from the front of `s`. */
  function TakePart(s: string, sep: char): Option<(nat, string)> {
    if |s| >= 1 && s[0] == sep then TakeNumber(s[1..], 2) else None
  }

  lemma {:induction false} TakeNumberPadded(v: nat, width: nat, rest: string)
    requires |Padded(v, width)| == width
    ensures TakeNumber(Padded(v, width) + rest, width) == Some((v, rest))
  {
    var p := Padded(v, width);
    assert (p + rest)[..width] == p && (p + rest)[width..] == rest;
  }

  lemma {:induction false} TakePartOfPart(sep: char, v: nat, rest: string)
    requires v < 100
    ensures TakePart(Part(sep, v) + rest, sep) == Some((v, rest))
  {
    assert (Part(sep, v) + rest)[1..] == Padded(v, 2) + rest;
    TakeNumberPadded(v, 2, rest);
  }

  /** Reads a stamp with a four-digit year from the front of `s`, giving the fields and the rest. */
  function ParseStamp(s: string, dateSep: char, timeSep: char): (r: Option<(Civil, string)>)
    ensures r.Some? ==> ValidCivil(r.value.0)
  {
    match TakeNumber(s, 4)
    case None => None
    case Some((y, s1)) =>
      match TakePart(s1, dateSep)
      case None => None
      case Some((mo, s2)) =>
        match TakePart(s2, dateSep)
        case None => None
        case Some((d, s3)) =>
          match TakePart(s3, timeSep)
          case None => None
          case Some((h, s4)) =>
            match TakePart(s4, ':')
            case None => None
            case Some((mi, s5)) =>
              match TakePart(s5, ':')
              case None => None
              case Some((se, s6)) =>
                var c := Civil(y, mo, d, h, mi, se);
                if ValidCivil(c) then Some((c, s6)) else None
  }

  /** Reads the minutes of an offset, after a colon when asked, from the front of `s`. */
  function TakeMinutes(s: string, colon: bool): Option<(nat, string)> {
    if colon then TakePart(s, ':') else TakeNumber(s, 2)
  }

  /** Reads an offset written by `FormatOffset`, in seconds: a sign, two digits of hours, the colon when asked, two digits of minutes. */
  function ParseOffset(s: string, colon: bool): Option<int> {
    if |s| >= 1 && (s[0] == '+' || s[0] == '-') then
      match TakeNumber(s[1..], 2)
      case None => None
      case Some((h, s1)) =>
        match TakeMinutes(s1, colon)
        case None => None
        case Some((m, s2)) =>
          var a := h * 3600 + m * 60;
          if s2 == [] then Some(if s[0] == '-' then -a else a) else None
    else None
  }

  /** What a layout with an offset records: the local fields and the offset. */
  datatype Timestamp = Timestamp(local: Civil, utcOffset: int)

  /** The instant a timestamp denotes: its local fields less its offset. */
  function InstantOf(ts: Timestamp): int
    requires ValidCivil(ts.local)
  {
    ToSeconds(ts.local) - ts.utcOffset
  }

  /** Reads the fields and the offset back from an `xmlschema` text. */
  function ParseXmlschema(s: string): (r: Option<Timestamp>)
    ensures r.Some? ==> ValidCivil(r.value.local)
  {
    match ParseStamp(s, '-', 'T')
    case None => None
    case Some((c, rest)) =>
      match ParseOffset(rest, true)
      case None => None
      case Some(off) => Some(Timestamp(c, off))
  }

  /** Reads the fields and the offset back from a `to_s` text. */
  function ParseToS(s: string): (r: Option<Timestamp>)
    ensures r.Some? ==> ValidCivil(r.value.local)
  {
    match ParseStamp(s, '-', ' ')
    case None => None
    case Some((c, rest)) =>
      if |rest| >= 1 && rest[0] == ' ' then
        match ParseOffset(rest[1..], false)
        case None => None
        case Some(off) => Some(Timestamp(c, off))
      else None
  }

  /** Reads the fields and the offset back from a `to_json` text. */
  function ParseJson(s: string): (r: Option<Timestamp>)
    ensures r.Some? ==> ValidCivil(r.value.local)
  {
    if |s| >= 1 && s[0] == '"' then
      match ParseStamp(s[1..], '/', ' ')
      case None => None
      case Some((c, rest)) =>
        if |rest| == 7 && rest[0] == ' ' && rest[6] == '"' then
          match ParseOffset(rest[1..6], false)
          case None => None
          case Some(off) => Some(Timestamp(c, off))
        else None
    else None
  }

  /** Offsets the text forms can carry exactly: whole minutes, under 100 hours. */
  predicate Representable(offset: int) {
    offset % 60 == 0 && -360000 < offset < 360000
  }

  /** Reading digits back from the front of a text gives their number and the rest. */
  lemma {:induction false} TakeNumberOf(digits: string, rest: string)
    requires AllDigits(digits)
    ensures TakeNumber(digits + rest, |digits|) == Some((Value(digits), rest))
  {
    assert (digits + rest)[..|digits|] == digits && (digits + rest)[|digits|..] == rest;
  }

  /** The minutes of an offset text, with the colon when asked, read back to the end. */
  lemma {:induction false} TakeMinutesOf(m: string, colon: bool)
    requires |m| == 2 && AllDigits(m)
    ensures TakeMinutes((if colon then ":" else "") + m, colon) == Some((Value(m), []))
  {
    TakeNumberOf(m, []);
    assert m + [] == m;
    if colon {
      assert (":" + m)[1..] == m;
    } else {
      assert "" + m == m;
    }
  }

  /** An offset text made of a sign and two pairs of digits reads back as those hours and minutes. */
  lemma {:induction false} ParseOffsetOfParts(sign: char, h: string, m: string, colon: bool)
    requires sign == '+' || sign == '-'
    requires |h| == 2 && |m| == 2 && AllDigits(h) && AllDigits(m)
    ensures var a := Value(h) * 3600 + Value(m) * 60;
      ParseOffset([sign] + h + (if colon then ":" else "") + m, colon) == Some(if sign == '-' then -a else a)
  {
    var sep: string := if colon then ":" else "";
    OffsetTextTail(sign, h, sep, m);
    TakeNumberOf(h, sep + m);
    TakeMinutesOf(m, colon);
    ParseOffsetOfReadings([sign] + h + sep + m, colon, Value(h), sep + m, Value(m));
  }

  /** One step of `ParseOffset`: a sign, the hours read, the minutes read to the end. */
  lemma {:induction false} ParseOffsetOfReadings(s: string, colon: bool, hours: nat, rest: string, minutes: nat)
    requires |s| >= 1 && (s[0] == '+' || s[0] == '-')
    requires TakeNumber(s[1..], 2) == Some((hours, rest))
    requires TakeMinutes(rest, colon) == Some((minutes, []))
    ensures var a := hours * 3600 + minutes * 60;
      ParseOffset(s, colon) == Some(if s[0] == '-' then -a else a)
  {
  }

  lemma {:induction false} OffsetTextTail(sign: char, h: string, sep: string, m: string)
    ensures ([sign] + h + sep + m)[0] == sign && ([sign] + h + sep + m)[1..] == h + (sep + m)
  {
    assert [sign] + h + sep + m == [sign] + (h + (sep + m));
  }

  /** A representable offset is its sign, its hours (under 100) and its minutes past the hour. */
  lemma {:induction false} OffsetFromParts(offset: int)
    requires Representable(offset)
    ensures var a := if offset < 0 then -offset else offset;
      var b := a / 3600 * 3600 + a % 3600 / 60 * 60;
      a / 3600 < 100 && (if offset < 0 then -b else b) == offset
  {
  }

  lemma {:induction false} OffsetRoundTrip(offset: int, colon: bool)
    requires Representable(offset)
    ensures |FormatOffset(offset, colon)| == if colon then 6 else 5
    ensures ParseOffset(FormatOffset(offset, colon), colon) == Some(offset)
  {
    var a := if offset < 0 then -offset else offset;
    OffsetFromParts(offset);
    ParseOffsetOfParts(if offset < 0 then '-' else '+', Padded(a / 3600, 2), Padded(a % 3600 / 60, 2), colon);
  }

  /** `ParseStamp` read step by step: the year, then five separated two-digit fields. */
  lemma {:induction false} ParseStampOfReadings(s: string, dateSep: char, timeSep: char, c: Civil,
      s1: string, s2: string, s3: string, s4: string, s5: string, rest: string)
    requires ValidCivil(c) && c.year >= 0
    requires TakeNumber(s, 4) == Some((c.year, s1))
    requires TakePart(s1, dateSep) == Some((c.month, s2))
    requires TakePart(s2, dateSep) == Some((c.day, s3))
    requires TakePart(s3, timeSep) == Some((c.hour, s4))
    requires TakePart(s4, ':') == Some((c.minute, s5))
    requires TakePart(s5, ':') == Some((c.second, rest))
    ensures ParseStamp(s, dateSep, timeSep) == Some((c, rest))
  {
  }

  /** A stamp read from the front of a text gives back the fields and leaves the rest. */
  lemma {:induction false} StampRoundTrip(c: Civil, dateSep: char, timeSep: char, rest: string)
    requires ValidCivil(c) && 0 <= c.year <= 9999
    ensures ParseStamp(Stamp(c, dateSep, timeSep) + rest, dateSep, timeSep) == Some((c, rest))
  {
    var p5 := Part(':', c.second) + rest;
    var p4 := Part(':', c.minute) + p5;
    var p3 := Part(timeSep, c.hour) + p4;
    var p2 := Part(dateSep, c.day) + p3;
    var p1 := Part(dateSep, c.month) + p2;
    StampThenRest(c, dateSep, timeSep, rest);
    TakeNumberPadded(c.year, 4, p1);
    TakePartOfPart(dateSep, c.month, p2);
    TakePartOfPart(dateSep, c.day, p3);
    TakePartOfPart(timeSep, c.hour, p4);
    TakePartOfPart(':', c.minute, p5);
    TakePartOfPart(':', c.second, rest);
    ParseStampOfReadings(Stamp(c, dateSep, timeSep) + rest, dateSep, timeSep, c, p1, p2, p3, p4, p5, rest);
  }

  /** A stamp followed by more text, regrouped piece by piece. */
  lemma {:induction false} StampThenRest(c: Civil, dateSep: char, timeSep: char, rest: string)
    requires ValidCivil(c) && 0 <= c.year
    ensures Stamp(c, dateSep, timeSep) + rest == Padded(c.year, 4) + (Part(dateSep, c.month) + (Part(dateSep, c.day)
      + (Part(timeSep, c.hour) + (Part(':', c.minute) + (Part(':', c.second) + rest)))))
  {
  }

  /** Reading a stamp followed by an offset with a colon gives back the fields and the offset. */
  lemma {:induction false} ParseXmlschemaOfStamp(c: Civil, offset: int)
    requires ValidCivil(c) && 0 <= c.year <= 9999 && Representable(offset)
    ensures ParseXmlschema(Stamp(c, '-', 'T') + FormatOffset(offset, true)) == Some(Timestamp(c, offset))
  {
    StampRoundTrip(c, '-', 'T', FormatOffset(offset, true));
    OffsetRoundTrip(offset, true);
  }

  /** Text-level round trip of the `xmlschema` layout. */
  lemma {:induction false} XmlschemaTextRoundTrip(f: Stamped)
    requires ValidStamped(f) && 0 <= f.local.year <= 9999 && Representable(f.utcOffset)
    ensures ParseXmlschema(XmlschemaText(f)) == Some(Timestamp(f.local, f.utcOffset))
  {
    StampFormats();
    StrftimeStamp(XmlFormat, f, '-', 'T');
    ParseXmlschemaOfStamp(f.local, f.utcOffset);
  }

  /** Reading a stamp, a space and an offset without a colon gives back the fields and the offset. */
  lemma {:induction false} ParseToSOfStamp(c: Civil, offset: int)
    requires ValidCivil(c) && 0 <= c.year <= 9999 && Representable(offset)
    ensures ParseToS(Stamp(c, '-', ' ') + (" " + FormatOffset(offset, false))) == Some(Timestamp(c, offset))
  {
    var off := FormatOffset(offset, false);
    StampRoundTrip(c, '-', ' ', " " + off);
    assert (" " + off)[1..] == off;
    OffsetRoundTrip(offset, false);
  }

  /** Text-level round trip of the `to_s` layout. */
  lemma {:induction false} ToSTextRoundTrip(f: Stamped)
    requires ValidStamped(f) && 0 <= f.local.year <= 9999 && Representable(f.utcOffset)
    ensures ParseToS(ToSText(f)) == Some(Timestamp(f.local, f.utcOffset))
  {
    StampFormats();
    StrftimeStamp(DbFormat, f, '-', ' ');
    ParseToSOfStamp(f.local, f.utcOffset);
  }

  /** Reading a quoted stamp with an offset gives back the fields and the offset. */
  lemma {:induction false} ParseJsonOfStamp(c: Civil, offset: int)
    requires ValidCivil(c) && 0 <= c.year <= 9999 && Representable(offset)
    ensures ParseJson("\"" + (Stamp(c, '/', ' ') + (" " + FormatOffset(offset, false) + "\"")))
      == Some(Timestamp(c, offset))
  {
    var off := FormatOffset(offset, false);
    OffsetRoundTrip(offset, false);
    var rest := " " + off + "\"";
    assert rest[1..6] == off;
    StampRoundTrip(c, '/', ' ', rest);
    var text := "\"" + (Stamp(c, '/', ' ') + rest);
    assert text[1..] == Stamp(c, '/', ' ') + rest;
  }

  /** Text-level round trip of the `to_json` layout. */
  lemma {:induction false} ToJsonTextRoundTrip(f: Stamped)
    requires ValidStamped(f) && 0 <= f.local.year <= 9999 && Representable(f.utcOffset)
    ensures ParseJson(ToJsonText(f)) == Some(Timestamp(f.local, f.utcOffset))
  {
    StampFormats();
    StrftimeStamp(JsonFormat, f, '/', ' ');
    ParseJsonOfStamp(f.local, f.utcOffset);
  }

  /** The local fields of a value less its offset denote its instant. */
  lemma {:induction false} FieldsDenoteInstant(t: TimeWithZone)
    ensures InstantOf(Timestamp(Local(t), UtcOffset(t))) == t.utc
  {
    TimeIsInstantPlusOffset(t);
  }

  /** Parsing an `xmlschema` text gives back the local fields, the offset and so the instant. */
  lemma {:induction false} XmlschemaRoundTrip(t: TimeWithZone)
    requires 0 <= Local(t).year <= 9999 && Representable(UtcOffset(t))
    ensures ParseXmlschema(Xmlschema(t)) == Some(Timestamp(Local(t), UtcOffset(t)))
    ensures InstantOf(ParseXmlschema(Xmlschema(t)).value) == t.utc
  {
    XmlschemaTextRoundTrip(Fields(t));
    FieldsDenoteInstant(t);
  }

  /** Parsing a `to_s` text gives back the local fields, the offset and so the instant. */
  lemma {:induction false} ToSRoundTrip(t: TimeWithZone)
    requires 0 <= Local(t).year <= 9999 && Representable(UtcOffset(t))
    ensures ParseToS(ToS(t)) == Some(Timestamp(Local(t), UtcOffset(t)))
    ensures InstantOf(ParseToS(ToS(t)).value) == t.utc
  {
    ToSTextRoundTrip(Fields(t));
    FieldsDenoteInstant(t);
  }

  /** Parsing a `to_json` text gives back the local fields, the offset and so the instant. */
  lemma {:induction false} ToJsonRoundTrip(t: TimeWithZone)
    requires 0 <= Local(t).year <= 9999 && Representable(UtcOffset(t))
    ensures ParseJson(ToJson(t)) == Some(Timestamp(Local(t), UtcOffset(t)))
    ensures InstantOf(ParseJson(ToJson(t)).value) == t.utc
  {
    ToJsonTextRoundTrip(Fields(t));
    FieldsDenoteInstant(t);
  }

  /** Text-level round trip of the stamp that `to_s(:db)` writes. */
  lemma {:induction false} DbTextRoundTrip(f: Stamped)
    requires ValidStamped(f) && 0 <= f.local.year <= 9999
    ensures ParseStamp(Strftime(DbFormat, f), '-', ' ') == Some((f.local, []))
  {
    StampFormats();
    StrftimeStamp(DbFormat, f, '-', ' ');
    StampRoundTrip(f.local, '-', ' ', []);
    AppendNothing(Stamp(f.local, '-', ' '));
  }

  lemma {:induction false} AppendNothing(s: string)
    ensures s + [] == s
  {
  }

  /** `to_s(:db)` writes the UTC fields, so it reads back the instant in any zone. */
  lemma {:induction false} ToSDbRoundTrip(t: TimeWithZone)
    requires 0 <= FromSeconds(t.utc).year <= 9999
    ensures ParseStamp(ToSDb(t), '-', ' ') == Some((FromSeconds(t.utc), []))
    ensures ToSeconds(FromSeconds(t.utc)) == t.utc
    ensures forall z :: ToSDb(TimeWithZone(t.utc, z)) == ToSDb(t)
  {
    var f := Fields(FromUtc(t.utc));
    UtcZoneHasNoOffset(FromUtc(t.utc));
    assert f.local == FromSeconds(t.utc);
    DbTextRoundTrip(f);
    ToSecondsFromSeconds(t.utc);
  }
}
