/**
  The proleptic Gregorian calendar that plain times use: civil fields
  (year, month, day, hour, minute, second) and their one-to-one
  correspondence with integer seconds since 1970-01-01T00:00:00.

  Day numbers are converted with a days-from-civil algorithm that counts
  years from March, so that the leap day is the last day of its year, and
  splits time into 400-year eras of 146097 days.
*/
module Calendar {

  // The arithmetic below writes its constants as literals, so that the
  // solver sees multiplications by numbers: 86400 seconds per day, 146097
  // days per 400-year era, and 719468 days from 0000-03-01 to 1970-01-01.

  datatype Date = Date(year: int, month: int, day: int)

  datatype Civil = Civil(year: int, month: int, day: int, hour: int, minute: int, second: int)
  {
    function DateOf(): Date { Date(year, month, day) }
  }

  predicate IsLeapYear(y: int) {
    y % 4 == 0 && (y % 100 != 0 || y % 400 == 0)
  }

  function DaysInMonth(y: int, m: int): int
    requires 1 <= m <= 12
  {
    if m == 2 then (if IsLeapYear(y) then 29 else 28)
    else if m == 4 || m == 6 || m == 9 || m == 11 then 30
    else 31
  }

  predicate ValidDate(d: Date) {
    1 <= d.month <= 12 && 1 <= d.day <= DaysInMonth(d.year, d.month)
  }

  predicate ValidCivil(c: Civil) {
    ValidDate(c.DateOf()) && 0 <= c.hour < 24 && 0 <= c.minute < 60 && 0 <= c.second < 60
  }

  // ---------------------------------------------------------------------
  // Years and months counted from March

  /** Month counted from March (0) to February (11). */
  function MarchMonth(m: int): int
    requires 1 <= m <= 12
  {
    if m > 2 then m - 3 else m + 9
  }

  function MonthFromMarch(mp: int): int
    requires 0 <= mp < 12
  {
    if mp < 10 then mp + 3 else mp - 9
  }

  /** Days of the March-based year that precede month `mp`. */
  function MonthStart(mp: int): int
    requires 0 <= mp < 12
  {
    (153 * mp + 2) / 5
  }

  /** Days of an era that precede its year `yoe` (March-based). */
  function YearStart(yoe: int): int
    requires 0 <= yoe < 400
  {
    365 * yoe + yoe / 4 - yoe / 100
  }

  /** A March-based year is long when the February that ends it has 29 days. */
  function YearLength(yoe: int): int
    requires 0 <= yoe < 400
  {
    if IsLeapYear(yoe + 1) then 366 else 365
  }

  lemma {:induction false} LeapYearPeriodic(era: int, k: int)
    ensures IsLeapYear(400 * era + k) == IsLeapYear(k)
  {
    ShiftMod4(k, 100 * era);
    ShiftMod100(k, 4 * era);
    ShiftMod400(k, era);
  }

  lemma {:induction false} ShiftMod4(x: int, n: int)
    ensures (x + 4 * n) % 4 == x % 4
  {
  }

  lemma {:induction false} ShiftMod100(x: int, n: int)
    ensures (x + 100 * n) % 100 == x % 100
  {
  }

  lemma {:induction false} ShiftMod400(x: int, n: int)
    ensures (x + 400 * n) % 400 == x % 400
  {
  }

  /** Consecutive years of an era tile it without gaps or overlaps. */
  lemma {:induction false} YearStartStep(yoe: int)
    requires 0 <= yoe < 400
    ensures yoe < 399 ==> YearStart(yoe + 1) == YearStart(yoe) + YearLength(yoe)
    ensures yoe == 399 ==> YearStart(yoe) + YearLength(yoe) == 146097
  {
  }

  /** Splits a day of an era into the year of the era and the day of that year. */
  function SplitEra(doe: int): (r: (int, int))
    requires 0 <= doe < 146097
    ensures 0 <= r.0 < 400 && 0 <= r.1 <= 365
  {
    var c := if doe / 36524 < 3 then doe / 36524 else 3;
    var q := (doe - 36524 * c) / 1461;
    var s := doe - 36524 * c - 1461 * q;
    var yy := if s / 365 < 3 then s / 365 else 3;
    EraDivision(doe, c, q, s, yy);
    (100 * c + 4 * q + yy, s - 365 * yy)
  }

  /** `SplitEra` finds a day of a year of the era, and that year's start plus the day is where it began. */
  lemma {:induction false} SplitEraCovers(doe: int)
    requires 0 <= doe < 146097
    ensures var r := SplitEra(doe);
      && r.1 < YearLength(r.0)
      && YearStart(r.0) + r.1 == doe
  {
    var c := if doe / 36524 < 3 then doe / 36524 else 3;
    var q := (doe - 36524 * c) / 1461;
    var s := doe - 36524 * c - 1461 * q;
    var yy := if s / 365 < 3 then s / 365 else 3;
    EraDivision(doe, c, q, s, yy);
    YearOfParts(c, q, yy);
  }

  /** Centuries, four-year cycles and years of a day of an era, as `SplitEra` takes them. */
  lemma {:induction false} EraDivision(doe: int, c: int, q: int, s: int, yy: int)
    requires 0 <= doe < 146097
    requires c == (if doe / 36524 < 3 then doe / 36524 else 3)
    requires q == (doe - 36524 * c) / 1461 && s == doe - 36524 * c - 1461 * q
    requires yy == (if s / 365 < 3 then s / 365 else 3)
    ensures 0 <= c <= 3 && 0 <= q <= 24 && 0 <= yy <= 3 && 0 <= s - 365 * yy <= 365
    ensures s - 365 * yy == 365 ==> yy == 3 && (q < 24 || c == 3)
  {
    var rest := doe - 36524 * c;
    assert 0 <= rest <= 36524 && (c < 3 ==> rest < 36524);
    assert 0 <= s < 1461;
  }

  /** The start and length of the year made of `c` centuries, `q` four-year cycles and `yy` years. */
  lemma {:induction false} YearOfParts(c: int, q: int, yy: int)
    requires 0 <= c <= 3 && 0 <= q <= 24 && 0 <= yy <= 3
    ensures 0 <= 100 * c + 4 * q + yy < 400
    ensures YearStart(100 * c + 4 * q + yy) == 36524 * c + 1461 * q + 365 * yy
    ensures yy == 3 && (q < 24 || c == 3) ==> YearLength(100 * c + 4 * q + yy) == 366
  {
    var yoe := 100 * c + 4 * q + yy;
    assert yoe / 4 == 25 * c + q && yoe / 100 == c;
    if yy == 3 && (q < 24 || c == 3) {
      assert yoe + 1 == 100 * c + 4 * (q + 1);
      assert (yoe + 1) % 4 == 0;
      if q < 24 {
        assert (yoe + 1) % 100 == 4 * (q + 1);
      } else {
        assert yoe + 1 == 400;
      }
    }
  }

  lemma {:induction false} YearStartParts(yoe: int)
    requires 0 <= yoe < 400
    ensures YearStart(yoe) == 36524 * (yoe / 100) + 1461 * (yoe % 100 / 4) + 365 * (yoe % 4)
    ensures YearLength(yoe) == 366 ==> yoe % 4 == 3 && (yoe % 100 / 4 < 24 || yoe / 100 == 3)
  {
    var c, q, yy := yoe / 100, yoe % 100 / 4, yoe % 4;
    assert yoe == 100 * c + 4 * q + yy;
    assert yoe / 4 == 25 * c + q;
  }

  lemma {:induction false} SplitEraParts(c: int, q: int, yy: int, doy: int)
    requires 0 <= c <= 3 && 0 <= q <= 24 && 0 <= yy <= 3 && 0 <= doy <= 365
    requires doy == 365 ==> yy == 3 && (q < 24 || c == 3)
    ensures 36524 * c + 1461 * q + 365 * yy + doy < 146097
    ensures SplitEra(36524 * c + 1461 * q + 365 * yy + doy) == (100 * c + 4 * q + yy, doy)
  {
    var s := 365 * yy + doy;
    var x := 1461 * q + s;
    var doe := 36524 * c + x;
    assert 0 <= s < 1461 && 0 <= x <= 36524 && (c < 3 ==> x < 36524);
    assert (if doe / 36524 < 3 then doe / 36524 else 3) == c by {
      CenturiesOf(c, x);
    }
    assert (doe - 36524 * c) / 1461 == q by {
      CyclesOf(q, s);
    }
    assert (if s / 365 < 3 then s / 365 else 3) == yy by {
      YearsOf(yy, doy);
    }
  }

  /** The number of whole centuries in `36524 * c + x`, the fourth century being one day long. */
  lemma {:induction false} CenturiesOf(c: int, x: int)
    requires 0 <= c <= 3 && 0 <= x <= 36524 && (c < 3 ==> x < 36524)
    ensures var doe := 36524 * c + x; (if doe / 36524 < 3 then doe / 36524 else 3) == c
  {
  }

  lemma {:induction false} CyclesOf(q: int, s: int)
    requires 0 <= q && 0 <= s < 1461
    ensures (1461 * q + s) / 1461 == q
  {
  }

  /** The number of whole years in `365 * yy + doy`, the fourth year being one day long. */
  lemma {:induction false} YearsOf(yy: int, doy: int)
    requires 0 <= yy <= 3 && 0 <= doy <= 365 && (doy == 365 ==> yy == 3)
    ensures var s := 365 * yy + doy; (if s / 365 < 3 then s / 365 else 3) == yy
  {
  }

  lemma {:induction false} SplitEraOfYearStart(yoe: int, doy: int)
    requires 0 <= yoe < 400 && 0 <= doy < YearLength(yoe)
    ensures YearStart(yoe) + doy < 146097
    ensures SplitEra(YearStart(yoe) + doy) == (yoe, doy)
  {
    var c, q, yy := yoe / 100, yoe % 100 / 4, yoe % 4;
    assert YearStart(yoe) == 36524 * c + 1461 * q + 365 * yy
      && (doy == 365 ==> yy == 3 && (q < 24 || c == 3)) by {
      YearStartParts(yoe);
    }
    assert 100 * c + 4 * q + yy == yoe;
    SplitEraParts(c, q, yy, doy);
  }

  /** The March-based month of a day of the year, and its first day. */
  lemma {:induction false} MonthOfDay(doy: int)
    requires 0 <= doy < 366
    ensures 0 <= (5 * doy + 2) / 153 < 12
    ensures MonthStart((5 * doy + 2) / 153) <= doy
    ensures (5 * doy + 2) / 153 < 11 ==> doy < MonthStart((5 * doy + 2) / 153 + 1)
  {
  }

  lemma {:induction false} MonthLengths(y: int, mp: int)
    requires 0 <= mp < 11
    ensures MonthStart(mp + 1) - MonthStart(mp) == DaysInMonth(y, MonthFromMarch(mp))
    ensures MonthStart(11) == 337
  {
  }

  // ---------------------------------------------------------------------
  // Day numbers

  lemma {:induction false} DivModEra(z: int, q: int, r: int)
    requires 0 <= r < 146097 && z == q * 146097 + r
    ensures z / 146097 == q && z % 146097 == r
  {
  }

  lemma {:induction false} DivModDay(q: int, r: int)
    requires 0 <= r < 86400
    ensures (q * 86400 + r) / 86400 == q && (q * 86400 + r) % 86400 == r
  {
  }

  /** Days since 1970-01-01 of a valid date; the epoch itself is day 0. */
  function DaysFromCivil(d: Date): (n: int)
    requires ValidDate(d)
    ensures d == Date(1970, 1, 1) ==> n == 0
  {
    var y := if d.month <= 2 then d.year - 1 else d.year;
    var doy := MonthStart(MarchMonth(d.month)) + d.day - 1;
    (y / 400) * 146097 + YearStart(y % 400) + doy - 719468
  }

  /** The next day of the calendar: the next day of the month, else the 1st of the next month, else New Year's Day. */
  function Tomorrow(d: Date): (next: Date)
    requires ValidDate(d)
    ensures ValidDate(next)
  {
    if d.day < DaysInMonth(d.year, d.month) then Date(d.year, d.month, d.day + 1)
    else if d.month < 12 then Date(d.year, d.month + 1, 1)
    else Date(d.year + 1, 1, 1)
  }

  /**
    Day numbers count the calendar's days in order: the next day, across
    month lengths, leap Februaries and the turn of the year, is the next
    day number.
  */
  lemma {:induction false} NextDay(d: Date)
    requires ValidDate(d)
    ensures DaysFromCivil(Tomorrow(d)) == DaysFromCivil(d) + 1
  {
    if d.day < DaysInMonth(d.year, d.month) {
    } else if d.month != 2 {
      // Within one March-based year, the next month starts where this one ends.
      var mp := MarchMonth(d.month);
      assert mp < 11 && MarchMonth(Tomorrow(d).month) == mp + 1;
      MonthLengths(if d.month <= 2 then d.year - 1 else d.year, mp);
    } else {
      EndOfFebruary(d);
    }
  }

  /** The last day of February ends a March-based year, and March 1 starts the next one. */
  lemma {:induction false} EndOfFebruary(d: Date)
    requires ValidDate(d) && d.month == 2 && d.day == DaysInMonth(d.year, 2)
    ensures DaysFromCivil(Date(d.year, 3, 1)) == DaysFromCivil(d) + 1
  {
    var y := d.year - 1;
    var yoe := y % 400;
    assert y == 400 * (y / 400) + yoe;
    LeapYearPeriodic(y / 400, yoe + 1);
    assert MonthStart(MarchMonth(d.month)) + d.day == YearLength(yoe);
    YearStartStep(yoe);
    if yoe < 399 {
      assert d.year / 400 == y / 400 && d.year % 400 == yoe + 1;
    } else {
      assert d.year / 400 == y / 400 + 1 && d.year % 400 == 0;
    }
  }

  /** The date on day `doy` (0 for March 1) of year `yoe` of 400-year era `era`. */
  function DateOfYearDay(era: int, yoe: int, doy: int): (d: Date)
    requires 0 <= yoe < 400 && 0 <= doy < YearLength(yoe)
    ensures ValidDate(d)
  {
    MonthOfDay(doy);
    var mp := (5 * doy + 2) / 153;
    var m := MonthFromMarch(mp);
    var year := era * 400 + yoe + (if m <= 2 then 1 else 0);
    var day := doy - MonthStart(mp) + 1;
    assert 1 <= day <= DaysInMonth(year, m) by {
      if mp < 11 {
        MonthLengths(year, mp);
      } else {
        MonthLengths(year, 0);
        LeapYearPeriodic(era, yoe + 1);
      }
    }
    Date(year, m, day)
  }

  /** The date on day `doe` of 400-year era `era` (eras start on March 1 of years divisible by 400). */
  function DateInEra(era: int, doe: int): (d: Date)
    requires 0 <= doe < 146097
    ensures ValidDate(d)
  {
    SplitEraCovers(doe);
    DateOfYearDay(era, SplitEra(doe).0, SplitEra(doe).1)
  }

  /** The date `n` days after 1970-01-01. */
  function CivilFromDays(n: int): (d: Date)
    ensures ValidDate(d)
  {
    DateInEra((n + 719468) / 146097, (n + 719468) % 146097)
  }

  /** The month of a day of the March-based year is found again from the day alone. */
  lemma {:induction false} MonthOfDayInMonth(mp: int, day: int)
    requires 0 <= mp < 12 && 1 <= day <= 31
    requires mp < 11 ==> MonthStart(mp) + day - 1 < MonthStart(mp + 1)
    requires mp == 11 ==> day <= 29
    ensures (5 * (MonthStart(mp) + day - 1) + 2) / 153 == mp
  {
  }

  /** Where a valid date lies in its March-based year. */
  lemma {:induction false} DayOfMarchYear(d: Date)
    requires ValidDate(d)
    ensures var y := if d.month <= 2 then d.year - 1 else d.year;
      var doy := MonthStart(MarchMonth(d.month)) + d.day - 1;
      && 0 <= doy < YearLength(y % 400)
      && (5 * doy + 2) / 153 == MarchMonth(d.month)
  {
    var y := if d.month <= 2 then d.year - 1 else d.year;
    var mp := MarchMonth(d.month);
    var doy := MonthStart(mp) + d.day - 1;
    if mp < 11 {
      MonthLengths(d.year, mp);
      assert doy < MonthStart(mp + 1);
    } else {
      MonthLengths(d.year, 0);
      LeapYearPeriodic(y / 400, y % 400 + 1);
      assert d.year == 400 * (y / 400) + y % 400 + 1;
    }
    MonthOfDayInMonth(mp, d.day);
  }

  /** The March-based year and day of the year of the date built from them. */
  lemma {:induction false} DateOfYearDayParts(era: int, yoe: int, doy: int)
    requires 0 <= yoe < 400 && 0 <= doy < YearLength(yoe)
    ensures var d := DateOfYearDay(era, yoe, doy);
      var y := if d.month <= 2 then d.year - 1 else d.year;
      && y / 400 == era && y % 400 == yoe
      && MonthStart(MarchMonth(d.month)) + d.day - 1 == doy
  {
    MonthOfDay(doy);
    var mp := (5 * doy + 2) / 153;
    var d := DateOfYearDay(era, yoe, doy);
    assert MarchMonth(d.month) == mp;
    var y := if d.month <= 2 then d.year - 1 else d.year;
    assert y == era * 400 + yoe;
  }

  /** A valid date is the date of its own March-based year and day of that year. */
  lemma {:induction false} DateOfYearDayOfDate(d: Date)
    requires ValidDate(d)
    ensures var y := if d.month <= 2 then d.year - 1 else d.year;
      var doy := MonthStart(MarchMonth(d.month)) + d.day - 1;
      && 0 <= doy < YearLength(y % 400)
      && DateOfYearDay(y / 400, y % 400, doy) == d
  {
    var y := if d.month <= 2 then d.year - 1 else d.year;
    var era, yoe := y / 400, y % 400;
    var mp := MarchMonth(d.month);
    var doy := MonthStart(mp) + d.day - 1;
    DayOfMarchYear(d);
    assert MonthFromMarch(mp) == d.month;
    assert era * 400 + yoe + (if d.month <= 2 then 1 else 0) == d.year;
  }

  lemma {:induction false} DateInEraAt(era: int, yoe: int, doy: int, doe: int)
    requires 0 <= yoe < 400 && 0 <= doy < YearLength(yoe) && doe == YearStart(yoe) + doy
    ensures 0 <= doe < 146097
    ensures DateInEra(era, doe) == DateOfYearDay(era, yoe, doy)
  {
    SplitEraOfYearStart(yoe, doy);
  }

  lemma {:induction false} CivilFromDaysOfEraDay(n: int, era: int, doe: int)
    requires 0 <= doe < 146097 && n == era * 146097 + doe - 719468
    ensures CivilFromDays(n) == DateInEra(era, doe)
  {
    var z := n + 719468;
    assert z / 146097 == era && z % 146097 == doe by {
      DivModEra(z, era, doe);
    }
  }

  /** The day number of a valid date, split into its era and its day of the era. */
  lemma {:induction false} DaysFromCivilAtEra(d: Date, era: int, doe: int)
    requires ValidDate(d)
    requires var y := if d.month <= 2 then d.year - 1 else d.year;
      era == y / 400 && doe == YearStart(y % 400) + MonthStart(MarchMonth(d.month)) + d.day - 1
    ensures DaysFromCivil(d) == era * 146097 + doe - 719468
  {
  }

  lemma {:induction false} CivilFromDaysFromCivil(d: Date)
    requires ValidDate(d)
    ensures CivilFromDays(DaysFromCivil(d)) == d
  {
    var y := if d.month <= 2 then d.year - 1 else d.year;
    var era, yoe, doy := y / 400, y % 400, MonthStart(MarchMonth(d.month)) + d.day - 1;
    var doe := YearStart(yoe) + doy;
    assert 0 <= doy < YearLength(yoe) && DateOfYearDay(era, yoe, doy) == d by {
      DateOfYearDayOfDate(d);
    }
    DateInEraAt(era, yoe, doy, doe);
    assert CivilFromDays(DaysFromCivil(d)) == DateInEra(era, doe) by {
      DaysFromCivilAtEra(d, era, doe);
      CivilFromDaysOfEraDay(DaysFromCivil(d), era, doe);
    }
  }

  /** The March-based year and day of the year of a date found from its era position. */
  lemma {:induction false} DateInEraParts(era: int, doe: int)
    requires 0 <= doe < 146097
    ensures var d := DateInEra(era, doe);
      var y := if d.month <= 2 then d.year - 1 else d.year;
      && y / 400 == era && y % 400 == SplitEra(doe).0
      && MonthStart(MarchMonth(d.month)) + d.day - 1 == SplitEra(doe).1
  {
    SplitEraCovers(doe);
    var split := SplitEra(doe);
    assert DateInEra(era, doe) == DateOfYearDay(era, split.0, split.1);
    DateOfYearDayParts(era, split.0, split.1);
  }

  /** The day number of the date at an era position. */
  lemma {:induction false} DaysFromCivilOfEraDay(era: int, doe: int)
    requires 0 <= doe < 146097
    ensures DaysFromCivil(DateInEra(era, doe)) == era * 146097 + doe - 719468
  {
    DateInEraParts(era, doe);
    SplitEraCovers(doe);
  }

  lemma {:induction false} DaysFromCivilFromDays(n: int)
    ensures DaysFromCivil(CivilFromDays(n)) == n
  {
    var z := n + 719468;
    var era, doe := z / 146097, z % 146097;
    assert CivilFromDays(n) == DateInEra(era, doe);
    DaysFromCivilOfEraDay(era, doe);
    assert era * 146097 + doe == z;
  }

  /** Day of the week of day number `n`, 0 for Sunday through 6 for Saturday (1970-01-01 was a Thursday). */
  function Weekday(n: int): (w: int)
    ensures 0 <= w < 7
    ensures n == 0 ==> w == 4
  {
    (n + 4) % 7
  }

  /** The day after a given day is the next day of the week, and Sunday follows Saturday. */
  lemma {:induction false} WeekdayNext(n: int)
    ensures Weekday(n + 1) == if Weekday(n) == 6 then 0 else Weekday(n) + 1
  {
  }

  // ---------------------------------------------------------------------
  // Seconds

  /**
    Seconds since 1970-01-01T00:00:00 of valid civil fields: the whole days
    are the day number of the date, and the rest is the clock.
  */
  function ToSeconds(c: Civil): (s: int)
    requires ValidCivil(c)
    ensures s / 86400 == DaysFromCivil(c.DateOf()) && s % 86400 == c.hour * 3600 + c.minute * 60 + c.second
  {
    var tod := c.hour * 3600 + c.minute * 60 + c.second;
    assert 0 <= tod < 86400 by {
      TimeOfDayFromParts(c.hour, c.minute, c.second);
    }
    DivModDay(DaysFromCivil(c.DateOf()), tod);
    DaysFromCivil(c.DateOf()) * 86400 + tod
  }

  /** Civil fields of the instant `s` seconds after 1970-01-01T00:00:00; the clock reads the seconds since midnight. */
  function FromSeconds(s: int): (c: Civil)
    ensures ValidCivil(c)
    ensures c.hour * 3600 + c.minute * 60 + c.second == s % 86400
  {
    TimeOfDayParts(s % 86400);
    AtTimeOfDay(CivilFromDays(s / 86400), s % 86400)
  }

  /** The civil fields `t` seconds after midnight of date `d`. */
  function AtTimeOfDay(d: Date, t: int): (c: Civil)
    requires ValidDate(d) && 0 <= t < 86400
    ensures ValidCivil(c)
  {
    Civil(d.year, d.month, d.day, t / 3600, t % 3600 / 60, t % 60)
  }

  lemma {:induction false} TimeOfDayParts(t: int)
    requires 0 <= t < 86400
    ensures (t / 3600) * 3600 + (t % 3600 / 60) * 60 + t % 60 == t
  {
  }

  lemma {:induction false} TimeOfDayFromParts(h: int, m: int, sec: int)
    requires 0 <= h < 24 && 0 <= m < 60 && 0 <= sec < 60
    ensures var t := h * 3600 + m * 60 + sec;
      0 <= t < 86400 && t / 3600 == h && t % 3600 / 60 == m && t % 60 == sec
  {
  }

  lemma {:induction false} ToSecondsFromSeconds(s: int)
    ensures ToSeconds(FromSeconds(s)) == s
  {
    var q, t := s / 86400, s % 86400;
    DaysFromCivilFromDays(q);
    TimeOfDayParts(t);
    assert ToSeconds(FromSeconds(s)) == q * 86400 + t;
  }

  lemma {:induction false} FromSecondsToSeconds(c: Civil)
    requires ValidCivil(c)
    ensures FromSeconds(ToSeconds(c)) == c
  {
    var tod := c.hour * 3600 + c.minute * 60 + c.second;
    TimeOfDayFromParts(c.hour, c.minute, c.second);
    DivModDay(DaysFromCivil(c.DateOf()), tod);
    CivilFromDaysFromCivil(c.DateOf());
    assert FromSeconds(ToSeconds(c)) == AtTimeOfDay(c.DateOf(), tod);
  }

  /** Moving an instant by whole days keeps the time of day and moves the date by that many days. */
  lemma {:induction false} ShiftByDays(s: int, n: int, s': int)
    requires s' == s + n * 86400
    ensures var a, b := FromSeconds(s), FromSeconds(s');
      && b.hour == a.hour && b.minute == a.minute && b.second == a.second
      && DaysFromCivil(b.DateOf()) == DaysFromCivil(a.DateOf()) + n
  {
    var t := s % 86400;
    assert s' / 86400 == s / 86400 + n && s' % 86400 == t by {
      DivModDay(s / 86400 + n, t);
    }
    DayNumberOf(s, s / 86400, t);
    DayNumberOf(s', s / 86400 + n, t);
  }

  /** The day number of an instant is its number of whole days; its clock reads the seconds since midnight. */
  lemma {:induction false} DayNumberOf(s: int, q: int, t: int)
    requires q == s / 86400 && t == s % 86400
    ensures var c := FromSeconds(s);
      && DaysFromCivil(c.DateOf()) == q
      && c.hour == t / 3600 && c.minute == t % 3600 / 60 && c.second == t % 60
  {
    assert FromSeconds(s).DateOf() == CivilFromDays(q);
    DaysFromCivilFromDays(q);
  }

  /** Moves civil fields by `n` months; the day is clamped to the length of the new month. */
  function AdvanceMonths(c: Civil, n: int): (r: Civil)
    requires ValidCivil(c)
    ensures ValidCivil(r)
    ensures r.year * 12 + r.month == c.year * 12 + c.month + n
    ensures r.day == if c.day <= DaysInMonth(r.year, r.month) then c.day else DaysInMonth(r.year, r.month)
    ensures r.hour == c.hour && r.minute == c.minute && r.second == c.second
  {
    var total := c.year * 12 + (c.month - 1) + n;
    var y, m := total / 12, total % 12 + 1;
    var last := DaysInMonth(y, m);
    Civil(y, m, if c.day <= last then c.day else last, c.hour, c.minute, c.second)
  }
}
