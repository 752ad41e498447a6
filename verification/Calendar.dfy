/**
 Proleptic Gregorian calendar arithmetic of the managed-Tor metadata writer
 (`civil_from_days` and `format_utc_timestamp`).

 The independent reference is the calendar itself: month lengths with the
 leap-century rule and the successor of a date.
 */
module Calendar {
  import opened Bytes
  import opened Decimals
  import opened Arithmetic

  datatype Date = Date(year: int, month: int, day: int)

  // ---------------------------------------------------------------------
  // The reference calendar
  // ---------------------------------------------------------------------

  predicate Leap(year: int) {
    year % 4 == 0 && (year % 100 != 0 || year % 400 == 0)
  }

  function DaysInMonth(year: int, month: int): int {
    if month == 2 then (if Leap(year) then 29 else 28)
    else if month == 4 || month == 6 || month == 9 || month == 11 then 30
    else 31
  }

  predicate ValidDate(d: Date) {
    1 <= d.month <= 12 && 1 <= d.day <= DaysInMonth(d.year, d.month)
  }

  /** The calendar day after `d`. */
  function NextDate(d: Date): Date {
    if d.day < DaysInMonth(d.year, d.month) then d.(day := d.day + 1)
    else if d.month < 12 then Date(d.year, d.month + 1, 1)
    else Date(d.year + 1, 1, 1)
  }

  // ---------------------------------------------------------------------
  // The code's arithmetic
  // ---------------------------------------------------------------------

  /** Rust's `/` on signed integers: truncation toward zero. */
  function TruncDiv(a: int, b: int): int
    requires b > 0
  {
    if a >= 0 then a / b else -((-a) / b)
  }

  function EraOf(z: int): int {
    TruncDiv(if z >= 0 then z else z - 146_096, 146_097)
  }

  function YearOfEra(dayOfEra: int): int {
    (dayOfEra - dayOfEra / 1_460 + dayOfEra / 36_524 - dayOfEra / 146_096) / 365
  }

  /** Day number, counted from 1 March of year 0 of the era, of the first day of year `y`. */
  function YearStart(y: int): int {
    365 * y + y / 4 - y / 100
  }

  /** Month of a year that starts on 1 March, counted from 0. */
  function MarchMonth(dayOfYear: int): int {
    (5 * dayOfYear + 2) / 153
  }

  function MarchMonthStart(mp: int): int {
    (153 * mp + 2) / 5
  }

  /** The date `doy` days after 1 March of year `march`. */
  function CivilAt(march: int, doy: int): Date {
    var mp := MarchMonth(doy);
    var month := if mp < 10 then mp + 3 else mp - 9;
    Date(if month <= 2 then march + 1 else march, month, doy - MarchMonthStart(mp) + 1)
  }

  function CivilFromDays(days: int): Date {
    var z := days + 719_468;
    var era := EraOf(z);
    var dayOfEra := z - era * 146_097;
    var yearOfEra := YearOfEra(dayOfEra);
    var year := yearOfEra + era * 400;
    var dayOfYear := dayOfEra - YearStart(yearOfEra);
    CivilAt(year, dayOfYear)
  }

  lemma EraIsFloor(z: int)
    ensures 0 <= z - EraOf(z) * 146_097 < 146_097
  {
  }

  /** Length of year `y` of an era; the years of an era start on 1 March. */
  function EraYearLength(y: int): int {
    if (y % 4 == 3 && y % 100 != 99) || y == 399 then 366 else 365
  }

  lemma YearStartSplit(c: int, q: int, r: int)
    requires 0 <= c < 4 && 0 <= q < 25 && 0 <= r < 4
    ensures var y := 100 * c + 4 * q + r;
            && YearStart(y) == 36_524 * c + 1_461 * q + 365 * r
            && EraYearLength(y) == if r == 3 && (q < 24 || c == 3) then 366 else 365
  {
    var y := 100 * c + 4 * q + r;
    DivIs(y, 4, 25 * c + q);
    DivIs(y, 100, c);
  }

  /** The correction terms of the closed form, for day `doy` of year `100c + 4q + r` of an era. */
  lemma Corrections(c: int, q: int, r: int, doy: int)
    requires 0 <= c < 4 && 0 <= q < 25 && 0 <= r < 4
    requires 0 <= doy < if r == 3 && (q < 24 || c == 3) then 366 else 365
    ensures var doe := 36_524 * c + 1_461 * q + 365 * r + doy;
            var last := if doe == 146_096 then 1 else 0;
            && doe / 1_460 == 25 * c + q + (if 24 * c + q + 365 * r + doy >= 1_460 then 1 else 0)
            && doe / 36_524 == c + last && doe / 146_096 == last
  {
    var doe := 36_524 * c + 1_461 * q + 365 * r + doy;
    var e := if 24 * c + q + 365 * r + doy >= 1_460 then 1 else 0;
    var last := if doe == 146_096 then 1 else 0;
    DivIs(doe, 1_460, 25 * c + q + e);
    DivIs(doe, 36_524, c + last);
    DivIs(doe, 146_096, last);
  }

  lemma ClosedForm(c: int, q: int, r: int, doy: int)
    requires 0 <= c < 4 && 0 <= q < 25 && 0 <= r < 4
    requires 0 <= doy < if r == 3 && (q < 24 || c == 3) then 366 else 365
    ensures YearOfEra(36_524 * c + 1_461 * q + 365 * r + doy) == 100 * c + 4 * q + r
  {
    Corrections(c, q, r, doy);
    var y := 100 * c + 4 * q + r;
    var e := if 24 * c + q + 365 * r + doy >= 1_460 then 1 else 0;
    DivIs(365 * y + doy - e, 365, y);
  }

  lemma SplitYear(y: int) returns (c: int, q: int, r: int)
    requires 0 <= y < 400
    ensures 0 <= c < 4 && 0 <= q < 25 && 0 <= r < 4 && y == 100 * c + 4 * q + r
  {
    c := y / 100;
    q := (y - 100 * c) / 4;
    r := y - 100 * c - 4 * q;
  }

  /** The closed-form year is right on every day of every year of the era. */
  lemma YearOfEraIs(y: int, doy: int)
    requires 0 <= y < 400 && 0 <= doy < EraYearLength(y)
    ensures YearOfEra(YearStart(y) + doy) == y
  {
    hide YearOfEra, YearStart, EraYearLength;
    var c, q, r := SplitYear(y);
    YearStartSplit(c, q, r);
    ClosedForm(c, q, r, doy);
  }

  lemma MarchMonthIs(dayOfYear: int)
    requires 0 <= dayOfYear < 366
    ensures 0 <= MarchMonth(dayOfYear) < 12
    ensures MarchMonthStart(MarchMonth(dayOfYear)) <= dayOfYear < MarchMonthStart(MarchMonth(dayOfYear) + 1)
  {
  }

  /** Every day of an era lies in exactly one of its years. */
  lemma LocateYear(doe: int) returns (y: int, doy: int)
    requires 0 <= doe < 146_097
    ensures 0 <= y < 400 && 0 <= doy < EraYearLength(y)
    ensures doe == YearStart(y) + doy
  {
    var c := if doe == 146_096 then 3 else doe / 36_524;
    var inCentury := doe - 36_524 * c;
    var q := inCentury / 1_461;
    var inFour := inCentury - 1_461 * q;
    var r := if inFour == 1_460 then 3 else inFour / 365;
    y, doy := 100 * c + 4 * q + r, inFour - 365 * r;
    YearStartSplit(c, q, r);
  }

  // ---------------------------------------------------------------------
  // Day numbers of the reference calendar
  // ---------------------------------------------------------------------

  /** Days from 1 January of year 1 to 1 January of `year`. */
  function DaysBeforeYear(year: int): int {
    var y := year - 1;
    365 * y + y / 4 - y / 100 + y / 400
  }

  function DaysBeforeMonth(year: int, month: int): int
    requires 1 <= month <= 12
  {
    if month == 1 then 0 else DaysBeforeMonth(year, month - 1) + DaysInMonth(year, month - 1)
  }

  /** Days since 1970-01-01. */
  function DaysFromCivil(d: Date): int
    requires ValidDate(d)
  {
    DaysBeforeYear(d.year) + DaysBeforeMonth(d.year, d.month) + d.day - 1 - 719_162
  }

  lemma YearLength(year: int)
    ensures DaysBeforeYear(year + 1) - DaysBeforeYear(year) == if Leap(year) then 366 else 365
  {
    FloorStep(year, 4);
    FloorStep(year, 100);
    FloorStep(year, 400);
    assert Leap(year) <==> (year % 4 == 0 && (year % 100 != 0 || year % 400 == 0));
    assert year % 100 == 0 ==> year % 4 == 0;
    assert year % 400 == 0 ==> year % 100 == 0;
  }

  lemma FloorStep(n: int, d: int)
    requires d > 1
    ensures n / d == (n - 1) / d + if n % d == 0 then 1 else 0
  {
    var q, r := n / d, n % d;
    assert n == q * d + r;
    if r == 0 {
      assert n - 1 == (q - 1) * d + (d - 1);
      DivIs(n - 1, d, q - 1);
    } else {
      DivIs(n - 1, d, q);
    }
  }

  lemma MonthTable(year: int)
    ensures var l := if Leap(year) then 1 else 0;
            && DaysBeforeMonth(year, 2) == 31
            && DaysBeforeMonth(year, 3) == 59 + l && DaysBeforeMonth(year, 4) == 90 + l
            && DaysBeforeMonth(year, 5) == 120 + l && DaysBeforeMonth(year, 6) == 151 + l
            && DaysBeforeMonth(year, 7) == 181 + l && DaysBeforeMonth(year, 8) == 212 + l
            && DaysBeforeMonth(year, 9) == 243 + l && DaysBeforeMonth(year, 10) == 273 + l
            && DaysBeforeMonth(year, 11) == 304 + l && DaysBeforeMonth(year, 12) == 334 + l
  {
    assert DaysBeforeMonth(year, 3) == DaysBeforeMonth(year, 2) + DaysInMonth(year, 2);
    assert DaysBeforeMonth(year, 5) == DaysBeforeMonth(year, 4) + 30;
    assert DaysBeforeMonth(year, 7) == DaysBeforeMonth(year, 6) + 30;
    assert DaysBeforeMonth(year, 9) == DaysBeforeMonth(year, 8) + 31;
    assert DaysBeforeMonth(year, 11) == DaysBeforeMonth(year, 10) + 31;
  }

  /** The code's era arithmetic counts days from 1 March of year 0. */
  lemma MarchStart(era: int, y: int)
    requires 0 <= y < 400
    ensures DaysBeforeYear(era * 400 + y + 1) == era * 146_097 + YearStart(y)
    ensures Leap(era * 400 + y + 1) <==> EraYearLength(y) == 366
  {
    var m := era * 400 + y;
    DivIs(m, 4, 100 * era + y / 4);
    DivIs(m, 100, 4 * era + y / 100);
    DivIs(m, 400, era);
    MarchLeap(era, y);
    hide Leap, EraYearLength;
  }

  lemma MarchLeap(era: int, y: int)
    requires 0 <= y < 400
    ensures Leap(era * 400 + y + 1) <==> EraYearLength(y) == 366
  {
    SameRemainder(100 * era, y + 1, 4);
    SameRemainder(4 * era, y + 1, 100);
    SameRemainder(era, y + 1, 400);
  }

  lemma MarchTable()
    ensures MarchMonthStart(0) == 0 && MarchMonthStart(1) == 31 && MarchMonthStart(2) == 61 && MarchMonthStart(3) == 92
    ensures MarchMonthStart(4) == 122 && MarchMonthStart(5) == 153 && MarchMonthStart(6) == 184 && MarchMonthStart(7) == 214
    ensures MarchMonthStart(8) == 245 && MarchMonthStart(9) == 275 && MarchMonthStart(10) == 306 && MarchMonthStart(11) == 337
    ensures MarchMonthStart(12) == 367
  {
  }

  /** March to December. */
  lemma CivilBeforeJanuary(march: int, doy: int)
    requires 0 <= doy < 306
    ensures ValidDate(CivilAt(march, doy)) && CivilAt(march, doy).year == march
    ensures DaysFromCivil(CivilAt(march, doy)) == DaysBeforeYear(march) + (if Leap(march) then 60 else 59) + doy - 719_162
  {
    MarchMonthIs(doy);
    MonthTable(march);
    MarchTable();
    hide MarchMonth, MarchMonthStart, DaysBeforeYear, Leap, DaysBeforeMonth;
  }

  /** January and February of the next year. */
  lemma CivilFromJanuary(march: int, doy: int)
    requires 306 <= doy < if Leap(march + 1) then 366 else 365
    ensures ValidDate(CivilAt(march, doy))
    ensures DaysFromCivil(CivilAt(march, doy)) == DaysBeforeYear(march + 1) + doy - 306 - 719_162
  {
    MarchMonthIs(doy);
    MonthTable(march + 1);
    MarchTable();
    hide MarchMonth, MarchMonthStart, DaysBeforeYear, Leap;
  }

  lemma CivilAtDay(march: int, doy: int)
    requires 0 <= doy < if Leap(march + 1) then 366 else 365
    ensures ValidDate(CivilAt(march, doy))
    ensures DaysFromCivil(CivilAt(march, doy)) == DaysBeforeYear(march + 1) + doy - 719_468
  {
    hide CivilAt, ValidDate, DaysFromCivil, Leap, DaysBeforeYear;
    if doy < 306 {
      CivilBeforeJanuary(march, doy);
      YearLength(march);
    } else {
      CivilFromJanuary(march, doy);
    }
  }

  lemma LocateDay(days: int) returns (march: int, doy: int)
    ensures CivilFromDays(days) == CivilAt(march, doy)
    ensures 0 <= doy < if Leap(march + 1) then 366 else 365
    ensures DaysBeforeYear(march + 1) + doy == days + 719_468
  {
    hide YearOfEra, EraOf, YearStart, EraYearLength, CivilAt, Leap, DaysBeforeYear;
    var z := days + 719_468;
    EraIsFloor(z);
    var era, y := EraOf(z), 0;
    y, doy := LocateYear(z - era * 146_097);
    YearOfEraIs(y, doy);
    march := era * 400 + y;
    MarchStart(era, y);
    EraYearLengths(y);
  }

  lemma EraYearLengths(y: int)
    ensures EraYearLength(y) == 365 || EraYearLength(y) == 366
  {
  }

  /** `civil_from_days` inverts `days_from_civil` and yields a valid date, for every day number. */
  lemma CivilOfDay(days: int)
    ensures ValidDate(CivilFromDays(days))
    ensures DaysFromCivil(CivilFromDays(days)) == days
  {
    hide CivilFromDays, CivilAt, ValidDate, DaysFromCivil, Leap, DaysBeforeYear;
    var march, doy := LocateDay(days);
    CivilAtDay(march, doy);
  }

  lemma {:induction false} YearsMonotone(a: int, b: int)
    requires a < b
    ensures DaysBeforeYear(a) + (if Leap(a) then 366 else 365) <= DaysBeforeYear(b)
    decreases b - a
  {
    YearLength(a);
    if a + 1 < b {
      YearsMonotone(a + 1, b);
    }
  }

  predicate Earlier(a: Date, b: Date) {
    || a.year < b.year
    || (a.year == b.year && a.month < b.month)
    || (a.year == b.year && a.month == b.month && a.day < b.day)
  }

  /** Day of the year, counted from 1. */
  function DayOfYear(d: Date): int
    requires 1 <= d.month <= 12
  {
    DaysBeforeMonth(d.year, d.month) + d.day
  }

  lemma DayOfYearRange(d: Date)
    requires ValidDate(d)
    ensures 1 <= DayOfYear(d) <= if Leap(d.year) then 366 else 365
  {
    MonthTable(d.year);
    hide Leap;
  }

  lemma EarlierInYear(a: Date, b: Date)
    requires ValidDate(a) && ValidDate(b) && a.year == b.year
    requires a.month < b.month
    ensures DayOfYear(a) < DayOfYear(b)
  {
    MonthTable(a.year);
    hide Leap;
  }

  lemma EarlierIsFewerDays(a: Date, b: Date)
    requires ValidDate(a) && ValidDate(b)
    ensures Earlier(a, b) <==> DaysFromCivil(a) < DaysFromCivil(b)
    ensures a == b <==> DaysFromCivil(a) == DaysFromCivil(b)
  {
    DayOfYearRange(a);
    DayOfYearRange(b);
    hide Leap, DaysBeforeMonth, DaysBeforeYear;
    if a.year < b.year {
      YearsMonotone(a.year, b.year);
    } else if b.year < a.year {
      YearsMonotone(b.year, a.year);
    } else if a.month < b.month {
      EarlierInYear(a, b);
    } else if b.month < a.month {
      EarlierInYear(b, a);
    }
  }

  /** Two-sided inverse: every valid date comes back from its own day number. */
  lemma DayOfCivil(d: Date)
    requires ValidDate(d)
    ensures CivilFromDays(DaysFromCivil(d)) == d
  {
    hide CivilFromDays, DaysFromCivil, ValidDate, Earlier;
    var n := DaysFromCivil(d);
    CivilOfDay(n);
    EarlierIsFewerDays(CivilFromDays(n), d);
  }

  lemma NextDateIsNextDay(d: Date)
    requires ValidDate(d)
    ensures ValidDate(NextDate(d))
    ensures DaysFromCivil(NextDate(d)) == DaysFromCivil(d) + 1
  {
    YearLength(d.year);
    MonthTable(d.year);
  }

  /** Consecutive day numbers are consecutive calendar dates, leap-century rules included. */
  lemma CivilSuccessor(days: int)
    ensures CivilFromDays(days + 1) == NextDate(CivilFromDays(days))
  {
    hide CivilFromDays, NextDate, DaysFromCivil, ValidDate;
    CivilOfDay(days);
    var d := CivilFromDays(days);
    NextDateIsNextDay(d);
    DayOfCivil(NextDate(d));
  }

  /** Day 0 is the Unix epoch. */
  lemma EpochDay()
    ensures CivilFromDays(0) == Date(1970, 1, 1)
  {
    MonthTable(1970);
    DayOfCivil(Date(1970, 1, 1));
  }

  // ---------------------------------------------------------------------
  // Formatted timestamps
  // ---------------------------------------------------------------------

  /** Whole seconds since the epoch; a time before the epoch counts as 0. */
  function SecondsOf(nanos: int): nat {
    if nanos < 0 then 0 else nanos / 1_000_000_000
  }

  /** `YYYY-MM-DDTHH:MM:SSZ`, of a time given in nanoseconds since the epoch. */
  function FormatUtcTimestamp(nanos: int): bytes {
    FormatSeconds(SecondsOf(nanos))
  }

  /** One zero-padded number and the separator after it. */
  function Field(n: nat, w: nat, separator: byte): bytes {
    Padded(n, w) + [separator]
  }

  function FormatSeconds(seconds: nat): bytes {
    YearOfSeconds(seconds);
    var d := CivilFromDays(seconds / 86_400);
    FormatDate(d, FormatTime(seconds % 86_400))
  }

  function FormatDate(d: Date, time: bytes): bytes
    requires ValidDate(d) && d.year >= 0
  {
    Field(d.year, 4, 45) + (Field(d.month, 2, 45) + (Field(d.day, 2, 84) + time))
  }

  function FormatTime(s: nat): bytes {
    Field(s / 3_600, 2, 58) + (Field(s % 3_600 / 60, 2, 58) + Field(s % 60, 2, 90))
  }

  /** First second of year 10000. */
  const YEAR_10000 := 253_402_300_800

  lemma YearOfSeconds(seconds: nat)
    ensures ValidDate(CivilFromDays(seconds / 86_400))
    ensures CivilFromDays(seconds / 86_400).year >= 1970
    ensures CivilFromDays(seconds / 86_400).year <= 9999 <==> seconds < YEAR_10000
  {
    var n := seconds / 86_400;
    CivilOfDay(n);
    var d := CivilFromDays(n);
    MonthTable(1970);
    MonthTable(10000);
    EarlierIsFewerDays(d, Date(1970, 1, 1));
    EarlierIsFewerDays(d, Date(10000, 1, 1));
    assert DaysFromCivil(Date(1970, 1, 1)) == 0;
    assert DaysFromCivil(Date(10000, 1, 1)) == 2_932_897;
  }

  lemma FieldOrder(m: nat, n: nat, w: nat, separator: byte, x: bytes, y: bytes)
    requires m < Pow10(w) && n < Pow10(w) && w > 0
    ensures |Field(m, w, separator)| == |Field(n, w, separator)| == w + 1
    ensures LexLess(Field(m, w, separator) + x, Field(n, w, separator) + y)
            <==> m < n || (m == n && LexLess(x, y))
  {
    PaddedIsFixed(m, w);
    PaddedIsFixed(n, w);
    FixedOrder(m, n, w);
    LexConcat(Padded(m, w), Padded(n, w), [separator], [separator]);
    LexConcat(Field(m, w, separator), Field(n, w, separator), x, y);
    LexIrreflexive([separator]);
    assert Field(m, w, separator)[..w] == Padded(m, w) && Field(n, w, separator)[..w] == Padded(n, w);
  }

  lemma TimeOrder(s: nat, t: nat)
    requires s < 86_400 && t < 86_400
    ensures LexLess(FormatTime(s), FormatTime(t)) <==> s < t
  {
    assert Pow10(2) == 100;
    var seconds, seconds' := Field(s % 60, 2, 90), Field(t % 60, 2, 90);
    FieldOrder(s % 60, t % 60, 2, 90, [], []);
    assert seconds + [] == seconds && seconds' + [] == seconds';
    FieldOrder(s % 3_600 / 60, t % 3_600 / 60, 2, 58, seconds, seconds');
    FieldOrder(s / 3_600, t / 3_600, 2, 58,
               Field(s % 3_600 / 60, 2, 58) + seconds, Field(t % 3_600 / 60, 2, 58) + seconds');
    SplitTime(s);
    SplitTime(t);
  }

  lemma SplitTime(s: nat)
    ensures s == 3_600 * (s / 3_600) + 60 * (s % 3_600 / 60) + s % 60
    ensures s % 3_600 / 60 < 60 && s % 60 < 60
  {
    assert s % 3_600 % 60 == s % 60;
  }

  lemma DateOrder(a: Date, b: Date, x: bytes, y: bytes)
    requires ValidDate(a) && ValidDate(b) && 0 <= a.year <= 9999 && 0 <= b.year <= 9999
    ensures LexLess(FormatDate(a, x), FormatDate(b, y)) <==> Earlier(a, b) || (a == b && LexLess(x, y))
  {
    assert Pow10(2) == 100 && Pow10(4) == 10_000;
    FieldOrder(a.day, b.day, 2, 84, x, y);
    FieldOrder(a.month, b.month, 2, 45, Field(a.day, 2, 84) + x, Field(b.day, 2, 84) + y);
    FieldOrder(a.year, b.year, 4, 45,
               Field(a.month, 2, 45) + (Field(a.day, 2, 84) + x), Field(b.month, 2, 45) + (Field(b.day, 2, 84) + y));
  }

  /** Until the end of year 9999 the texts sort exactly as the times do. */
  lemma TimestampOrder(s: nat, t: nat)
    requires s < YEAR_10000 && t < YEAR_10000
    ensures LexLess(FormatSeconds(s), FormatSeconds(t)) <==> s < t
  {
    hide CivilFromDays, ValidDate, DaysFromCivil, FormatDate, FormatTime, Earlier;
    YearOfSeconds(s);
    YearOfSeconds(t);
    var a, b := CivilFromDays(s / 86_400), CivilFromDays(t / 86_400);
    DateOrder(a, b, FormatTime(s % 86_400), FormatTime(t % 86_400));
    TimeOrder(s % 86_400, t % 86_400);
    CivilOfDay(s / 86_400);
    CivilOfDay(t / 86_400);
    EarlierIsFewerDays(a, b);
  }

  /** The formatter itself: whole seconds order its texts, and times before the epoch count as the epoch. */
  lemma UtcTimestampOrder(a: int, b: int)
    requires a < YEAR_10000 * 1_000_000_000 && b < YEAR_10000 * 1_000_000_000
    ensures LexLess(FormatUtcTimestamp(a), FormatUtcTimestamp(b)) <==> SecondsOf(a) < SecondsOf(b)
    ensures a <= b ==> !LexLess(FormatUtcTimestamp(b), FormatUtcTimestamp(a))
  {
    hide FormatSeconds, LexLess;
    TimestampOrder(SecondsOf(a), SecondsOf(b));
    TimestampOrder(SecondsOf(b), SecondsOf(a));
  }

  /** What one field reads, and where its separator stands. */
  lemma FieldReads(n: nat, w: nat, separator: byte)
    requires n < Pow10(w) && w > 0
    ensures var f := Field(n, w, separator);
            |f| == w + 1 && f[w] == separator && AllDigits(f[..w]) && DigitsValue(f[..w]) == n
  {
    hide Padded;
    PaddedIsFixed(n, w);
    FixedValue(n, w);
    assert Field(n, w, separator)[..w] == Padded(n, w);
  }

  /** The text of a time of day, read back. */
  lemma TimeReads(s: nat)
    requires s < 86_400
    ensures var t := FormatTime(s);
            && |t| == 9 && t[2] == 58 && t[5] == 58 && t[8] == 90
            && AllDigits(t[..2]) && AllDigits(t[3..5]) && AllDigits(t[6..8])
            && DigitsValue(t[3..5]) < 60 && DigitsValue(t[6..8]) < 60
            && 3_600 * DigitsValue(t[..2]) + 60 * DigitsValue(t[3..5]) + DigitsValue(t[6..8]) == s
  {
    hide Field, DigitsValue;
    assert Pow10(2) == 100;
    SplitTime(s);
    var h, m, z := Field(s / 3_600, 2, 58), Field(s % 3_600 / 60, 2, 58), Field(s % 60, 2, 90);
    FieldReads(s / 3_600, 2, 58);
    FieldReads(s % 3_600 / 60, 2, 58);
    FieldReads(s % 60, 2, 90);
    var t := FormatTime(s);
    assert t == h + (m + z);
    assert t[..2] == h[..2] && t[3..5] == m[..2] && t[6..8] == z[..2];
  }

  lemma SmallFields(d: Date)
    requires ValidDate(d)
    ensures 1 <= d.month <= 12 && 1 <= d.day <= 31
  {
  }

  /** The text of a date, read back. */
  lemma DateReads(d: Date, time: bytes)
    requires ValidDate(d) && 0 <= d.year <= 9999
    ensures var t := FormatDate(d, time);
            && |t| == 11 + |time| && t[11..] == time && t[4] == 45 && t[7] == 45 && t[10] == 84
            && AllDigits(t[..4]) && AllDigits(t[5..7]) && AllDigits(t[8..10])
            && d == Date(DigitsValue(t[..4]), DigitsValue(t[5..7]), DigitsValue(t[8..10]))
  {
    hide Field, DigitsValue, ValidDate;
    SmallFields(d);
    assert Pow10(2) == 100 && Pow10(4) == 10_000;
    var y, m, z := Field(d.year, 4, 45), Field(d.month, 2, 45), Field(d.day, 2, 84);
    FieldReads(d.year, 4, 45);
    FieldReads(d.month, 2, 45);
    FieldReads(d.day, 2, 84);
    var t := FormatDate(d, time);
    assert t == y + (m + (z + time));
    assert t[..4] == y[..4] && t[5..7] == m[..2] && t[8..10] == z[..2] && t[11..] == time;
  }

  /** `t` is a valid date and time of day, spelled `YYYY-MM-DDTHH:MM:SSZ`. */
  ghost predicate Timestamp(t: bytes) {
    && |t| == 20
    && t[4] == '-' as byte && t[7] == '-' as byte && t[10] == 'T' as byte
    && t[13] == ':' as byte && t[16] == ':' as byte && t[19] == 'Z' as byte
    && AllDigits(t[0..4]) && AllDigits(t[5..7]) && AllDigits(t[8..10])
    && AllDigits(t[11..13]) && AllDigits(t[14..16]) && AllDigits(t[17..19])
    && ValidDate(DateIn(t))
    && DigitsValue(t[11..13]) < 24 && DigitsValue(t[14..16]) < 60 && DigitsValue(t[17..19]) < 60
  }

  ghost function DateIn(t: bytes): Date
    requires |t| == 20 && AllDigits(t[0..4]) && AllDigits(t[5..7]) && AllDigits(t[8..10])
  {
    Date(DigitsValue(t[0..4]), DigitsValue(t[5..7]), DigitsValue(t[8..10]))
  }

  /** The seconds since the epoch that a timestamp denotes. */
  ghost function SecondsIn(t: bytes): int
    requires Timestamp(t)
  {
    86_400 * DaysFromCivil(DateIn(t)) + 3_600 * DigitsValue(t[11..13]) + 60 * DigitsValue(t[14..16]) + DigitsValue(t[17..19])
  }

  /** Every text before year 10000 is a timestamp and denotes exactly its second. */
  lemma TimestampReads(seconds: nat)
    requires seconds < 253_402_300_800
    ensures Timestamp(FormatSeconds(seconds)) && SecondsIn(FormatSeconds(seconds)) == seconds
  {
    hide CivilFromDays, ValidDate, DaysFromCivil, FormatDate, FormatTime, DigitsValue;
    YearOfSeconds(seconds);
    CivilOfDay(seconds / 86_400);
    var d, time := CivilFromDays(seconds / 86_400), FormatTime(seconds % 86_400);
    TimeReads(seconds % 86_400);
    DateReads(d, time);
    var t := FormatSeconds(seconds);
    assert t == FormatDate(d, time);
    assert t[11..13] == t[11..][..2] && t[14..16] == t[11..][3..5] && t[17..19] == t[11..][6..8];
    assert t[13] == t[11..][2] && t[16] == t[11..][5] && t[19] == t[11..][8];
    assert t[0..4] == t[..4];
  }

  /** The formatter itself: the text denotes the second its time falls in, and the epoch before the epoch. */
  lemma UtcTimestampReads(nanos: int)
    requires nanos < 253_402_300_800_000_000_000
    ensures var t := FormatUtcTimestamp(nanos);
            && Timestamp(t)
            && (nanos < 0 ==> SecondsIn(t) == 0)
            && (nanos >= 0 ==> 1_000_000_000 * SecondsIn(t) <= nanos < 1_000_000_000 * (SecondsIn(t) + 1))
  {
    hide FormatSeconds, Timestamp, SecondsIn;
    TimestampReads(SecondsOf(nanos));
  }

  lemma YearTexts()
    ensures Padded(10_000, 4)[0] == 49 && Padded(9_999, 4)[0] == 57
  {
    assert Decimal(10) == [49, 48] && Decimal(99) == [57, 57];
    assert Decimal(100) == Decimal(10) + [48] && Decimal(999) == Decimal(99) + [57];
    assert Decimal(1_000) == Decimal(100) + [48] && Decimal(9_999) == Decimal(999) + [57];
    assert Decimal(10_000) == Decimal(1_000) + [48];
  }

  lemma TextStartsWithYear(d: Date, s: nat)
    requires ValidDate(d) && d.year >= 1970 && s / 86_400 == DaysFromCivil(d)
    ensures FormatSeconds(s) != [] && FormatSeconds(s)[0] == Padded(d.year, 4)[0]
  {
    DayOfCivil(d);
  }

  /** The first text of year 10000 sorts before the last one of year 9999. */
  lemma OrderBreaksAtYear10000()
    ensures LexLess(FormatSeconds(YEAR_10000), FormatSeconds(YEAR_10000 - 1))
  {
    MonthTable(10_000);
    MonthTable(9_999);
    hide FormatSeconds, Padded;
    YearTexts();
    TextStartsWithYear(Date(10_000, 1, 1), YEAR_10000);
    TextStartsWithYear(Date(9_999, 12, 31), YEAR_10000 - 1);
  }

  ghost predicate SortsAsTimes(limit: nat) {
    forall s: nat, t: nat :: s < limit && t < limit ==>
      (LexLess(FormatSeconds(s), FormatSeconds(t)) <==> s < t)
  }

  /** The exact bound: timestamps below `limit` sort as their times iff `limit` stops at year 10000. */
  lemma TimestampOrderLimit(limit: nat)
    ensures SortsAsTimes(limit) <==> limit <= YEAR_10000
  {
    if limit <= YEAR_10000 {
      forall s: nat, t: nat | s < limit && t < limit
        ensures LexLess(FormatSeconds(s), FormatSeconds(t)) <==> s < t
      {
        TimestampOrder(s, t);
      }
    } else {
      OrderBreaksAtYear10000();
    }
  }
}
