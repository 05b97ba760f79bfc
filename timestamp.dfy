/**
 * `parse_log_timestamp` of src/main.rs: splitting a log line into its
 * timestamp and the rest of its text.  The `%Y%m%d %H:%M:%S%.f` pattern is
 * modelled as fixed-width digit fields with calendar range checks, and the
 * parsed date-time as an integer number of nanoseconds.
 */
module LogTimestamp {

  import opened Wrappers
  import opened Text

  const NANOS_PER_SECOND: nat := 1_000_000_000
  const NANOS_PER_MINUTE: nat := 60 * NANOS_PER_SECOND
  const NANOS_PER_DAY: nat := 86_400 * NANOS_PER_SECOND

  /** A point in time: nanoseconds since 0000-01-01 00:00:00 of the proleptic Gregorian calendar. */
  type Instant = int

  /** The fields of a `NaiveDateTime`. */
  datatype DateTime = DateTime(year: nat, month: nat, day: nat, hour: nat, minute: nat, second: nat, nano: nat)

  /** A parsed log line: its timestamp and the text after the two timestamp tokens. */
  datatype Entry = Entry(at: Instant, message: string)

  // ----- decimal digits -----

  predicate IsDigit(c: char) {
    '0' <= c <= '9'
  }

  predicate AllDigits(s: string) {
    forall i :: 0 <= i < |s| ==> IsDigit(s[i])
  }

  function DigitValue(c: char): nat
    requires IsDigit(c)
  {
    c as int - '0' as int
  }

  function DigitChar(d: nat): char
    requires d < 10
  {
    ('0' as int + d) as char
  }

  /** The value of a string of decimal digits. */
  function Number(s: string): nat
    requires AllDigits(s)
  {
    if s == [] then 0 else Number(s[..|s| - 1]) * 10 + DigitValue(s[|s| - 1])
  }

  function Pow10(k: nat): nat {
    if k == 0 then 1 else 10 * Pow10(k - 1)
  }

  /** `n` written with exactly `width` decimal digits, zero-padded on the left. */
  function Digits(n: nat, width: nat): (s: string)
    ensures |s| == width && AllDigits(s)
  {
    if width == 0 then "" else Digits(n / 10, width - 1) + [DigitChar(n % 10)]
  }

  lemma {:induction false} NumberOfDigits(n: nat, width: nat)
    requires n < Pow10(width)
    ensures Number(Digits(n, width)) == n
  {
    if width > 0 {
      var s := Digits(n, width);
      assert s[..|s| - 1] == Digits(n / 10, width - 1);
      NumberOfDigits(n / 10, width - 1);
      assert DigitValue(DigitChar(n % 10)) == n % 10;
    }
  }

  /** Writing back the value of a digit string, at its own width, gives the string. */
  lemma {:induction false} DigitsOfNumber(s: string)
    requires AllDigits(s)
    ensures Digits(Number(s), |s|) == s
  {
    if s != [] {
      var init := s[..|s| - 1];
      DigitsOfNumber(init);
      var n := Number(s);
      assert n / 10 == Number(init) && n % 10 == DigitValue(s[|s| - 1]);
      assert DigitChar(n % 10) == s[|s| - 1];
      assert s == init + [s[|s| - 1]];
    }
  }

  // ----- the calendar -----

  predicate IsLeapYear(y: int) {
    y % 4 == 0 && (y % 100 != 0 || y % 400 == 0)
  }

  function DaysInYear(y: int): nat {
    if IsLeapYear(y) then 366 else 365
  }

  function DaysInMonth(y: int, m: nat): nat
    requires 1 <= m <= 12
  {
    if m == 2 then (if IsLeapYear(y) then 29 else 28)
    else if m == 4 || m == 6 || m == 9 || m == 11 then 30
    else 31
  }

  /** A date-time that exists in the calendar, with a four-digit year (leap seconds excluded). */
  predicate Valid(dt: DateTime) {
    dt.year <= 9999 && 1 <= dt.month <= 12 && 1 <= dt.day <= DaysInMonth(dt.year, dt.month)
    && dt.hour < 24 && dt.minute < 60 && dt.second < 60 && dt.nano < NANOS_PER_SECOND
  }

  /** The number of leap years among 0, 1, ..., y - 1. */
  function LeapYearsBefore(y: nat): int {
    (y + 3) / 4 - (y + 99) / 100 + (y + 399) / 400
  }

  function DaysBeforeYear(y: nat): int {
    365 * y + LeapYearsBefore(y)
  }

  function DaysBeforeMonth(y: int, m: nat): nat
    requires 1 <= m <= 13
  {
    if m == 1 then 0 else DaysBeforeMonth(y, m - 1) + DaysInMonth(y, m - 1)
  }

  /** Days from 0000-01-01 to the date of `dt`. */
  function DayNumber(dt: DateTime): int
    requires Valid(dt)
  {
    DaysBeforeYear(dt.year) + DaysBeforeMonth(dt.year, dt.month) + dt.day - 1
  }

  /** Nanoseconds from midnight to the time of `dt`. */
  function TimeOfDay(dt: DateTime): nat {
    ((dt.hour * 60 + dt.minute) * 60 + dt.second) * NANOS_PER_SECOND + dt.nano
  }

  /** The instant of `dt`: it falls within the day numbered `DayNumber(dt)`. */
  function ToInstant(dt: DateTime): (t: Instant)
    requires Valid(dt)
    ensures DayNumber(dt) * NANOS_PER_DAY <= t < (DayNumber(dt) + 1) * NANOS_PER_DAY
  {
    TimeOfDayBound(dt);
    DayNumber(dt) * NANOS_PER_DAY + TimeOfDay(dt)
  }

  /** The order of `NaiveDateTime`: field by field, from the year down to the nanosecond. */
  predicate Before(a: DateTime, b: DateTime) {
    a.year < b.year
    || (a.year == b.year && a.month < b.month)
    || (a.year == b.year && a.month == b.month && a.day < b.day)
    || (a.year == b.year && a.month == b.month && a.day == b.day && TimeBefore(a, b))
  }

  predicate TimeBefore(a: DateTime, b: DateTime) {
    a.hour < b.hour
    || (a.hour == b.hour && a.minute < b.minute)
    || (a.hour == b.hour && a.minute == b.minute && a.second < b.second)
    || (a.hour == b.hour && a.minute == b.minute && a.second == b.second && a.nano < b.nano)
  }

  lemma DaysBeforeNextYear(y: nat)
    ensures DaysBeforeYear(y + 1) == DaysBeforeYear(y) + DaysInYear(y)
  {
    NextMultipleOf4(y);
    NextMultipleOf100(y);
    NextMultipleOf400(y);
    LeapDivisors(y);
  }

  /** Going from `y` to `y + 1` passes one more multiple of 4, 100 or 400 exactly when it divides `y`. */
  lemma LeapDivisors(y: nat)
    ensures y % 400 == 0 ==> y % 100 == 0
    ensures y % 100 == 0 ==> y % 4 == 0
  {
    if y % 400 == 0 {
      assert y == 100 * (4 * (y / 400));
    }
    if y % 100 == 0 {
      assert y == 4 * (25 * (y / 100));
    }
  }

  lemma NextMultipleOf4(y: nat)
    ensures (y + 4) / 4 - (y + 3) / 4 == if y % 4 == 0 then 1 else 0
  {
  }

  lemma NextMultipleOf100(y: nat)
    ensures (y + 100) / 100 - (y + 99) / 100 == if y % 100 == 0 then 1 else 0
  {
  }

  lemma NextMultipleOf400(y: nat)
    ensures (y + 400) / 400 - (y + 399) / 400 == if y % 400 == 0 then 1 else 0
  {
  }

  lemma {:induction false} DaysBeforeYearGrows(y: nat, z: nat)
    requires y < z
    ensures DaysBeforeYear(y) + DaysInYear(y) <= DaysBeforeYear(z)
    decreases z - y
  {
    DaysBeforeNextYear(y);
    if y + 1 < z {
      DaysBeforeYearGrows(y + 1, z);
    }
  }

  lemma {:induction false} DaysBeforeMonthGrows(y: int, m: nat, n: nat)
    requires 1 <= m < n <= 13
    ensures DaysBeforeMonth(y, m) + DaysInMonth(y, m) <= DaysBeforeMonth(y, n)
    decreases n - m
  {
    if m + 1 < n {
      DaysBeforeMonthGrows(y, m + 1, n);
    }
  }

  lemma DaysInWholeYear(y: int)
    ensures DaysBeforeMonth(y, 13) == DaysInYear(y)
  {
    var feb := DaysInMonth(y, 2);
    assert DaysBeforeMonth(y, 2) == 31;
    assert DaysBeforeMonth(y, 3) == 31 + feb;
    assert DaysBeforeMonth(y, 4) == 62 + feb;
    assert DaysBeforeMonth(y, 5) == 92 + feb;
    assert DaysBeforeMonth(y, 6) == 123 + feb;
    assert DaysBeforeMonth(y, 7) == 153 + feb;
    assert DaysBeforeMonth(y, 8) == 184 + feb;
    assert DaysBeforeMonth(y, 9) == 215 + feb;
    assert DaysBeforeMonth(y, 10) == 245 + feb;
    assert DaysBeforeMonth(y, 11) == 276 + feb;
    assert DaysBeforeMonth(y, 12) == 306 + feb;
    assert DaysBeforeMonth(y, 13) == 337 + feb;
  }

  /** The day of a valid date lies inside its year. */
  lemma DayNumberInYear(dt: DateTime)
    requires Valid(dt)
    ensures DaysBeforeYear(dt.year) <= DayNumber(dt) < DaysBeforeYear(dt.year) + DaysInYear(dt.year)
  {
    DaysInWholeYear(dt.year);
    if dt.month < 12 {
      DaysBeforeMonthGrows(dt.year, dt.month, 13);
    }
  }

  lemma DayNumberOrder(a: DateTime, b: DateTime)
    requires Valid(a) && Valid(b)
    requires a.year < b.year || (a.year == b.year && a.month < b.month)
      || (a.year == b.year && a.month == b.month && a.day < b.day)
    ensures DayNumber(a) < DayNumber(b)
  {
    if a.year < b.year {
      DayNumberInYear(a);
      DayNumberInYear(b);
      DaysBeforeYearGrows(a.year, b.year);
    } else if a.month < b.month {
      DaysBeforeMonthGrows(a.year, a.month, b.month);
    }
  }

  lemma TimeOfDayOrder(a: DateTime, b: DateTime)
    requires Valid(a) && Valid(b) && TimeBefore(a, b)
    ensures TimeOfDay(a) < TimeOfDay(b)
  {
  }

  /** Shifting by whole days dominates the time of day. */
  lemma DaysDominate(x: int, y: int, p: nat, q: nat)
    requires x < y && p < NANOS_PER_DAY
    ensures x * NANOS_PER_DAY + p < y * NANOS_PER_DAY + q
  {
  }

  lemma TimeOfDayBound(dt: DateTime)
    requires Valid(dt)
    ensures TimeOfDay(dt) < NANOS_PER_DAY
  {
  }

  lemma InstantBefore(a: DateTime, b: DateTime)
    requires Valid(a) && Valid(b) && Before(a, b)
    ensures ToInstant(a) < ToInstant(b)
  {
    var da, db := DayNumber(a), DayNumber(b);
    assert ToInstant(a) == da * NANOS_PER_DAY + TimeOfDay(a);
    assert ToInstant(b) == db * NANOS_PER_DAY + TimeOfDay(b);
    if a.year == b.year && a.month == b.month && a.day == b.day {
      assert da == db;
      TimeOfDayOrder(a, b);
    } else {
      DayNumberOrder(a, b);
      TimeOfDayBound(a);
      DaysDominate(da, db, TimeOfDay(a), TimeOfDay(b));
    }
  }

  /** The same time on the following calendar day. */
  function NextDay(dt: DateTime): DateTime
    requires Valid(dt)
  {
    if dt.day < DaysInMonth(dt.year, dt.month) then dt.(day := dt.day + 1)
    else if dt.month < 12 then dt.(month := dt.month + 1, day := 1)
    else dt.(year := dt.year + 1, month := 1, day := 1)
  }

  /**
   * From one date to the next, across month and year ends, an instant moves
   * by exactly one day, so differences of instants are chrono's `Duration`s.
   */
  lemma NextDayInstant(dt: DateTime)
    requires Valid(dt) && !(dt.year == 9999 && dt.month == 12 && dt.day == 31)
    ensures Valid(NextDay(dt))
    ensures ToInstant(NextDay(dt)) == ToInstant(dt) + NANOS_PER_DAY
  {
    var nd := NextDay(dt);
    NextDayNumber(dt);
    assert TimeOfDay(nd) == TimeOfDay(dt);
    InstantShift(dt, nd);
  }

  /** A date-time one day number later at the same time of day is one day of nanoseconds later. */
  lemma InstantShift(a: DateTime, b: DateTime)
    requires Valid(a) && Valid(b) && DayNumber(b) == DayNumber(a) + 1 && TimeOfDay(b) == TimeOfDay(a)
    ensures ToInstant(b) == ToInstant(a) + NANOS_PER_DAY
  {
    var d, tod := DayNumber(a), TimeOfDay(a);
    assert ToInstant(a) == d * NANOS_PER_DAY + tod;
    assert ToInstant(b) == (d + 1) * NANOS_PER_DAY + tod;
    NextDayProduct(d);
  }

  lemma NextDayProduct(d: int)
    ensures (d + 1) * NANOS_PER_DAY == d * NANOS_PER_DAY + NANOS_PER_DAY
  {
    assert NANOS_PER_DAY == 86_400_000_000_000;
  }

  lemma NextDayNumber(dt: DateTime)
    requires Valid(dt) && !(dt.year == 9999 && dt.month == 12 && dt.day == 31)
    ensures Valid(NextDay(dt)) && DayNumber(NextDay(dt)) == DayNumber(dt) + 1
  {
    if dt.day < DaysInMonth(dt.year, dt.month) {
    } else if dt.month < 12 {
      assert DaysBeforeMonth(dt.year, dt.month + 1) == DaysBeforeMonth(dt.year, dt.month) + DaysInMonth(dt.year, dt.month);
    } else {
      NewYearNumber(dt.year);
    }
  }

  lemma NewYearNumber(y: nat)
    ensures DaysBeforeYear(y + 1) == DaysBeforeYear(y) + DaysBeforeMonth(y, 12) + 31
  {
    DaysInWholeYear(y);
    DaysBeforeNextYear(y);
    assert DaysBeforeMonth(y, 13) == DaysBeforeMonth(y, 12) + 31;
  }

  /** New Year's Eve to New Year's Day: 12:00 on 2019-12-31 and on 2020-01-01 are one day apart. */
  lemma YearEndInstant()
    ensures ToInstant(DateTime(2020, 1, 1, 12, 0, 0, 0)) - ToInstant(DateTime(2019, 12, 31, 12, 0, 0, 0)) == NANOS_PER_DAY
  {
    NextDayInstant(DateTime(2019, 12, 31, 12, 0, 0, 0));
  }

  /** On one date, instants differ by the difference of the times of day. */
  lemma SameDayDifference(a: DateTime, b: DateTime)
    requires Valid(a) && Valid(b) && a.year == b.year && a.month == b.month && a.day == b.day
    ensures ToInstant(b) - ToInstant(a) == TimeOfDay(b) - TimeOfDay(a)
  {
  }

  /**
   * Integer instants are ordered exactly as the date-times they stand for, so
   * `min` and `>=` on instants are `min` and `>=` on `NaiveDateTime`.
   */
  lemma InstantOrder(a: DateTime, b: DateTime)
    requires Valid(a) && Valid(b)
    ensures ToInstant(a) < ToInstant(b) <==> Before(a, b)
    ensures ToInstant(a) == ToInstant(b) <==> a == b
  {
    if Before(a, b) {
      InstantBefore(a, b);
    } else if Before(b, a) {
      InstantBefore(b, a);
    } else {
      assert a == b;
    }
  }

  // ----- the `%Y%m%d %H:%M:%S%.f` pattern -----

  /**
   * The `%.f` item: nothing, or a dot and at least one digit.  The first nine
   * digits give the nanoseconds and any further digits are skipped.
   */
  function Fraction(f: string): (r: Option<nat>)
    ensures r.Some? ==> r.value < NANOS_PER_SECOND
  {
    if f == "" then Some(0)
    else if f[0] == '.' && |f| >= 2 && AllDigits(f[1..]) then
      var ds := f[1..];
      var k := if |ds| < 9 then |ds| else 9;
      NumberBound(ds[..k]);
      ScaledBound(Number(ds[..k]), k);
      Some(Number(ds[..k]) * Pow10(9 - k))
    else None
  }

  lemma {:induction false} NumberBound(s: string)
    requires AllDigits(s)
    ensures Number(s) < Pow10(|s|)
  {
    if s != [] {
      NumberBound(s[..|s| - 1]);
    }
  }

  lemma {:induction false} Pow10Add(a: nat, b: nat)
    ensures Pow10(a + b) == Pow10(a) * Pow10(b)
  {
    if a > 0 {
      Pow10Add(a - 1, b);
      assert Pow10(a) * Pow10(b) == 10 * (Pow10(a - 1) * Pow10(b));
    }
  }

  /** A number of `k <= 9` digits, scaled to nine digits, stays below one second. */
  lemma ScaledBound(x: nat, k: nat)
    requires k <= 9 && x < Pow10(k)
    ensures x * Pow10(9 - k) < NANOS_PER_SECOND
  {
    Pow10Add(k, 9 - k);
    Pow10Positive(9 - k);
    MulLess(x, Pow10(k), Pow10(9 - k));
    assert Pow10(9) == NANOS_PER_SECOND;
  }

  lemma MulLess(x: nat, y: nat, c: nat)
    requires x < y && c > 0
    ensures x * c < y * c
  {
    assert y * c == x * c + (y - x) * c;
  }

  lemma {:induction false} Pow10Positive(k: nat)
    ensures Pow10(k) > 0
  {
    if k > 0 {
      Pow10Positive(k - 1);
    }
  }

  /** A dot and `k` digits, at most nine, are read as that number scaled to nine digits. */
  lemma FractionOfShortDigits(n: nat, k: nat)
    requires 1 <= k <= 9 && n < Pow10(k)
    ensures Fraction("." + Digits(n, k)) == Some(n * Pow10(9 - k))
  {
    var f := "." + Digits(n, k);
    assert f[1..] == Digits(n, k) && f[1..][..k] == f[1..];
    NumberOfDigits(n, k);
  }

  /** Digits beyond the ninth are skipped. */
  lemma FractionOfLongDigits(n: nat, extra: string)
    requires n < NANOS_PER_SECOND && AllDigits(extra)
    ensures Fraction("." + Digits(n, 9) + extra) == Some(n)
  {
    var f := "." + Digits(n, 9) + extra;
    var ds := f[1..];
    assert ds == Digits(n, 9) + extra;
    assert ds[..9] == Digits(n, 9);
    assert AllDigits(ds) by {
      assert forall i :: 0 <= i < |ds| ==> IsDigit(ds[i]) by {
        assert AllDigits(Digits(n, 9));
      }
    }
    assert Pow10(9) == NANOS_PER_SECOND;
    NumberOfDigits(n, 9);
  }

  /** The millisecond fraction Grin writes: `.927` is 927 000 000 nanoseconds. */
  lemma FractionOfMilliseconds()
    ensures Fraction(".927") == Some(927_000_000)
  {
    assert Digits(927, 3) == "927";
    assert Pow10(3) == 1000 && Pow10(6) == 1_000_000;
    FractionOfShortDigits(927, 3);
  }

  /** Without a fraction the nanoseconds are zero. */
  lemma FractionAbsent()
    ensures Fraction("") == Some(0)
  {
  }

  /** Parses a whole string against `%Y%m%d %H:%M:%S%.f`; the date-time must exist. */
  function ParseFields(ts: string): (r: Option<DateTime>)
    ensures r.Some? ==> Valid(r.value)
    ensures r.Some? ==> |ts| >= 17 && ts[8] == ' '
  {
    if |ts| < 17 || !AllDigits(ts[..8]) || ts[8] != ' ' || !AllDigits(ts[9..11]) || ts[11] != ':'
       || !AllDigits(ts[12..14]) || ts[14] != ':' || !AllDigits(ts[15..17]) then None
    else
      assert AllDigits(ts[..4]) && AllDigits(ts[4..6]) && AllDigits(ts[6..8]) by {
        assert forall i :: 0 <= i < 4 ==> ts[..4][i] == ts[..8][i];
        assert forall i :: 0 <= i < 2 ==> ts[4..6][i] == ts[..8][4 + i] && ts[6..8][i] == ts[..8][6 + i];
      }
      match Fraction(ts[17..])
      case None => None
      case Some(nano) =>
        var dt := DateTime(Number(ts[..4]), Number(ts[4..6]), Number(ts[6..8]),
                           Number(ts[9..11]), Number(ts[12..14]), Number(ts[15..17]), nano);
        if Valid(dt) then Some(dt) else None
  }

  /** The date token `YYYYMMDD` of a date-time. */
  function DateToken(dt: DateTime): string {
    Digits(dt.year, 4) + Digits(dt.month, 2) + Digits(dt.day, 2)
  }

  /** The time token `HH:MM:SS.fffffffff` of a date-time. */
  function TimeToken(dt: DateTime): string {
    Digits(dt.hour, 2) + ":" + Digits(dt.minute, 2) + ":" + Digits(dt.second, 2) + "." + Digits(dt.nano, 9)
  }

  /** Writes a date-time in the pattern, with all nine fraction digits. */
  function Format(dt: DateTime): string {
    DateToken(dt) + " " + TimeToken(dt)
  }

  /** A string of 17 or more characters cut at the field boundaries of the pattern. */
  lemma FieldPieces(x: string)
    requires |x| >= 17
    ensures x[..17] == x[..4] + x[4..6] + x[6..8] + [x[8]] + x[9..11] + [x[11]] + x[12..14] + [x[14]] + x[15..17]
  {
  }

  /**
   * What a successful parse read: the text up to the seconds is the date-time
   * written back in the pattern, and the rest is its fraction.
   */
  lemma ParseFieldsReadsText(ts: string)
    requires ParseFields(ts).Some?
    ensures ts[..17] == Format(ParseFields(ts).value)[..17]
    ensures Fraction(ts[17..]) == Some(ParseFields(ts).value.nano)
  {
    var dt := ParseFields(ts).value;
    assert AllDigits(ts[..4]) && AllDigits(ts[4..6]) && AllDigits(ts[6..8]) by {
      assert forall i :: 0 <= i < 4 ==> ts[..4][i] == ts[..8][i];
      assert forall i :: 0 <= i < 2 ==> ts[4..6][i] == ts[..8][4 + i] && ts[6..8][i] == ts[..8][6 + i];
    }
    DigitsOfNumber(ts[..4]);
    DigitsOfNumber(ts[4..6]);
    DigitsOfNumber(ts[6..8]);
    DigitsOfNumber(ts[9..11]);
    DigitsOfNumber(ts[12..14]);
    DigitsOfNumber(ts[15..17]);
    var f := Format(dt);
    FormatLayout(dt);
    FieldPieces(ts);
    FieldPieces(f);
  }

  /** Where each field sits in a formatted date-time. */
  lemma FormatLayout(dt: DateTime)
    ensures var s := Format(dt);
      |s| == 27 && s[..8] == DateToken(dt) && s[8] == ' ' && s[11] == ':' && s[14] == ':'
      && s[..4] == Digits(dt.year, 4) && s[4..6] == Digits(dt.month, 2) && s[6..8] == Digits(dt.day, 2)
      && s[9..11] == Digits(dt.hour, 2) && s[12..14] == Digits(dt.minute, 2) && s[15..17] == Digits(dt.second, 2)
      && s[17..] == "." + Digits(dt.nano, 9)
  {
    var d, t := DateToken(dt), TimeToken(dt);
    var s := Format(dt);
    assert s == d + " " + t;
    assert s[..8] == d && s[9..] == t;
    assert t[..2] == Digits(dt.hour, 2) && t[3..5] == Digits(dt.minute, 2) && t[6..8] == Digits(dt.second, 2);
    assert t[8..] == "." + Digits(dt.nano, 9);
    assert s[9..11] == t[..2] && s[12..14] == t[3..5] && s[15..17] == t[6..8] && s[17..] == t[8..];
  }

  /** Parsing a formatted date-time gives it back. */
  lemma ParseFormat(dt: DateTime)
    requires Valid(dt)
    ensures ParseFields(Format(dt)) == Some(dt)
  {
    FormatFields(dt);
    FractionOfDigits(dt.nano);
  }

  /** The fields of a formatted date-time are digit runs that read back as its fields. */
  lemma FormatFields(dt: DateTime)
    requires Valid(dt)
    ensures var s := Format(dt);
      |s| >= 17 && s[8] == ' ' && s[11] == ':' && s[14] == ':' && s[17..] == "." + Digits(dt.nano, 9)
      && AllDigits(s[..8]) && AllDigits(s[9..11]) && AllDigits(s[12..14]) && AllDigits(s[15..17])
      && Number(s[..4]) == dt.year && Number(s[4..6]) == dt.month && Number(s[6..8]) == dt.day
      && Number(s[9..11]) == dt.hour && Number(s[12..14]) == dt.minute && Number(s[15..17]) == dt.second
  {
    FormatLayout(dt);
    DateTokenDigits(dt);
    assert Pow10(2) == 100 && Pow10(4) == 10000;
    NumberOfDigits(dt.year, 4);
    NumberOfDigits(dt.month, 2);
    NumberOfDigits(dt.day, 2);
    NumberOfDigits(dt.hour, 2);
    NumberOfDigits(dt.minute, 2);
    NumberOfDigits(dt.second, 2);
  }

  /**
   * The date and time of a formatted date-time followed by any fraction text
   * that reads as its nanoseconds parse back to it: three-digit milliseconds
   * as much as nine digits.
   */
  lemma ParseAnyFraction(dt: DateTime, f: string)
    requires Valid(dt) && Fraction(f) == Some(dt.nano)
    ensures ParseFields(Format(dt)[..17] + f) == Some(dt)
  {
    var t := Format(dt);
    FormatLayout(dt);
    FractionOfDigits(dt.nano);
    ParseFormat(dt);
    ParseFieldsSameHead(t[..17] + f, t);
  }

  /** Parsing looks only at the first 17 characters and at what the fraction reads as. */
  lemma ParseFieldsSameHead(s: string, t: string)
    requires |s| >= 17 && |t| >= 17 && s[..17] == t[..17] && Fraction(s[17..]) == Fraction(t[17..])
    ensures ParseFields(s) == ParseFields(t)
  {
    var h := s[..17];
    assert s[8] == h[8] == t[8] && s[11] == h[11] == t[11] && s[14] == h[14] == t[14];
    SliceOfHead(s, t, 0, 8);
    SliceOfHead(s, t, 0, 4);
    SliceOfHead(s, t, 4, 6);
    SliceOfHead(s, t, 6, 8);
    SliceOfHead(s, t, 9, 11);
    SliceOfHead(s, t, 12, 14);
    SliceOfHead(s, t, 15, 17);
  }

  lemma SliceOfHead(s: string, t: string, i: nat, j: nat)
    requires i <= j <= 17 <= |s| && 17 <= |t| && s[..17] == t[..17]
    ensures s[i..j] == t[i..j]
  {
    HeadSlice(s, i, j);
    HeadSlice(t, i, j);
  }

  lemma HeadSlice(s: string, i: nat, j: nat)
    requires i <= j <= 17 <= |s|
    ensures s[i..j] == s[..17][i..j]
  {
  }

  lemma DateTokenDigits(dt: DateTime)
    ensures AllDigits(DateToken(dt))
  {
    var y, m, d := Digits(dt.year, 4), Digits(dt.month, 2), Digits(dt.day, 2);
    assert forall i :: 0 <= i < 8 ==> DateToken(dt)[i] == if i < 4 then y[i] else if i < 6 then m[i - 4] else d[i - 6];
  }

  /** A dot and nine digits are read back as that many nanoseconds. */
  lemma FractionOfDigits(n: nat)
    requires n < NANOS_PER_SECOND
    ensures Fraction("." + Digits(n, 9)) == Some(n)
  {
    assert Pow10(9) == NANOS_PER_SECOND && Pow10(0) == 1;
    FractionOfShortDigits(n, 9);
  }

  // ----- log lines -----

  /** The timestamp text: the first two tokens, each followed by a space, trimmed at the end. */
  function HeadText(words: seq<string>): (r: string)
    ensures |words| >= 2 ==> r == TrimEnd(words[0] + " " + words[1])
  {
    if |words| >= 2 then
      SpacedHead(words);
      TrimEnd(Spaced(words[..2]))
    else
      TrimEnd(Spaced(words))
  }

  lemma SpacedHead(words: seq<string>)
    requires |words| >= 2
    ensures TrimEnd(Spaced(words[..2])) == TrimEnd(words[0] + " " + words[1])
  {
    assert words[..2] == [words[0], words[1]] + [];
    SpacedPair(words[0], words[1], []);
    assert Spaced(words[..2]) == (words[0] + " " + words[1]) + " ";
    TrimEndSpace(words[0] + " " + words[1]);
  }

  /** The rest of the line: the tokens from the third on, each followed by a space. */
  function TailText(words: seq<string>): (r: string)
    ensures r == [] <==> |words| <= 2
    ensures AllWords(words) && |words| >= 2 ==> Words(r) == words[2..]
  {
    if |words| >= 2 then
      if AllWords(words) then WordsOfSpaced(words[2..]); Spaced(words[2..])
      else Spaced(words[2..])
    else
      Spaced([])
  }

  /**
   * `parse_log_timestamp`: the timestamp text must match the pattern; the
   * result pairs its instant with the rest of the line.
   */
  function ParseLogTimestamp(line: string): (r: Option<Entry>)
    ensures r.Some? ==> |Words(line)| >= 2 && r.value.message == Spaced(Words(line)[2..])
  {
    var words := Words(line);
    ShortHeadFails(words);
    match ParseFields(HeadText(words))
    case None => None
    case Some(dt) => Some(Entry(ToInstant(dt), TailText(words)))
  }

  /** Fewer than two tokens never match the pattern, which needs a space at index 8. */
  lemma ShortHeadFails(words: seq<string>)
    requires AllWords(words)
    ensures |words| < 2 ==> ParseFields(HeadText(words)).None?
  {
    if |words| == 1 {
      var w := words[0];
      assert words[..1] == [w];
      assert Spaced(words[..1]) == w + " ";
      TrimEndSpace(w);
      var h := TrimEnd(w);
      assert |h| > 8 ==> h[8] == w[8];
    } else if |words| == 0 {
      assert Spaced(words[..0]) == "";
    }
  }

  lemma SpacedPair(a: string, b: string, tail: seq<string>)
    ensures Spaced([a, b] + tail) == a + " " + b + " " + Spaced(tail)
  {
    assert ([a, b] + tail)[1..] == [b] + tail;
    assert ([b] + tail)[1..] == tail;
  }

  /** An empty line, or one with a single token (a date and no time), has no timestamp. */
  lemma ParseNeedsTwoWords(line: string)
    requires |Words(line)| < 2
    ensures ParseLogTimestamp(line) == None
  {
    var words := Words(line);
    if |words| == 1 {
      var w := words[0];
      assert words[..1] == [w];
      assert Spaced(words[..1]) == w + " ";
    } else {
      assert Spaced(words[..0]) == "";
    }
  }

  /**
   * A line has a timestamp exactly when it has two tokens that, joined by one
   * space and trimmed at the end, match the pattern; its instant is that of
   * the matched date-time.
   */
  lemma ParseIff(line: string)
    ensures var words := Words(line);
      ParseLogTimestamp(line).Some? <==>
        |words| >= 2 && ParseFields(TrimEnd(words[0] + " " + words[1])).Some?
    ensures var words := Words(line);
      ParseLogTimestamp(line).Some? ==>
        ParseLogTimestamp(line).value.at == ToInstant(ParseFields(TrimEnd(words[0] + " " + words[1])).value)
  {
    var words := Words(line);
    if |words| < 2 {
      ParseNeedsTwoWords(line);
    } else {
    }
  }

  /**
   * The rest of a parsed line is its tokens from the third on, each followed
   * by one space, so that splitting it again gives exactly those tokens.
   */
  lemma ParseRemainder(line: string)
    requires ParseLogTimestamp(line).Some?
    ensures |Words(line)| >= 2
    ensures ParseLogTimestamp(line).value.message == Spaced(Words(line)[2..])
    ensures Words(ParseLogTimestamp(line).value.message) == Words(line)[2..]
  {
    var words := Words(line);
    if |words| < 2 {
      ParseNeedsTwoWords(line);
    }
    assert AllWords(words[2..]) by {
      forall i | 0 <= i < |words[2..]| ensures IsWord(words[2..][i]) { assert words[2..][i] == words[i + 2]; }
    }
    WordsOfSpaced(words[2..]);
  }

  lemma DateTokenIsWord(dt: DateTime)
    ensures IsWord(DateToken(dt))
  {
    var t := DateToken(dt);
    assert forall i :: 0 <= i < |t| ==> IsDigit(t[i]) by {
      assert AllDigits(Digits(dt.year, 4)) && AllDigits(Digits(dt.month, 2)) && AllDigits(Digits(dt.day, 2));
    }
  }

  lemma TimeTokenIsWord(dt: DateTime)
    ensures IsWord(TimeToken(dt)) && IsDigit(TimeToken(dt)[|TimeToken(dt)| - 1])
  {
    var t := TimeToken(dt);
    var n := Digits(dt.nano, 9);
    assert t[|t| - 9..] == n;
    assert forall i :: 0 <= i < |t| ==> IsDigit(t[i]) || t[i] == ':' || t[i] == '.' by {
      assert AllDigits(Digits(dt.hour, 2)) && AllDigits(Digits(dt.minute, 2)) && AllDigits(Digits(dt.second, 2));
      assert AllDigits(n);
    }
    assert t[|t| - 1] == n[8];
  }

  /** A formatted timestamp followed by a message splits into the two timestamp tokens and the message's tokens. */
  lemma FormattedLineWords(dt: DateTime, tail: seq<string>)
    requires AllWords(tail)
    ensures Words(Format(dt) + " " + Spaced(tail)) == [DateToken(dt), TimeToken(dt)] + tail
  {
    var d, t := DateToken(dt), TimeToken(dt);
    DateTokenIsWord(dt);
    TimeTokenIsWord(dt);
    var words := [d, t] + tail;
    assert AllWords(words);
    SpacedPair(d, t, tail);
    WordsOfSpaced(words);
  }

  /**
   * Parsing a line made of a formatted timestamp and a message gives back the
   * timestamp and the message's tokens, each followed by one space.
   */
  lemma ParseFormattedLine(dt: DateTime, tail: seq<string>)
    requires Valid(dt) && AllWords(tail)
    ensures ParseLogTimestamp(Format(dt) + " " + Spaced(tail)) == Some(Entry(ToInstant(dt), Spaced(tail)))
  {
    var words := [DateToken(dt), TimeToken(dt)] + tail;
    FormattedLineWords(dt, tail);
    assert words[2..] == tail;
    TimeTokenIsWord(dt);
    TrimEndUntouched(Format(dt));
    ParseFormat(dt);
  }
}
