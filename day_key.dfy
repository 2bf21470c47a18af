/**
 * Calendar dates and the day keys `YYYYMMDD` under which the problem history
 * files what was served that day (`dateToString` / `stringToDate`), together
 * with the start-of-day instant that the age-based cleanup compares against.
 */
module DayKey {
  import opened Decimal

  /** A calendar date; `month` counts from 1, as JavaScript's `getMonth() + 1`. */
  datatype Date = Date(year: nat, month: nat, day: nat)

  predicate IsLeapYear(y: nat) {
    y % 4 == 0 && (y % 100 != 0 || y % 400 == 0)
  }

  function DaysInMonth(y: nat, m: nat): (n: nat)
    requires 1 <= m <= 12
    ensures 28 <= n <= 31
  {
    if m == 2 then (if IsLeapYear(y) then 29 else 28)
    else if m == 4 || m == 6 || m == 9 || m == 11 then 30
    else 31
  }

  /** The dates a JavaScript `Date` object can report: a real day of the Gregorian calendar. */
  predicate ValidDate(d: Date) {
    1 <= d.month <= 12 && 1 <= d.day <= DaysInMonth(d.year, d.month)
  }

  /** A well-formed day key: exactly eight decimal digits. */
  predicate IsDayKey(s: string) {
    |s| == 8 && AllDigits(s)
  }

  /**
   * `dateToString`: the year as written, then month and day zero-padded to two
   * digits. All digits, four more than the year's numeral.
   */
  function DateToString(d: Date): (s: string)
    requires ValidDate(d)
    ensures AllDigits(s) && |s| == |Digits(d.year)| + 4
  {
    var y, m, dd := Digits(d.year), Pad2(d.month), Pad2(d.day);
    ConcatDigits(y, m);
    ConcatDigits(y + m, dd);
    y + m + dd
  }

  lemma ConcatDigits(a: string, b: string)
    requires AllDigits(a) && AllDigits(b)
    ensures AllDigits(a + b)
  {
    assert forall i :: 0 <= i < |b| ==> (a + b)[|a| + i] == b[i];
  }

  /**
   * The key of a date is eight characters exactly when the year has four
   * digits, and each field can be read back from its own slot.
   */
  lemma DateToStringFields(d: Date)
    requires ValidDate(d)
    ensures var s := DateToString(d);
            && (|s| == 8 <==> 1000 <= d.year <= 9999)
            && ParseDecimal(s[|s| - 4..|s| - 2]) == d.month
            && ParseDecimal(s[|s| - 2..]) == d.day
            && (|s| == 8 ==> ParseDecimal(s[..4]) == d.year)
  {
    var s := DateToString(d);
    var y, m, dd := Digits(d.year), Pad2(d.month), Pad2(d.day);
    FourDigits(d.year);
    ParseDigits(d.year);
    assert s[..|y|] == y && s[|s| - 4..|s| - 2] == m && s[|s| - 2..] == dd;
  }

  /**
   * The three fields a well-formed key spells: the four, two and two digit
   * slices read as year, month (counting from 1) and day.
   */
  function KeyFields(s: string): (d: Date)
    requires IsDayKey(s)
    ensures d.year <= 9999 && d.month <= 99 && d.day <= 99
    ensures d.year >= 1000 <==> s[0] != '0'
  {
    LeadingDigit(s[0..4]);
    Date(ParseDecimal(s[0..4]), ParseDecimal(s[4..6]), ParseDecimal(s[6..8]))
  }

  /**
   * `stringToDate`: the timestamp of `new Date(ys, ms, ds)` where `ms` is the
   * key's month minus one (a JavaScript month index counts from 0).
   */
  function StringToDate(s: string): (t: int)
    requires IsDayKey(s)
    ensures s[0] != '0' && ValidDate(KeyFields(s)) ==> t == StartOfDay(KeyFields(s))
  {
    var f := KeyFields(s);
    MakeDay(f.year, f.month - 1, f.day) * MsPerDay
  }

  /** A digit string has a leading zero iff it is worth less than 10^(|s|-1). */
  lemma LeadingDigit(s: string)
    requires AllDigits(s) && |s| >= 1
    ensures ParseDecimal(s) >= Pow10(|s| - 1) <==> s[0] != '0'
  {
    if s[0] != '0' {
      ParseAtLeast(s);
    } else {
      ParseLeadingZero(s);
    }
  }

  /** A digit string that starts with '0' is worth less than 10^(|s|-1). */
  lemma {:induction false} ParseLeadingZero(s: string)
    requires AllDigits(s) && |s| >= 1 && s[0] == '0'
    ensures ParseDecimal(s) < Pow10(|s| - 1)
    decreases |s|
  {
    if |s| >= 2 {
      ParseLeadingZero(s[..|s| - 1]);
    }
  }

  /** Encoding a date of a four-digit year and decoding the key gives the date back. */
  lemma DayKeyRoundTrip(d: Date)
    requires ValidDate(d) && 1000 <= d.year <= 9999
    ensures IsDayKey(DateToString(d)) && KeyFields(DateToString(d)) == d
  {
    var s := DateToString(d);
    DateToStringFields(d);
    assert s[0..4] == s[..4] && s[4..6] == s[|s| - 4..|s| - 2] && s[6..8] == s[|s| - 2..];
  }

  /**
   * Conversely, a well-formed key with no leading zero that names a real date is
   * exactly the key `dateToString` produces for that date.
   */
  lemma DayKeyReencode(s: string)
    requires IsDayKey(s) && s[0] != '0' && ValidDate(KeyFields(s))
    ensures DateToString(KeyFields(s)) == s
  {
    DigitsOfParse(s[0..4]);
    TwoDigitsArePadded(s[4..6]);
    TwoDigitsArePadded(s[6..8]);
    assert s == s[0..4] + s[4..6] + s[6..8];
  }

  /**
   * Days since 1970-01-01 in the proleptic Gregorian calendar (the count of
   * whole days JavaScript's `Date` arithmetic is built on).
   */
  function DaysFromCivil(d: Date): int
    requires 1 <= d.month <= 12
  {
    var y: int := if d.month <= 2 then d.year - 1 else d.year;
    MarchDays(y) + MonthOffset(d.month) + d.day - 1 - 719468
  }

  const MsPerDay: nat := 24 * 60 * 60 * 1000

  /** The millisecond timestamp of midnight at the start of `d`. */
  function StartOfDay(d: Date): int
    requires 1 <= d.month <= 12
  {
    DaysFromCivil(d) * MsPerDay
  }

  /**
   * The day count of `new Date(year, monthIndex, day)`: a year from 0 to 99
   * means 1900 to 1999, a month index outside 0..11 carries into the year, and
   * a day outside the month carries into the neighbouring months (the day
   * count is linear in the day).
   */
  function MakeDay(year: nat, monthIndex: int, day: nat): (n: int)
    requires monthIndex >= -1
    ensures var yr := if year <= 99 then 1900 + year else year;
            && (0 <= monthIndex <= 11 ==> n == DaysFromCivil(Date(yr, monthIndex + 1, day)))
            && (monthIndex == -1 ==> n == DaysFromCivil(Date(yr - 1, 12, day)))
  {
    var yr: nat := if year <= 99 then 1900 + year else year;
    var ym: nat := yr + monthIndex / 12;
    assert ym == if monthIndex == -1 then yr - 1 else if monthIndex <= 11 then yr else ym;
    DayShift(Date(ym, monthIndex % 12 + 1, day));
    DaysFromCivil(Date(ym, monthIndex % 12 + 1, 1)) + day - 1
  }

  /** For a real date of a year past 99, `new Date` needs no carrying: its day count is the civil one. */
  lemma MakeDayOfDate(d: Date)
    requires ValidDate(d) && d.year >= 100
    ensures MakeDay(d.year, d.month - 1, d.day) == DaysFromCivil(d)
  {
    var mi := d.month - 1;
    assert mi / 12 == 0 && mi % 12 == mi;
    DayShift(d);
  }

  /** Within a month the day count grows one by one from the first. */
  lemma DayShift(d: Date)
    requires 1 <= d.month <= 12
    ensures DaysFromCivil(d) == DaysFromCivil(Date(d.year, d.month, 1)) + d.day - 1
  {
  }

  /** Decoding the key of a date of a four-digit year gives the timestamp of that day's midnight. */
  lemma StringToDateOfKey(d: Date)
    requires ValidDate(d) && 1000 <= d.year <= 9999
    ensures IsDayKey(DateToString(d)) && StringToDate(DateToString(d)) == StartOfDay(d)
  {
    DayKeyRoundTrip(d);
    MakeDayOfDate(d);
  }

  /** Month 13 of a key is January of the next year, and day 0 the last day of the previous month. */
  lemma MakeDayCarries(y: nat, day: nat)
    requires y >= 100
    ensures MakeDay(y, 12, day) == MakeDay(y + 1, 0, day)
    ensures MakeDay(y, 0, 0) == DaysFromCivil(Date(y - 1, 12, 31))
  {
    assert 12 / 12 == 1 && 12 % 12 == 0 && 0 / 12 == 0 && 0 % 12 == 0;
    YearEnd(y - 1);
  }

  /** The count starts at 1970-01-01, the epoch of JavaScript timestamps. */
  lemma EpochIsDayZero()
    ensures DaysFromCivil(Date(1970, 1, 1)) == 0
  {
  }

  /** Consecutive days of one month start exactly one day apart. */
  lemma NextDayStartsOneDayLater(d: Date)
    requires ValidDate(d) && d.day < DaysInMonth(d.year, d.month)
    ensures StartOfDay(Date(d.year, d.month, d.day + 1)) == StartOfDay(d) + MsPerDay
  {
  }

  /**
   * Days from 1 March of year 0 to 1 March of year `y`: whole 400-year eras of
   * 146097 days, then 365 days a year plus the leap days of the era so far.
   */
  function MarchDays(y: int): int {
    (y / 400) * 146097 + (y % 400) * 365 + (y % 400) / 4 - (y % 400) / 100
  }

  /** Stepping `x` by one raises `x / k` by one exactly when `x + 1` is a multiple of `k`. */
  lemma DivStep(x: nat, k: nat)
    requires k == 4 || k == 100
    ensures (x + 1) / k == x / k + (if (x + 1) % k == 0 then 1 else 0)
  {
  }

  /** Whole eras of 400 years change neither the remainder by 4 nor that by 100. */
  lemma EraShift(e: int, x: nat)
    ensures (400 * e + x) % 4 == x % 4 && (400 * e + x) % 100 == x % 100
  {
    assert 400 * e + x == 4 * (100 * e) + x;
    assert 400 * e + x == 100 * (4 * e) + x;
  }

  /** From 1 March of one year to 1 March of the next is 366 days iff the next year is leap. */
  lemma YearStep(y: int)
    requires y >= -1
    ensures MarchDays(y + 1) == MarchDays(y) + (if IsLeapYear(y + 1) then 366 else 365)
  {
    var e, r := y / 400, y % 400;
    assert MarchDays(y) == e * 146097 + r * 365 + r / 4 - r / 100;
    if r < 399 {
      assert (y + 1) / 400 == e && (y + 1) % 400 == r + 1 by {
        assert y + 1 == 400 * e + (r + 1);
      }
      assert MarchDays(y + 1) == e * 146097 + (r + 1) * 365 + (r + 1) / 4 - (r + 1) / 100;
      assert IsLeapYear(y + 1) <==> (r + 1) % 4 == 0 && (r + 1) % 100 != 0 by {
        EraShift(e, r + 1);
        assert y + 1 == 400 * e + (r + 1);
      }
      DivStep(r, 4);
      DivStep(r, 100);
    } else {
      assert (y + 1) / 400 == e + 1 && (y + 1) % 400 == 0 by {
        assert y + 1 == 400 * (e + 1);
      }
      assert MarchDays(y + 1) == (e + 1) * 146097;
      assert IsLeapYear(y + 1);
    }
  }

  /** Days from 1 March to the first of month `m` (January and February fall in the next such year). */
  function MonthOffset(m: nat): nat
    requires 1 <= m <= 12
  {
    (153 * ((m + 9) % 12) + 2) / 5
  }

  /** The day after the last of a month is the first of the next month (or year). */
  lemma MonthBoundary(d: Date)
    requires ValidDate(d) && d.day == DaysInMonth(d.year, d.month)
    ensures var next := if d.month == 12 then Date(d.year + 1, 1, 1) else Date(d.year, d.month + 1, 1);
            DaysFromCivil(next) == DaysFromCivil(d) + 1
  {
    if d.month == 2 {
      FebruaryEnd(d.year);
    } else if d.month == 12 {
      YearEnd(d.year);
    } else {
      MonthEnd(d.year, d.month);
    }
  }

  lemma MonthEnd(y: nat, m: nat)
    requires 1 <= m <= 11 && m != 2
    ensures DaysFromCivil(Date(y, m + 1, 1)) == DaysFromCivil(Date(y, m, DaysInMonth(y, m))) + 1
  {
    MonthOffsetStep(y, m);
  }

  lemma FebruaryEnd(y: nat)
    ensures DaysFromCivil(Date(y, 3, 1)) == DaysFromCivil(Date(y, 2, DaysInMonth(y, 2))) + 1
  {
    assert MonthOffset(3) == 0 && MonthOffset(2) == 337;
    YearStep(y - 1);
  }

  lemma YearEnd(y: nat)
    ensures DaysFromCivil(Date(y + 1, 1, 1)) == DaysFromCivil(Date(y, 12, 31)) + 1
  {
    assert MonthOffset(12) == 275 && MonthOffset(1) == 306;
  }

  /** Within one March-based year, each month starts where the previous one ends. */
  lemma MonthOffsetStep(y: nat, m: nat)
    requires 1 <= m <= 11 && m != 2
    ensures MonthOffset(m + 1) == MonthOffset(m) + DaysInMonth(y, m)
  {
    if m == 1 { assert MonthOffset(1) == 306 && MonthOffset(2) == 337; }
    else if m == 3 { assert MonthOffset(3) == 0 && MonthOffset(4) == 31; }
    else if m == 4 { assert MonthOffset(4) == 31 && MonthOffset(5) == 61; }
    else if m == 5 { assert MonthOffset(5) == 61 && MonthOffset(6) == 92; }
    else if m == 6 { assert MonthOffset(6) == 92 && MonthOffset(7) == 122; }
    else if m == 7 { assert MonthOffset(7) == 122 && MonthOffset(8) == 153; }
    else if m == 8 { assert MonthOffset(8) == 153 && MonthOffset(9) == 184; }
    else if m == 9 { assert MonthOffset(9) == 184 && MonthOffset(10) == 214; }
    else if m == 10 { assert MonthOffset(10) == 214 && MonthOffset(11) == 245; }
    else { assert MonthOffset(11) == 245 && MonthOffset(12) == 275; }
  }
}
