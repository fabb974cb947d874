/**
 * The calendar arithmetic of `tz_date` and `tz_time` (src/tz.c:451-482 and
 * src/tz.c:566-606; tz.c:443-474 and tz.c:587-627 are the same code): the
 * Fliegel & van Flandern closed forms between a Julian Day Number and a
 * proleptic Gregorian date (Commun. ACM 11(10):657, 1968), the split of an
 * instant into a day and a time of day, the month normalisation of `tz_time`,
 * and the day-of-year loop. Every division is C's truncating one.
 */
module Calendar {
  import opened Base
  import opened CArith

  /** Julian Day Number of 1970-01-01 (src/tz.h:21). */
  const EPOCH: int := 2440588
  /** The instant that starts Julian Day 0, -4713-11-24T00:00:00 (src/tz.h:22). */
  const J0_TIME: int := -210866803200
  /** The year of Julian Day 0 (src/tz.h:23). */
  const J0_YEAR: int := -4713
  const SECONDS_PER_DAY: int := 86400

  /** A civil date; `month` and `day` need not be in range when it is an input. */
  datatype Date = Date(year: int, month: int, day: int)

  /** The Gregorian leap-year rule of `days()`, with C's remainder. */
  predicate IsLeap(year: int)
  {
    CMod(year, 4) == 0 && (CMod(year, 100) != 0 || CMod(year, 400) == 0)
  }

  /** The table `DAYS_PER_MONTH`, common years first. */
  const DAYS_PER_MONTH: seq<seq<int>> := [
    [31, 28, 31, 30, 31, 30, 31, 31, 30, 31, 30, 31],
    [31, 29, 31, 30, 31, 30, 31, 31, 30, 31, 30, 31]
  ]

  /** `days(year, month)`: the length of a month. */
  function Days(year: int, month: int): (d: int)
    requires 1 <= month <= 12
    ensures 28 <= d <= 31
    ensures month == 2 ==> (d == 29 <==> IsLeap(year))
  {
    DAYS_PER_MONTH[if IsLeap(year) then 1 else 0][month - 1]
  }

  /** A date whose month and day are in their canonical ranges. */
  predicate ValidDate(d: Date)
  {
    1 <= d.month <= 12 && 1 <= d.day <= Days(d.year, d.month)
  }

  /*
   * Decomposition: instant -> civil fields (src/tz.c:451-482).
   */

  /** The seconds elapsed since local midnight: C's remainder, made non-negative. */
  function SecondOfDay(t: int): int
  {
    var sec := CMod(t, SECONDS_PER_DAY);
    if sec < 0 then sec + SECONDS_PER_DAY else sec
  }

  /** The hour, minute and second of an instant. */
  function ClockOf(t: int): (int, int, int)
  {
    var sec := SecondOfDay(t);
    var hour := CDiv(sec, 3600);
    var sec := CMod(sec, 3600);
    (hour, CDiv(sec, 60), CMod(sec, 60))
  }

  /** The Julian Day Number of the day holding an instant: the truncating
      division is shifted by a day less a second for negative instants. */
  function JulianDay(t: int): int
  {
    var t := if t < 0 then t - 86399 else t;
    CDiv(t, SECONDS_PER_DAY) + EPOCH
  }

  /** Fliegel & van Flandern: Julian Day Number to Gregorian date. */
  function CivilFromDay(jd: int): Date
  {
    var l := jd + 68569;
    var n := CDiv(4 * l, 146097);
    var l := l - CDiv(146097 * n + 3, 4);
    var i := CDiv(4000 * (l + 1), 1461001);
    var l := l - CDiv(1461 * i, 4) + 31;
    var j := CDiv(80 * l, 2447);
    var day := l - CDiv(2447 * j, 80);
    var l := CDiv(j, 11);
    Date(100 * (n - 49) + i + l, j + 2 - 12 * l, day)
  }

  /** The day of the week, 1 for Sunday through 7 for Saturday. */
  function Weekday(jd: int): int
  {
    CMod(jd + 1, 7) + 1
  }

  /*
   * Composition: civil fields -> instant (src/tz.c:566-592).
   */

  /** Fliegel & van Flandern: Gregorian date to Julian Day Number. An
      out-of-range day is simply added on. */
  function DayFromCivil(year: int, month: int, day: int): int
  {
    var a := CDiv(month - 14, 12);
    CDiv(1461 * (year + 4800 + a), 4)
      + CDiv(367 * (month - 2 - 12 * a), 12)
      - CDiv(3 * CDiv(year + 4900 + a, 100), 4)
      + day - 32075
  }

  /** `tz_time`'s month normalisation: a month outside 1..12 is carried into
      the year, so that the count of months since year 0 is unchanged. */
  function NormalizeMonth(year: int, month: int): (r: (int, int))
    ensures 1 <= r.1 <= 12
    ensures r.0 * 12 + r.1 - 1 == year * 12 + month - 1
  {
    CDivModSpec(month, 12);
    CDivModSpec(month - 1, 12);
    if month < 1 then
      CDivNegative(month, 12);
      CDivNegative(month - 12, 12);
      (year + CDiv(month - 12, 12), CMod(month, 12) + 12)
    else if month > 12 then
      (year + CDiv(month - 1, 12), CMod(month - 1, 12) + 1)
    else
      (year, month)
  }

  /** The seconds count of civil fields: the month is normalised, a year
      before that of Julian Day 0 yields nothing (`nil`), and day, hour,
      minute and second are added on without range checks. */
  function CivilSeconds(year: int, month: int, day: int, hour: int, min: int, sec: int): Option<int>
  {
    var (year, month) := NormalizeMonth(year, month);
    if year >= J0_YEAR then
      Some((DayFromCivil(year, month, day) - EPOCH) * SECONDS_PER_DAY + hour * 3600 + min * 60 + sec)
    else
      None
  }

  /*
   * The day of the year (src/tz.c:478-482).
   */

  /** The days of the months of `year` before `month`. */
  function DaysBefore(year: int, month: int): int
    requires 1 <= month <= 13
  {
    if month == 1 then 0 else DaysBefore(year, month - 1) + Days(year, month - 1)
  }

  /** The loop of `tz_date` that sums the lengths of the earlier months. */
  method YearDay(year: int, month: int, day: int) returns (yday: int)
    requires 1 <= month <= 12
    ensures yday == DaysBefore(year, month) + day
  {
    yday := 0;
    var i := 1;
    while i < month
      invariant 1 <= i <= month
      invariant yday == DaysBefore(year, i)
    {
      yday := yday + Days(year, i);
      i := i + 1;
    }
    yday := yday + day;
  }

  /** The fields `tz_date` derives from an instant at or after Julian Day 0. */
  datatype DateTime = DateTime(year: int, month: int, day: int, hour: int, min: int, sec: int)

  /** The decomposition of `tz_date`: clock fields from the second of the
      day, date fields from the Julian Day Number. */
  function Decompose(t: int): (dt: DateTime)
    requires t >= J0_TIME
    ensures ValidDate(Date(dt.year, dt.month, dt.day)) && dt.year >= J0_YEAR
    ensures 0 <= dt.hour < 24 && 0 <= dt.min < 60 && 0 <= dt.sec < 60
    ensures dt.hour * 3600 + dt.min * 60 + dt.sec == t % SECONDS_PER_DAY
    ensures JulianDay(t) == t / SECONDS_PER_DAY + EPOCH >= 0
  {
    SecondOfDayFloor(t);
    JulianDayFloor(t);
    CivilFromDayValid(JulianDay(t));
    var (hour, min, sec) := ClockOf(t);
    var date := CivilFromDay(JulianDay(t));
    DateTime(date.year, date.month, date.day, hour, min, sec)
  }

  /*
   * Proofs.
   */

  /** C's remainder made non-negative is the floored remainder. */
  lemma SecondOfDayFloor(t: int)
    ensures SecondOfDay(t) == t % SECONDS_PER_DAY
  {
    CDivModSpec(t, SECONDS_PER_DAY);
    if t < 0 { CDivNegative(t, SECONDS_PER_DAY); }
  }

  /** Shifting a negative instant back by 86399 seconds before the truncating
      division floors it. */
  lemma JulianDayFloor(t: int)
    ensures JulianDay(t) == t / SECONDS_PER_DAY + EPOCH
    ensures t >= J0_TIME ==> JulianDay(t) >= 0
  {
    if t < 0 {
      var q, r := t / SECONDS_PER_DAY, t % SECONDS_PER_DAY;
      CDivNegative(t - 86399, SECONDS_PER_DAY);
      if r == 86399 {
        assert t - 86399 == SECONDS_PER_DAY * q;
      } else {
        assert t - 86399 == SECONDS_PER_DAY * (q - 1) + (r + 1);
      }
    }
  }

  /** The leap-year rule with Euclidean remainders. */
  lemma LeapEuclid(year: int)
    ensures IsLeap(year) <==> year % 4 == 0 && (year % 100 != 0 || year % 400 == 0)
  {
    CModZero(year, 4);
    CModZero(year, 100);
    CModZero(year, 400);
  }

  /** `days()` as a rule rather than a table. */
  lemma DaysRule(year: int, month: int)
    requires 1 <= month <= 12
    ensures Days(year, month) == if month == 2 then (if IsLeap(year) then 29 else 28)
      else if month == 4 || month == 6 || month == 9 || month == 11 then 30 else 31
  {
  }

  // The stages of Fliegel & van Flandern's decomposition, with the
  // operands shown non-negative so that C's division is Euclidean.

  /** First stage: the 400-year cycle count and the day within its century. */
  lemma CenturyStage(l: int)
    requires l >= 68569
    ensures var n := (4 * l) / 146097; var l1 := l - (146097 * n + 3) / 4;
      n >= 1 && 0 <= l1 <= 36524 && (l1 == 36524 ==> n % 4 == 0)
      && (n == 1 ==> l1 >= 32044)
      && (146097 * n + 3) / 4 == 36525 * n - (3 * n) / 4
  {
    var n := (4 * l) / 146097;
    var q := (146097 * n + 3) / 4;
    assert 146097 * n <= 4 * l < 146097 * n + 146097;
    assert 4 * q <= 146097 * n + 3 < 4 * q + 4;
    var q4 := (3 * n) / 4;
    assert 4 * q4 <= 3 * n < 4 * q4 + 4;
    if l - q == 36524 {
      assert 4 * q == 146097 * n;
      assert n == 4 * (q - 36524 * n);
    }
  }

  /** Second stage: the year within the century and the day within the year,
      counted from March 1 and offset by 31. */
  lemma YearStage(l1: int)
    requires 0 <= l1 <= 36524
    ensures var i := (4000 * (l1 + 1)) / 1461001;
      0 <= i <= 99 && 31 <= l1 - (1461 * i) / 4 + 31 <= 396
      && (l1 >= 32044 ==> i >= 87)
  {
    var i := (4000 * (l1 + 1)) / 1461001;
    var q := (1461 * i) / 4;
    assert 1461001 * i <= 4000 * (l1 + 1) < 1461001 * i + 1461001;
    assert 4 * q <= 1461 * i < 4 * q + 4;
  }

  /** Third stage: the month index (1 for March ... 12 for February) and the
      day; only the 366th day of a March-based year is February 29. */
  lemma MonthStage(l2: int)
    requires 31 <= l2 <= 396
    ensures var j := (80 * l2) / 2447; var day := l2 - (2447 * j) / 80;
      var month := j + 2 - 12 * (j / 11);
      1 <= j <= 12 && 1 <= month <= 12 && (month <= 2 <==> j >= 11)
      && 1 <= day <= 31 && (month == 4 || month == 6 || month == 9 || month == 11 ==> day <= 30)
      && (month == 2 ==> day <= 29 && (day == 29 <==> l2 == 396))
  {
    var j := (80 * l2) / 2447;
    assert 2447 * j <= 80 * l2 < 2447 * j + 2447;
  }

  /** The 366th day of a March-based year only occurs when the following
      February belongs to a leap year. */
  lemma LeapDayStage(n: int, l1: int, i: int)
    requires 0 <= l1 <= 36524 && i == (4000 * (l1 + 1)) / 1461001
    requires l1 == 36524 ==> n % 4 == 0
    requires l1 - (1461 * i) / 4 == 365
    ensures IsLeap(100 * (n - 49) + i + 1)
  {
    var k, rho := i / 4, i % 4;
    assert i == 4 * k + rho;
    assert (1461 * i) / 4 == 1461 * k + 365 * rho;
    assert 1461001 * i <= 4000 * (l1 + 1) < 1461001 * i + 1461001;
    assert rho == 3;
    var y := 100 * (n - 49) + i + 1;
    assert y == 4 * (25 * (n - 49) + k + 1);
    LeapEuclid(y);
    DivModUnique(y, 4, 25 * (n - 49) + k + 1, 0);
    if i == 99 {
      assert l1 == 36524;
      DivModUnique(y, 400, (n - 48) / 4, 0);
    } else {
      DivModUnique(y, 100, n - 49, i + 1);
    }
  }

  /** The month lengths of the two closed forms agree. */
  lemma MonthSpan(j: int)
    requires 1 <= j <= 12
    ensures (367 * j) / 12 == (2447 * j) / 80
  {
    if j == 1 { } else if j == 2 { } else if j == 3 { } else if j == 4 { }
    else if j == 5 { } else if j == 6 { } else if j == 7 { } else if j == 8 { }
    else if j == 9 { } else if j == 10 { } else if j == 11 { } else { }
  }

  /** The decomposition in terms of its stages. */
  lemma DecomposeStages(jd: int, n: int, l1: int, i: int, l2: int, j: int)
    requires jd >= 0
    requires n == (4 * (jd + 68569)) / 146097
    requires l1 == jd + 68569 - (146097 * n + 3) / 4
    requires i == (4000 * (l1 + 1)) / 1461001
    requires l2 == l1 - (1461 * i) / 4 + 31
    requires j == (80 * l2) / 2447
    ensures CivilFromDay(jd) == Date(100 * (n - 49) + i + j / 11, j + 2 - 12 * (j / 11), l2 - (2447 * j) / 80)
  {
    CenturyStage(jd + 68569);
    YearStage(l1);
  }

  /** The composition of a date produced by the decomposition, in terms of
      the decomposition's stages. */
  lemma ComposeStages(n: int, i: int, j: int, day: int)
    requires n >= 1 && 0 <= i <= 99 && 1 <= j <= 12
    ensures DayFromCivil(100 * (n - 49) + i + j / 11, j + 2 - 12 * (j / 11), day)
      == 36525 * (n - 1) + (1461 * i) / 4 + (367 * j) / 12 - (3 * n) / 4 + day - 32075
  {
    var lm := j / 11;
    var month := j + 2 - 12 * lm;
    var year := 100 * (n - 49) + i + lm;
    var a := CDiv(month - 14, 12);
    assert a == -lm;
    assert year + 4800 + a == 100 * (n - 1) + i;
    assert CDiv(1461 * (year + 4800 + a), 4) == 36525 * (n - 1) + (1461 * i) / 4;
    assert month - 2 - 12 * a == j;
    assert CDiv(year + 4900 + a, 100) == n;
  }

  /** Every day from Julian Day 0 on decomposes into a valid date no earlier
      than year -4713. */
  lemma CivilFromDayValid(jd: int)
    requires jd >= 0
    ensures var d := CivilFromDay(jd); ValidDate(d) && d.year >= J0_YEAR
  {
    var l := jd + 68569;
    CenturyStage(l);
    var n := (4 * l) / 146097;
    var l1 := l - (146097 * n + 3) / 4;
    YearStage(l1);
    var i := (4000 * (l1 + 1)) / 1461001;
    var l2 := l1 - (1461 * i) / 4 + 31;
    MonthStage(l2);
    var j := (80 * l2) / 2447;
    DecomposeStages(jd, n, l1, i, l2, j);
    var d := CivilFromDay(jd);
    DaysRule(d.year, d.month);
    if d.month == 2 && d.day == 29 {
      LeapDayStage(n, l1, i);
    }
  }

  /** Composition inverts decomposition on Julian Day Numbers. */
  lemma {:induction false} DayFromCivilFromDay(jd: int)
    requires jd >= 0
    ensures var d := CivilFromDay(jd); DayFromCivil(d.year, d.month, d.day) == jd
  {
    var l := jd + 68569;
    CenturyStage(l);
    var n := (4 * l) / 146097;
    var l1 := l - (146097 * n + 3) / 4;
    YearStage(l1);
    var i := (4000 * (l1 + 1)) / 1461001;
    var l2 := l1 - (1461 * i) / 4 + 31;
    MonthStage(l2);
    var j := (80 * l2) / 2447;
    var day := l2 - (2447 * j) / 80;
    DecomposeStages(jd, n, l1, i, l2, j);
    ComposeStages(n, i, j, day);
    MonthSpan(j);
    var d := CivilFromDay(jd);
    calc {
      DayFromCivil(d.year, d.month, d.day);
      DayFromCivil(100 * (n - 49) + i + j / 11, j + 2 - 12 * (j / 11), day);
      36525 * (n - 1) + (1461 * i) / 4 + (367 * j) / 12 - (3 * n) / 4 + day - 32075;
      36525 * n - (3 * n) / 4 + l1 - 68569;
      jd;
    }
  }

  /** `tz_time` inverts `tz_date`: composing the fields an instant decomposes
      into gives back the instant, for every instant from Julian Day 0 on. */
  lemma ComposeInvertsDecompose(t: int)
    requires t >= J0_TIME
    ensures var dt := Decompose(t);
      CivilSeconds(dt.year, dt.month, dt.day, dt.hour, dt.min, dt.sec) == Some(t)
  {
    var dt := Decompose(t);
    DayFromCivilFromDay(JulianDay(t));
    assert NormalizeMonth(dt.year, dt.month) == (dt.year, dt.month);
    var days := DayFromCivil(dt.year, dt.month, dt.day) - EPOCH;
    assert days == t / SECONDS_PER_DAY;
    assert days * SECONDS_PER_DAY + t % SECONDS_PER_DAY == t;
  }

  /** The weekday of consecutive days advances by one, wrapping after 7. */
  lemma WeekdaySuccessor(jd: int)
    requires jd >= 0
    ensures 1 <= Weekday(jd) <= 7
    ensures Weekday(jd + 1) == Weekday(jd) % 7 + 1
  {
    CDivModSpec(jd + 1, 7);
    CDivModSpec(jd + 2, 7);
  }

  /** The days before each month, as a rule. */
  lemma {:induction false} DaysBeforeRule(year: int, month: int)
    requires 1 <= month <= 13
    ensures DaysBefore(year, month)
      == [0, 31, 59, 90, 120, 151, 181, 212, 243, 273, 304, 334, 365][month - 1]
         + (if month > 2 && IsLeap(year) then 1 else 0)
  {
    if month > 1 {
      DaysBeforeRule(year, month - 1);
      DaysRule(year, month - 1);
    }
  }

  /** The part of the composition that depends on the (March-based) year. */
  ghost function YearStart(year: int): int
  {
    CDiv(1461 * (year + 4800), 4) - CDiv(3 * CDiv(year + 4900, 100), 4)
  }

  /** The part of the composition that depends on the month, March-based:
      January and February count as months 11 and 12 of the previous year. */
  const MONTH_START: seq<int> := [336, 367, 30, 61, 91, 122, 152, 183, 214, 244, 275, 305]

  /** The month term of the composition, March-based. */
  lemma MonthTerm(month: int)
    requires 1 <= month <= 12
    ensures CDiv(367 * (if month <= 2 then month + 10 else month - 2), 12) == MONTH_START[month - 1]
  {
    if month == 1 { } else if month == 2 { } else if month == 3 { } else if month == 4 { }
    else if month == 5 { } else if month == 6 { } else if month == 7 { } else if month == 8 { }
    else if month == 9 { } else if month == 10 { } else if month == 11 { } else { }
  }

  /** The composition split into its year part and its month part. */
  lemma ComposeSplit(year: int, month: int, day: int)
    requires 1 <= month <= 12
    ensures DayFromCivil(year, month, day)
      == YearStart(if month <= 2 then year - 1 else year) + MONTH_START[month - 1] + day - 32075
  {
    var a := CDiv(month - 14, 12);
    var y := if month <= 2 then year - 1 else year;
    assert a == if month <= 2 then -1 else 0;
    assert year + 4800 + a == y + 4800;
    assert year + 4900 + a == y + 4900;
    assert month - 2 - 12 * a == if month <= 2 then month + 10 else month - 2;
    MonthTerm(month);
  }

  /** The 1461/4 term grows by 366 days into a year divisible by 4, else by 365. */
  lemma JulianYearTerm(year: int)
    requires year >= J0_YEAR
    ensures CDiv(1461 * (year + 4800), 4) - CDiv(1461 * (year + 4799), 4)
      == if year % 4 == 0 then 366 else 365
  {
    var y := year + 4800;
    assert (1461 * y) / 4 == 365 * y + y / 4;
    assert (1461 * (y - 1)) / 4 == 365 * (y - 1) + (y - 1) / 4;
  }

  /** The century correction grows by one day into a century year not
      divisible by 400. */
  lemma CenturyTerm(year: int)
    requires year >= J0_YEAR
    ensures CDiv(3 * CDiv(year + 4900, 100), 4) - CDiv(3 * CDiv(year + 4899, 100), 4)
      == if year % 100 == 0 && year % 400 != 0 then 1 else 0
  {
    var c1, c0 := (year + 4900) / 100, (year + 4899) / 100;
    if year % 100 == 0 {
      var k := year / 100;
      assert c1 == k + 49 && c0 == k + 48;
      assert year % 400 == 0 <==> k % 4 == 0;
      var p, r := k / 4, k % 4;
      assert (3 * c1) / 4 == 3 * p + (3 * r + 147) / 4;
      assert (3 * c0) / 4 == 3 * p + (3 * r + 144) / 4;
      if r == 0 { } else if r == 1 { } else if r == 2 { } else { }
    } else {
      assert c1 == c0;
    }
  }

  /** The year part grows by the length of the year. */
  lemma YearTerms(year: int)
    requires year >= J0_YEAR
    ensures YearStart(year) - YearStart(year - 1) == if IsLeap(year) then 366 else 365
  {
    JulianYearTerm(year);
    CenturyTerm(year);
    LeapEuclid(year);
  }

  /** The Julian Day Number of a date is that of New Year plus the days of
      the earlier months plus the day, less one: the day-of-year loop agrees
      with the closed form. */
  lemma NewYearOffset(year: int, month: int, day: int)
    requires year >= J0_YEAR && 1 <= month <= 12
    ensures DayFromCivil(year, month, day) == DayFromCivil(year, 1, 1) + DaysBefore(year, month) + day - 1
  {
    DaysBeforeRule(year, month);
    ComposeSplit(year, month, day);
    ComposeSplit(year, 1, 1);
    var leap := if IsLeap(year) then 1 else 0;
    if month >= 3 {
      YearTerms(year);
      MarchOffset(YearStart(year - 1), YearStart(year), leap, month, DaysBefore(year, month));
    }
  }

  /** The arithmetic of `NewYearOffset` for the months from March on. */
  lemma MarchOffset(ys0: int, ys1: int, leap: int, month: int, before: int)
    requires 3 <= month <= 12
    requires ys1 - ys0 == 365 + leap
    requires before == [0, 31, 59, 90, 120, 151, 181, 212, 243, 273, 304, 334, 365][month - 1] + leap
    ensures ys1 + MONTH_START[month - 1] == ys0 + 336 + before
  {
  }

  /** New Year follows the last day of the previous year. */
  lemma NextNewYear(year: int)
    requires year >= J0_YEAR
    ensures DayFromCivil(year + 1, 1, 1) == DayFromCivil(year, 1, 1) + DaysBefore(year, 13)
  {
    ComposeSplit(year + 1, 1, 1);
    ComposeSplit(year, 1, 1);
    YearTerms(year);
    DaysBeforeRule(year, 13);
  }

  /** A day past the end of a month is the first of the next month, and the
      first of January of the next year after December. */
  lemma MonthRollover(year: int, month: int)
    requires year >= J0_YEAR && 1 <= month <= 12
    ensures DayFromCivil(year, month, Days(year, month) + 1)
      == if month < 12 then DayFromCivil(year, month + 1, 1) else DayFromCivil(year + 1, 1, 1)
  {
    NewYearOffset(year, month, Days(year, month) + 1);
    if month < 12 {
      NewYearOffset(year, month + 1, 1);
    } else {
      NextNewYear(year);
    }
  }

  /** Later months start later. */
  lemma {:induction false} DaysBeforeMonotone(year: int, m1: int, m2: int)
    requires 1 <= m1 <= m2 <= 13
    ensures DaysBefore(year, m1) <= DaysBefore(year, m2)
  {
    if m1 < m2 {
      DaysBeforeMonotone(year, m1, m2 - 1);
    }
  }

  /** The day of the year of a valid date runs from 1 to the length of its
      year, 365 or 366 days. */
  lemma YearDayRange(d: Date)
    requires ValidDate(d)
    ensures 1 <= DaysBefore(d.year, d.month) + d.day <= DaysBefore(d.year, 13)
    ensures DaysBefore(d.year, 13) == if IsLeap(d.year) then 366 else 365
  {
    DaysBeforeMonotone(d.year, 1, d.month);
    DaysBeforeMonotone(d.year, d.month + 1, 13);
    DaysBeforeRule(d.year, 13);
  }

  /** Later years start later. */
  lemma {:induction false} NewYearMonotone(y1: int, y2: int)
    requires J0_YEAR <= y1 < y2
    ensures DayFromCivil(y2, 1, 1) >= DayFromCivil(y1 + 1, 1, 1)
    decreases y2 - y1
  {
    if y2 > y1 + 1 {
      NewYearMonotone(y1, y2 - 1);
      NextNewYear(y2 - 1);
    }
  }

  /** A valid date lies within its year. */
  lemma WithinYear(d: Date)
    requires ValidDate(d) && d.year >= J0_YEAR
    ensures DayFromCivil(d.year, 1, 1) <= DayFromCivil(d.year, d.month, d.day) < DayFromCivil(d.year + 1, 1, 1)
  {
    NewYearOffset(d.year, d.month, d.day);
    NextNewYear(d.year);
    DaysBeforeMonotone(d.year, d.month + 1, 13);
    assert DaysBefore(d.year, d.month + 1) == DaysBefore(d.year, d.month) + Days(d.year, d.month);
  }

  /** A valid date of an earlier year has a smaller Julian Day Number. */
  lemma YearsApart(d1: Date, d2: Date)
    requires ValidDate(d1) && ValidDate(d2) && J0_YEAR <= d1.year < d2.year
    ensures DayFromCivil(d1.year, d1.month, d1.day) < DayFromCivil(d2.year, d2.month, d2.day)
  {
    WithinYear(d1);
    WithinYear(d2);
    NewYearMonotone(d1.year, d2.year);
  }

  /** Two valid dates on the same Julian Day lie in the same year. */
  lemma SameYear(d1: Date, d2: Date)
    requires ValidDate(d1) && ValidDate(d2) && d1.year >= J0_YEAR && d2.year >= J0_YEAR
    requires DayFromCivil(d1.year, d1.month, d1.day) == DayFromCivil(d2.year, d2.month, d2.day)
    ensures d1.year == d2.year
  {
    if d1.year < d2.year {
      YearsApart(d1, d2);
    } else if d2.year < d1.year {
      YearsApart(d2, d1);
    }
  }

  /** Within one year, the day of the year determines month and day. */
  lemma SameMonthDay(year: int, m1: int, day1: int, m2: int, day2: int)
    requires ValidDate(Date(year, m1, day1)) && ValidDate(Date(year, m2, day2))
    requires DaysBefore(year, m1) + day1 == DaysBefore(year, m2) + day2
    ensures m1 == m2 && day1 == day2
  {
    if m1 < m2 {
      DaysBeforeMonotone(year, m1 + 1, m2);
    } else if m2 < m1 {
      DaysBeforeMonotone(year, m2 + 1, m1);
    }
  }

  /** Distinct valid dates have distinct Julian Day Numbers. */
  lemma DayFromCivilInjective(d1: Date, d2: Date)
    requires ValidDate(d1) && ValidDate(d2) && d1.year >= J0_YEAR && d2.year >= J0_YEAR
    requires DayFromCivil(d1.year, d1.month, d1.day) == DayFromCivil(d2.year, d2.month, d2.day)
    ensures d1 == d2
  {
    SameYear(d1, d2);
    var y := d1.year;
    NewYearOffset(y, d1.month, d1.day);
    NewYearOffset(y, d2.month, d2.day);
    SameMonthDay(y, d1.month, d1.day, d2.month, d2.day);
  }

  /** Decomposition inverts composition on valid dates from Julian Day 0 on. */
  lemma CivilFromDayFromCivil(d: Date)
    requires ValidDate(d) && d.year >= J0_YEAR && DayFromCivil(d.year, d.month, d.day) >= 0
    ensures CivilFromDay(DayFromCivil(d.year, d.month, d.day)) == d
  {
    var jd := DayFromCivil(d.year, d.month, d.day);
    CivilFromDayValid(jd);
    DayFromCivilFromDay(jd);
    DayFromCivilInjective(CivilFromDay(jd), d);
  }

  /** The fields of `Decompose` in Euclidean terms. */
  lemma DecomposeFields(t: int)
    requires t >= J0_TIME
    ensures var s := t % SECONDS_PER_DAY;
            var d := CivilFromDay(t / SECONDS_PER_DAY + EPOCH);
            Decompose(t) == DateTime(d.year, d.month, d.day, s / 3600, s % 3600 / 60, s % 60)
  {
    ClockFields(t);
    JulianDayFloor(t);
  }

  /** The clock fields in Euclidean terms. */
  lemma ClockFields(t: int)
    ensures var s := t % SECONDS_PER_DAY; ClockOf(t) == (s / 3600, s % 3600 / 60, s % 60)
  {
    SecondOfDayFloor(t);
  }

  /** The instant `CivilSeconds` composes from canonical fields. */
  lemma CivilSecondsCanonical(dt: DateTime)
    requires 1 <= dt.month <= 12 && dt.year >= J0_YEAR
    ensures CivilSeconds(dt.year, dt.month, dt.day, dt.hour, dt.min, dt.sec)
      == Some((DayFromCivil(dt.year, dt.month, dt.day) - EPOCH) * SECONDS_PER_DAY
              + dt.hour * 3600 + dt.min * 60 + dt.sec)
  {
    assert NormalizeMonth(dt.year, dt.month) == (dt.year, dt.month);
  }

  /** `tz_date` inverts `tz_time` on canonical fields: an instant composed
      from a valid date and time of day decomposes into the same fields. */
  lemma DecomposeInvertsCompose(dt: DateTime, t: int)
    requires ValidDate(Date(dt.year, dt.month, dt.day))
    requires 0 <= dt.hour < 24 && 0 <= dt.min < 60 && 0 <= dt.sec < 60
    requires CivilSeconds(dt.year, dt.month, dt.day, dt.hour, dt.min, dt.sec) == Some(t) && t >= J0_TIME
    ensures Decompose(t) == dt
  {
    CivilSecondsCanonical(dt);
    var jd := DayFromCivil(dt.year, dt.month, dt.day);
    assert jd >= 0;
    CivilFromDayFromCivil(Date(dt.year, dt.month, dt.day));
    DecomposeDayAndClock(dt, jd, t);
  }

  /** An instant made of a day and a time of day decomposes into them. */
  lemma DecomposeDayAndClock(dt: DateTime, jd: int, t: int)
    requires 0 <= dt.hour < 24 && 0 <= dt.min < 60 && 0 <= dt.sec < 60
    requires CivilFromDay(jd) == Date(dt.year, dt.month, dt.day)
    requires t == (jd - EPOCH) * SECONDS_PER_DAY + dt.hour * 3600 + dt.min * 60 + dt.sec
    requires t >= J0_TIME
    ensures Decompose(t) == dt
  {
    var secs := dt.hour * 3600 + dt.min * 60 + dt.sec;
    DivModUnique(t, SECONDS_PER_DAY, jd - EPOCH, secs);
    DivModUnique(secs, 3600, dt.hour, dt.min * 60 + dt.sec);
    DivModUnique(dt.min * 60 + dt.sec, 60, dt.min, dt.sec);
    DecomposeFields(t);
  }

  /** Month normalisation loses nothing: two field sets naming the same
      month count normalise alike. */
  lemma NormalizeMonthUnique(y1: int, m1: int, y2: int, m2: int)
    requires y1 * 12 + m1 == y2 * 12 + m2
    ensures NormalizeMonth(y1, m1) == NormalizeMonth(y2, m2)
  {
    var r1, r2 := NormalizeMonth(y1, m1), NormalizeMonth(y2, m2);
    DivModUnique(y1 * 12 + m1 - 1, 12, r1.0, r1.1 - 1);
    DivModUnique(y1 * 12 + m1 - 1, 12, r2.0, r2.1 - 1);
  }

  /** Twelve months past a month is the same month of the next year. */
  lemma MonthCarry(year: int, month: int, day: int, hour: int, min: int, sec: int)
    ensures CivilSeconds(year, month + 12, day, hour, min, sec) == CivilSeconds(year + 1, month, day, hour, min, sec)
  {
    NormalizeMonthUnique(year, month + 12, year + 1, month);
  }

  /** Days past the end of a month carry into the next month. */
  lemma DayCarry(year: int, month: int, day: int, hour: int, min: int, sec: int)
    requires 1 <= month <= 11
    ensures CivilSeconds(year, month, day + Days(year, month), hour, min, sec)
      == CivilSeconds(year, month + 1, day, hour, min, sec)
  {
    assert NormalizeMonth(year, month) == (year, month);
    assert NormalizeMonth(year, month + 1) == (year, month + 1);
    if year >= J0_YEAR {
      NewYearOffset(year, month, day + Days(year, month));
      NewYearOffset(year, month + 1, day);
    }
  }

  /** Days past the end of December carry into January of the next year
      (from the year of Julian Day 0 on: the year before it is refused
      however many days are added). */
  lemma YearCarry(year: int, day: int, hour: int, min: int, sec: int)
    requires year >= J0_YEAR
    ensures CivilSeconds(year, 12, day + 31, hour, min, sec) == CivilSeconds(year + 1, 1, day, hour, min, sec)
  {
    assert NormalizeMonth(year, 12) == (year, 12);
    assert NormalizeMonth(year + 1, 1) == (year + 1, 1);
    NewYearOffset(year, 12, day + 31);
    NewYearOffset(year + 1, 1, day);
    NextNewYear(year);
    DaysBeforeRule(year, 12);
    DaysBeforeRule(year, 13);
  }

  /** Instances of the carries: days past the end of a month flow into the
      following months, and negative days borrow from the earlier ones. */
  lemma FieldOverflow(hour: int, min: int, sec: int)
    ensures CivilSeconds(2014, 1, 32, hour, min, sec) == CivilSeconds(2014, 2, 1, hour, min, sec)
    ensures CivilSeconds(2014, 1, 60, hour, min, sec) == CivilSeconds(2014, 3, 1, hour, min, sec)
    ensures CivilSeconds(2014, 2, -61, hour, min, sec) == CivilSeconds(2013, 12, 1, hour, min, sec)
  {
    DayCarry(2014, 1, 1, hour, min, sec);
    DayCarry(2014, 1, 29, hour, min, sec);
    DayCarry(2014, 2, 1, hour, min, sec);
    DayCarry(2014, 1, -61, hour, min, sec);
    YearCarry(2013, -30, hour, min, sec);
  }

  /** The Unix epoch is Julian Day `EPOCH`, a Thursday. */
  lemma EpochLandmark()
    ensures CivilSeconds(1970, 1, 1, 0, 0, 0) == Some(0)
    ensures Weekday(EPOCH) == 5
  {
    assert NormalizeMonth(1970, 1) == (1970, 1);
    assert DayFromCivil(1970, 1, 1) == EPOCH by {
      ComposeSplit(1970, 1, 1);
      assert YearStart(1969) == 2472326;
    }
  }

  /** November 24, -4713 is Julian Day 0, the floor of the domain. */
  lemma JulianDayZero()
    ensures DayFromCivil(-4713, 11, 24) == 0
    ensures CivilFromDay(0) == Date(-4713, 11, 24)
  {
    ComposeSplit(-4713, 11, 24);
    assert YearStart(-4713) == 31776;
    CivilFromDayFromCivil(Date(-4713, 11, 24));
  }

  /** Julian Day 0 starts at `J0_TIME`, the floor of the domain of both
      directions. */
  lemma DomainFloor(hour: int, min: int, sec: int)
    ensures CivilSeconds(-4713, 11, 24, hour, min, sec) == Some(J0_TIME + hour * 3600 + min * 60 + sec)
  {
    assert NormalizeMonth(-4713, 11) == (-4713, 11);
    assert DayFromCivil(-4713, 11, 24) == 0 by {
      JulianDayZero();
    }
  }

  /** The first day of the domain decomposes as November 24, -4713. */
  lemma FirstDay(t: int)
    requires J0_TIME <= t < J0_TIME + SECONDS_PER_DAY
    ensures var dt := Decompose(t);
            (dt.year, dt.month, dt.day) == (-4713, 11, 24)
            && dt.hour * 3600 + dt.min * 60 + dt.sec == t - J0_TIME
  {
    DivModUnique(t, SECONDS_PER_DAY, -EPOCH, t - J0_TIME);
    var jd := JulianDay(t);
    assert jd == 0;
    JulianDayZero();
    assert CivilFromDay(jd) == Date(-4713, 11, 24);
  }

  /** Year -4714 is refused, for any month from 1 to 12 and any day and
      time of day. */
  lemma BeforeDomain(month: int, day: int, hour: int, min: int, sec: int)
    requires 1 <= month <= 12
    ensures CivilSeconds(-4714, month, day, hour, min, sec) == None
  {
    assert NormalizeMonth(-4714, month) == (-4714, month);
  }
}
