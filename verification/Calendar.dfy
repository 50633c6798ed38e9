/**
 * The calendar arithmetic of crates/iroh-rooms-cli/src/display.rs: the conversion of a day
 * number to a proleptic Gregorian date, checked against an independent calendar (leap rule,
 * month lengths, successor of a date, day count).
 */
module Calendar {

  // ---------------------------------------------------------------------------
  // The reference calendar
  // ---------------------------------------------------------------------------

  datatype Date = Date(year: int, month: int, day: int)

  predicate IsLeap(y: int) {
    y % 4 == 0 && (y % 100 != 0 || y % 400 == 0)
  }

  function DaysInMonth(y: int, m: int): (n: int)
    requires 1 <= m <= 12
    ensures 28 <= n <= 31
  {
    if m == 2 then (if IsLeap(y) then 29 else 28)
    else if m == 4 || m == 6 || m == 9 || m == 11 then 30
    else 31
  }

  predicate ValidDate(t: Date) {
    1 <= t.month <= 12 && 1 <= t.day <= DaysInMonth(t.year, t.month)
  }

  /** The calendar date that follows `t`. */
  function NextDate(t: Date): (n: Date)
    requires ValidDate(t)
    ensures ValidDate(n)
  {
    if t.day < DaysInMonth(t.year, t.month) then t.(day := t.day + 1)
    else if t.month < 12 then Date(t.year, t.month + 1, 1)
    else Date(t.year + 1, 1, 1)
  }

  /** Chronological order of dates is lexicographic order of their fields. */
  predicate Before(a: Date, b: Date) {
    a.year < b.year
    || (a.year == b.year && (a.month < b.month || (a.month == b.month && a.day < b.day)))
  }

  /** Days from 0001-01-01 to January 1st of year `y`: 365 a year plus the leap days before `y`. */
  function DaysBeforeYear(y: int): int {
    365 * (y - 1) + (y - 1) / 4 - (y - 1) / 100 + (y - 1) / 400
  }

  /** Days of year `y` before the first of month `m`. */
  function DaysBeforeMonth(y: int, m: int): int
    requires 1 <= m <= 12
    decreases m
  {
    if m == 1 then 0 else DaysBeforeMonth(y, m - 1) + DaysInMonth(y, m - 1)
  }

  const EPOCH_OFFSET: int := 719_162 // days from 0001-01-01 to 1970-01-01

  /** The day number of a date, counted from 1970-01-01. */
  function DayNumber(t: Date): int
    requires 1 <= t.month <= 12
  {
    DaysBeforeYear(t.year) + DaysBeforeMonth(t.year, t.month) + t.day - 1 - EPOCH_OFFSET
  }

  /** The quotient and remainder of a division are determined by the division identity. */
  lemma QuotientIs(x: int, k: int, q: int, r: int)
    requires k > 0 && x == k * q + r && 0 <= r < k
    ensures x / k == q && x % k == r
  {
    var d := x / k - q;
    assert k * d == r - x % k;
  }

  lemma FloorStep(y: int, k: int)
    requires k > 1
    ensures y / k == (y - 1) / k + (if y % k == 0 then 1 else 0)
  {
    if y % k == 0 {
      QuotientIs(y - 1, k, y / k - 1, k - 1);
    } else {
      QuotientIs(y - 1, k, y / k, y % k - 1);
    }
  }

  lemma MultiplesNest(y: int)
    ensures y % 400 == 0 ==> y % 100 == 0
    ensures y % 100 == 0 ==> y % 4 == 0
  {
    if y % 100 == 0 {
      QuotientIs(y, 4, 25 * (y / 100), 0);
    }
    if y % 400 == 0 {
      QuotientIs(y, 100, 4 * (y / 400), 0);
    }
  }

  lemma YearLength(y: int)
    ensures DaysBeforeYear(y + 1) == DaysBeforeYear(y) + (if IsLeap(y) then 366 else 365)
  {
    FloorStep(y, 4);
    FloorStep(y, 100);
    FloorStep(y, 400);
    MultiplesNest(y);
  }

  lemma MonthTable(y: int)
    ensures DaysBeforeMonth(y, 1) == 0
    ensures DaysBeforeMonth(y, 2) == 31
    ensures var l := if IsLeap(y) then 1 else 0;
            && DaysBeforeMonth(y, 3) == 59 + l
            && DaysBeforeMonth(y, 4) == 90 + l
            && DaysBeforeMonth(y, 5) == 120 + l
            && DaysBeforeMonth(y, 6) == 151 + l
            && DaysBeforeMonth(y, 7) == 181 + l
            && DaysBeforeMonth(y, 8) == 212 + l
            && DaysBeforeMonth(y, 9) == 243 + l
            && DaysBeforeMonth(y, 10) == 273 + l
            && DaysBeforeMonth(y, 11) == 304 + l
            && DaysBeforeMonth(y, 12) == 334 + l
  {
    assert DaysBeforeMonth(y, 3) == DaysBeforeMonth(y, 2) + DaysInMonth(y, 2);
    assert DaysBeforeMonth(y, 4) == DaysBeforeMonth(y, 3) + DaysInMonth(y, 3);
    assert DaysBeforeMonth(y, 5) == DaysBeforeMonth(y, 4) + DaysInMonth(y, 4);
    assert DaysBeforeMonth(y, 6) == DaysBeforeMonth(y, 5) + DaysInMonth(y, 5);
    assert DaysBeforeMonth(y, 7) == DaysBeforeMonth(y, 6) + DaysInMonth(y, 6);
    assert DaysBeforeMonth(y, 8) == DaysBeforeMonth(y, 7) + DaysInMonth(y, 7);
    assert DaysBeforeMonth(y, 9) == DaysBeforeMonth(y, 8) + DaysInMonth(y, 8);
    assert DaysBeforeMonth(y, 10) == DaysBeforeMonth(y, 9) + DaysInMonth(y, 9);
    assert DaysBeforeMonth(y, 11) == DaysBeforeMonth(y, 10) + DaysInMonth(y, 10);
    assert DaysBeforeMonth(y, 12) == DaysBeforeMonth(y, 11) + DaysInMonth(y, 11);
  }

  /** The day number counts dates one by one. */
  lemma DayNumberOfNextDate(t: Date)
    requires ValidDate(t)
    ensures DayNumber(NextDate(t)) == DayNumber(t) + 1
  {
    MonthTable(t.year);
    MonthTable(t.year + 1);
    YearLength(t.year);
  }

  lemma {:induction false} LaterYearStartsLater(a: int, b: int)
    requires a <= b
    ensures DaysBeforeYear(a) + 365 * (b - a) <= DaysBeforeYear(b)
    decreases b - a
  {
    if a < b {
      LaterYearStartsLater(a, b - 1);
      YearLength(b - 1);
    }
  }

  lemma DateInsideYear(t: Date)
    requires ValidDate(t)
    ensures DaysBeforeYear(t.year) <= DayNumber(t) + EPOCH_OFFSET < DaysBeforeYear(t.year + 1)
  {
    MonthTable(t.year);
    YearLength(t.year);
  }

  /** Day numbers order valid dates chronologically. */
  lemma DayNumberIsMonotone(a: Date, b: Date)
    requires ValidDate(a) && ValidDate(b) && Before(a, b)
    ensures DayNumber(a) < DayNumber(b)
  {
    if a.year < b.year {
      DateInsideYear(a);
      DateInsideYear(b);
      LaterYearStartsLater(a.year + 1, b.year);
    } else {
      MonthTable(a.year);
    }
  }

  // ---------------------------------------------------------------------------
  // civil_from_days
  // ---------------------------------------------------------------------------

  const I64_MIN: int := -0x8000_0000_0000_0000
  const I64_MAX: int := 0x7fff_ffff_ffff_ffff

  predicate InI64(x: int) { I64_MIN <= x <= I64_MAX }

  /** Rust's `/` on signed integers: the quotient is truncated towards zero. */
  function TruncDiv(a: int, b: int): int
    requires b > 0
  {
    if a >= 0 then a / b else -((-a) / b)
  }

  /** Every value `civil_from_days` computes on the way, by the name it has there. */
  datatype Steps = Steps(shifted: int, era: int, doe: int, yoe: int, y: int, doy: int, mp: int, d: int, m: int)

  function CivilSteps(z: int): Steps {
    var shifted := z + 719_468;
    var era := TruncDiv(if shifted >= 0 then shifted else shifted - 146_096, 146_097);
    var doe := shifted - era * 146_097;
    var yoe := TruncDiv(doe - TruncDiv(doe, 1_460) + TruncDiv(doe, 36_524) - TruncDiv(doe, 146_096), 365);
    var y := yoe + era * 400;
    var doy := doe - (365 * yoe + TruncDiv(yoe, 4) - TruncDiv(yoe, 100));
    var mp := TruncDiv(5 * doy + 2, 153);
    var d := doy - TruncDiv(153 * mp + 2, 5) + 1;
    var m := if mp < 10 then mp + 3 else mp - 9;
    Steps(shifted, era, doe, yoe, y, doy, mp, d, m)
  }

  function DateOf(s: Steps): Date {
    Date(if s.m <= 2 then s.y + 1 else s.y, s.m, s.d)
  }

  function CivilFromDays(z: int): Date {
    DateOf(CivilSteps(z))
  }

  /** The adjusted truncating division is a floor division, so the day of era is in range. */
  lemma EraIsFloor(z: int)
    ensures var s := CivilSteps(z);
            s.era == s.shifted / 146_097 && 0 <= s.doe <= 146_096
  {
    var shifted := z + 719_468;
    if shifted < 0 {
      var k := -(shifted - 146_096);
      assert CivilSteps(z).era == -(k / 146_097);
    }
  }

  /** Days of an era before its `k`th year, years running from March to February. */
  function MarchYearStart(k: int): int { 365 * k + k / 4 - k / 100 }

  /** A day of the era, split into centuries, four-year cycles, years and days. */
  lemma SplitDayOfEra(doe: int) returns (c: int, q: int, t: int, u: int)
    requires 0 <= doe <= 146_096
    ensures 0 <= c <= 3 && 0 <= q <= 24 && 0 <= t <= 3 && 0 <= u <= 365
    ensures doe == 36_524 * c + 1_461 * q + 365 * t + u
    ensures u == 365 ==> t == 3 && (q < 24 || c == 3)
  {
    c := if doe == 146_096 then 3 else doe / 36_524;
    var r := doe - 36_524 * c;
    q := r / 1_461;
    var s := r - 1_461 * q;
    t := if s == 1_460 then 3 else s / 365;
    u := s - 365 * t;
  }

  /** The year of era found by the corrected division is the year that contains the day. */
  lemma YearOfEra(doe: int, c: int, q: int, t: int, u: int)
    requires 0 <= c <= 3 && 0 <= q <= 24 && 0 <= t <= 3 && 0 <= u <= 365
    requires doe == 36_524 * c + 1_461 * q + 365 * t + u
    requires u == 365 ==> t == 3 && (q < 24 || c == 3)
    ensures 0 <= doe <= 146_096
    ensures (doe - doe / 1_460 + doe / 36_524 - doe / 146_096) / 365 == 100 * c + 4 * q + t
  {
    var s := 365 * t + u;
    var b := if 24 * c + q + s >= 1_460 then 1 else 0;
    QuotientIs(doe, 1_460, 25 * c + q + b, 24 * c + q + s - 1_460 * b);
    if doe == 146_096 {
      QuotientIs(doe, 36_524, 4, 0);
      QuotientIs(doe, 146_096, 1, 0);
    } else {
      QuotientIs(doe, 36_524, c, 1_461 * q + s);
      QuotientIs(doe, 146_096, 0, doe);
    }
    var k := 100 * c + 4 * q + t;
    QuotientIs(doe - doe / 1_460 + doe / 36_524 - doe / 146_096, 365, k, u - b);
  }

  lemma YearOfEraStart(c: int, q: int, t: int)
    requires 0 <= c <= 3 && 0 <= q <= 24 && 0 <= t <= 3
    ensures MarchYearStart(100 * c + 4 * q + t) == 36_524 * c + 1_461 * q + 365 * t
  {
    var k := 100 * c + 4 * q + t;
    QuotientIs(k, 4, 25 * c + q, t);
    QuotientIs(k, 100, c, 4 * q + t);
  }

  /** The month and day of month computed from the day of a March-based year. */
  lemma MonthOfMarchYear(doy: int)
    requires 0 <= doy <= 365
    ensures var mp := (5 * doy + 2) / 153;
            0 <= mp <= 11 && 0 <= doy - (153 * mp + 2) / 5 <= 30
  {}

  lemma MarchMonthTable(mp: int)
    requires 0 <= mp <= 11
    ensures (153 * mp + 2) / 5 ==
            [0, 31, 61, 92, 122, 153, 184, 214, 245, 275, 306, 337][mp]
  {}

  /** The first of March of year `y` is 306 days before the next new year. */
  lemma MarchFirst(era: int, k: int)
    requires 0 <= k <= 399
    ensures DaysBeforeYear(400 * era + k + 1) == 146_097 * era + MarchYearStart(k)
  {
    var y := 400 * era + k;
    QuotientIs(y, 4, 100 * era + k / 4, k % 4);
    QuotientIs(y, 100, 4 * era + k / 100, k % 100);
    QuotientIs(y, 400, era, k);
  }

  /** The date `mp` months and `d - 1` days after the first of March of year `y`. */
  lemma DateFromMarch(y: int, mp: int, d: int)
    requires 0 <= mp <= 11
    ensures var m := if mp < 10 then mp + 3 else mp - 9;
            DayNumber(Date(if m <= 2 then y + 1 else y, m, d)) ==
            DaysBeforeYear(y + 1) - 306 + (153 * mp + 2) / 5 + d - 1 - EPOCH_OFFSET
  {
    MarchMonthTable(mp);
    MonthTable(y);
    MonthTable(y + 1);
    YearLength(y);
  }

  /** Days of month never overrun: the March-based month table agrees with month lengths. */
  lemma DayFitsMonth(y: int, doy: int)
    requires 0 <= doy <= 365 && (doy == 365 ==> IsLeap(y + 1))
    ensures var mp := (5 * doy + 2) / 153;
            var m := if mp < 10 then mp + 3 else mp - 9;
            ValidDate(Date(if m <= 2 then y + 1 else y, m, doy - (153 * mp + 2) / 5 + 1))
  {
    MonthOfMarchYear(doy);
    MarchMonthTable((5 * doy + 2) / 153);
  }

  /** What the intermediate values mean: era, year of era and day of year locate the day. */
  ghost predicate Explains(s: Steps) {
    && 0 <= s.doe <= 146_096 && 0 <= s.yoe <= 399 && 0 <= s.doy <= 365 && 0 <= s.mp <= 11
    && s.shifted == 146_097 * s.era + MarchYearStart(s.yoe) + s.doy
    && s.y == 400 * s.era + s.yoe
    && s.mp == (5 * s.doy + 2) / 153
    && s.d == s.doy - (153 * s.mp + 2) / 5 + 1
    && s.m == (if s.mp < 10 then s.mp + 3 else s.mp - 9)
    && (s.doy == 365 ==> IsLeap(s.y + 1))
  }

  lemma CivilStepsExplained(z: int)
    ensures Explains(CivilSteps(z))
  {
    EraIsFloor(z);
    var s := CivilSteps(z);
    var c, q, t, u := SplitDayOfEra(s.doe);
    YearOfEra(s.doe, c, q, t, u);
    YearOfEraStart(c, q, t);
    assert s.yoe == 100 * c + 4 * q + t;
    assert s.doy == u;
    MonthOfMarchYear(u);
    if u == 365 {
      assert s.y + 1 == 400 * s.era + 100 * c + 4 * (q + 1);
      LeapAfterFourYears(s.era, c, q);
    }
  }

  lemma LeapAfterFourYears(era: int, c: int, q: int)
    requires 0 <= c <= 3 && 0 <= q <= 24 && (q < 24 || c == 3)
    ensures IsLeap(400 * era + 100 * c + 4 * (q + 1))
  {
    var y := 400 * era + 100 * c + 4 * (q + 1);
    QuotientIs(y, 4, 100 * era + 25 * c + q + 1, 0);
    if q == 24 {
      QuotientIs(y, 400, era + 1, 0);
    } else {
      QuotientIs(y, 100, 4 * era + c, 4 * (q + 1));
    }
  }

  lemma ExplainedDate(s: Steps)
    requires Explains(s)
    ensures ValidDate(DateOf(s))
    ensures DayNumber(DateOf(s)) == s.shifted - 719_468
  {
    DayFitsMonth(s.y, s.doy);
    MarchFirst(s.era, s.yoe);
    DateFromMarch(s.y, s.mp, s.d);
  }

  /** The computed date is a real date, and its day number is the input. */
  lemma CivilHasDayNumber(z: int)
    ensures ValidDate(CivilFromDays(z))
    ensures DayNumber(CivilFromDays(z)) == z
  {
    CivilStepsExplained(z);
    ExplainedDate(CivilSteps(z));
  }

  lemma SameDayNumberSameDate(r: Date, t: Date)
    requires ValidDate(r) && ValidDate(t) && DayNumber(r) == DayNumber(t)
    ensures r == t
  {
    if Before(r, t) {
      DayNumberIsMonotone(r, t);
    } else if Before(t, r) {
      DayNumberIsMonotone(t, r);
    }
  }

  /** Every real date is the result of converting its own day number. */
  lemma CivilInvertsDayNumber(z: int, t: Date)
    requires ValidDate(t) && DayNumber(t) == z
    ensures CivilFromDays(z) == t
  {
    CivilHasDayNumber(z);
    SameDayNumberSameDate(CivilFromDays(z), t);
  }

  lemma CivilAfter(z: int, t: Date)
    requires ValidDate(t) && DayNumber(t) == z
    ensures CivilFromDays(z + 1) == NextDate(t)
  {
    DayNumberOfNextDate(t);
    CivilInvertsDayNumber(z + 1, NextDate(t));
  }

  /** Consecutive day numbers are consecutive calendar dates. */
  lemma CivilStepsThroughCalendar(z: int)
    ensures ValidDate(CivilFromDays(z))
    ensures CivilFromDays(z + 1) == NextDate(CivilFromDays(z))
  {
    CivilHasDayNumber(z);
    CivilAfter(z, CivilFromDays(z));
  }

  /** Day zero is the Unix epoch; with the successor law this fixes every date. */
  lemma CivilOfEpoch()
    ensures CivilFromDays(0) == Date(1970, 1, 1)
  {
    MonthTable(1970);
    assert DayNumber(Date(1970, 1, 1)) == 0;
    CivilInvertsDayNumber(0, Date(1970, 1, 1));
  }

  /** Dates come out in the order of their day numbers, both ways. */
  lemma CivilIsMonotone(a: int, b: int)
    ensures a < b <==> Before(CivilFromDays(a), CivilFromDays(b))
  {
    CivilHasDayNumber(a);
    CivilHasDayNumber(b);
    var s, t := CivilFromDays(a), CivilFromDays(b);
    if Before(s, t) {
      DayNumberIsMonotone(s, t);
    } else if Before(t, s) {
      DayNumberIsMonotone(t, s);
    }
  }

  /** Every intermediate result of the conversion, including the operands of its divisions. */
  ghost predicate NoOverflow(z: int) {
    var s := CivilSteps(z);
    && InI64(s.shifted)
    && InI64(if s.shifted >= 0 then s.shifted else s.shifted - 146_096)
    && InI64(s.era) && InI64(s.era * 146_097) && InI64(s.doe)
    && InI64(s.doe - TruncDiv(s.doe, 1_460))
    && InI64(s.doe - TruncDiv(s.doe, 1_460) + TruncDiv(s.doe, 36_524))
    && InI64(s.doe - TruncDiv(s.doe, 1_460) + TruncDiv(s.doe, 36_524) - TruncDiv(s.doe, 146_096))
    && InI64(s.yoe) && InI64(s.era * 400) && InI64(s.y)
    && InI64(365 * s.yoe) && InI64(365 * s.yoe + TruncDiv(s.yoe, 4))
    && InI64(365 * s.yoe + TruncDiv(s.yoe, 4) - TruncDiv(s.yoe, 100)) && InI64(s.doy)
    && InI64(5 * s.doy) && InI64(5 * s.doy + 2) && InI64(s.mp)
    && InI64(153 * s.mp) && InI64(153 * s.mp + 2)
    && InI64(s.doy - TruncDiv(153 * s.mp + 2, 5)) && InI64(s.d)
    && InI64(s.m) && InI64(if s.m <= 2 then s.y + 1 else s.y)
  }

  /** The first addition is the only one that can overflow, and only at the top of the range. */
  lemma OverflowExactly(z: int)
    requires InI64(z)
    ensures NoOverflow(z) <==> z <= I64_MAX - 719_468
  {
    CivilStepsExplained(z);
    EraIsFloor(z);
    MarchMonthTable(CivilSteps(z).mp);
  }
}
