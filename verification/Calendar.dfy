/** The day-number arithmetic of the cron engine, and the proleptic Gregorian
    calendar it has to agree with. */
module Calendar {

  // ---- the code --------------------------------------------------------

  /** Integer division as the source language does it: towards zero. */
  function TruncDiv(a: int, b: int): (q: int)
    requires b > 0
    ensures a >= 0 ==> b * q <= a < b * q + b
    ensures a <= 0 ==> b * q - b < a <= b * q
  {
    if a >= 0 then a / b else -((-a) / b)
  }

  datatype Civil = Civil(year: int, month: int, day: int)

  /** The 400-year cycle that day `z` (counted from 0000-03-01) falls in. */
  function EraOf(z: int): int {
    TruncDiv(if z >= 0 then z else z - 146_096, 146_097)
  }

  /** Year of the cycle, from the day of the cycle. */
  function YearOfEra(doe: int): int {
    (doe - doe / 1460 + doe / 36_524 - doe / 146_096) / 365
  }

  /** Days of the cycle that lie before year `yoe` of it. */
  function YearStart(yoe: int): int {
    365 * yoe + yoe / 4 - yoe / 100
  }

  /** Days since 1970-01-01 to a calendar date. */
  function CivilFromDays(days: int): Civil {
    var z := days + 719_468;
    var era := EraOf(z);
    var doe := z - era * 146_097;
    var yoe := YearOfEra(doe);
    CivilOfYear(yoe + era * 400, doe - YearStart(yoe))
  }

  /** The date of day `doy` of the year that starts on March 1st of year `y`. */
  function CivilOfYear(y: int, doy: int): Civil {
    var mp := (5 * doy + 2) / 153;
    var d := doy - (153 * mp + 2) / 5 + 1;
    var m := if mp < 10 then mp + 3 else mp - 9;
    Civil(if m <= 2 then y + 1 else y, m, d)
  }

  // ---- the calendar ----------------------------------------------------

  predicate IsLeap(y: int) {
    y % 4 == 0 && (y % 100 != 0 || y % 400 == 0)
  }

  function DaysInMonth(y: int, m: int): int {
    if m == 2 then (if IsLeap(y) then 29 else 28)
    else if m == 4 || m == 6 || m == 9 || m == 11 then 30
    else 31
  }

  predicate IsDate(c: Civil) {
    1 <= c.month <= 12 && 1 <= c.day <= DaysInMonth(c.year, c.month)
  }

  /** The calendar day after `c`. */
  function NextDay(c: Civil): Civil {
    if c.day < DaysInMonth(c.year, c.month) then c.(day := c.day + 1)
    else if c.month < 12 then Civil(c.year, c.month + 1, 1)
    else Civil(c.year + 1, 1, 1)
  }

  /** Days from 0001-01-01 to January 1st of year `y`. */
  function DaysBeforeYear(y: int): int {
    365 * (y - 1) + (y - 1) / 4 - (y - 1) / 100 + (y - 1) / 400
  }

  /** Days of year `y` before month `m`. */
  function DaysBeforeMonth(y: int, m: int): int
    decreases m
  {
    if m <= 1 then 0 else DaysBeforeMonth(y, m - 1) + DaysInMonth(y, m - 1)
  }

  /** The inverse: a calendar date to days since 1970-01-01. */
  function DaysFromCivil(c: Civil): int {
    DaysBeforeYear(c.year) + DaysBeforeMonth(c.year, c.month) + c.day - 1 - 719_162
  }

  // ---- the proof -------------------------------------------------------

  lemma EraRange(z: int)
    ensures 0 <= z - EraOf(z) * 146_097 < 146_097
  {}

  /** Centuries, olympiads and years of a cycle: where `doe` falls among them,
      the year formula gives back the year. */
  lemma YearFromParts(c: int, k: int, j: int, doy: int)
    requires 0 <= c < 4 && 0 <= k < 25 && 0 <= j < 4 && 0 <= doy <= 365
    requires doy == 365 ==> j == 3 && (k == 24 ==> c == 3)
    ensures YearOfEra(36_524 * c + 1461 * k + 365 * j + doy) == 100 * c + 4 * k + j
  {
    var x := 365 * j + doy;
    var doe := 36_524 * c + 1461 * k + x;
    var carry := if 24 * c + k + x >= 1460 then 1 else 0;
    assert doe / 1460 == 25 * c + k + carry;
    var last := if doe == 146_096 then 1 else 0;
    assert doe / 146_096 == last;
    assert doe / 36_524 == c + last;
    assert doe - doe / 1460 + doe / 36_524 - doe / 146_096 == 365 * (100 * c + 4 * k + j) + doy - carry;
  }

  lemma StartFromParts(c: int, k: int, j: int)
    requires 0 <= c < 4 && 0 <= k < 25 && 0 <= j < 4
    ensures YearStart(100 * c + 4 * k + j) == 36_524 * c + 1461 * k + 365 * j
  {
    assert (100 * c + 4 * k + j) / 100 == c;
    assert (100 * c + 4 * k + j) / 4 == 25 * c + k;
  }

  /** The year formula lands on the year whose days contain `doe`. */
  lemma YearOfEraIsRight(doe: int)
    requires 0 <= doe < 146_097
    ensures var yoe := YearOfEra(doe);
      0 <= yoe < 400 && YearStart(yoe) <= doe <= YearStart(yoe) + 365
      && (doe == YearStart(yoe) + 365 ==> IsLeap(yoe + 1))
  {
    hide YearOfEra, YearStart;
    var c := if doe == 146_096 then 3 else doe / 36_524;
    var r := doe - 36_524 * c;
    var k := r / 1461;
    var x := r - 1461 * k;
    var j := if x == 1460 then 3 else x / 365;
    YearFromParts(c, k, j, x - 365 * j);
    StartFromParts(c, k, j);
  }

  /** January 1st of the year after March-based year `y`. */
  lemma YearStartIsMarch(era: int, yoe: int)
    requires 0 <= yoe < 400
    ensures var y := yoe + era * 400;
      era * 146_097 + YearStart(yoe) - 719_468
        == DaysBeforeYear(y) + DaysBeforeMonth(y, 3) - 719_162
  {
    hide IsLeap;
    var y := yoe + era * 400;
    assert DaysBeforeMonth(y, 3) == DaysInMonth(y, 1) + DaysInMonth(y, 2);
    LeapDays(y);
    assert y / 4 == 100 * era + yoe / 4;
    assert y / 100 == 4 * era + yoe / 100;
    assert y / 400 == era;
  }

  lemma MonthTable(y: int)
    ensures var l := if IsLeap(y) then 1 else 0;
      DaysBeforeMonth(y, 1) == 0 && DaysBeforeMonth(y, 2) == 31
      && DaysBeforeMonth(y, 3) == 59 + l && DaysBeforeMonth(y, 4) == 90 + l
      && DaysBeforeMonth(y, 5) == 120 + l && DaysBeforeMonth(y, 6) == 151 + l
      && DaysBeforeMonth(y, 7) == 181 + l && DaysBeforeMonth(y, 8) == 212 + l
      && DaysBeforeMonth(y, 9) == 243 + l && DaysBeforeMonth(y, 10) == 273 + l
      && DaysBeforeMonth(y, 11) == 304 + l && DaysBeforeMonth(y, 12) == 334 + l
  {
    assert DaysBeforeMonth(y, 3) == 59 + (if IsLeap(y) then 1 else 0);
    assert DaysBeforeMonth(y, 6) == DaysBeforeMonth(y, 3) + 92;
    assert DaysBeforeMonth(y, 9) == DaysBeforeMonth(y, 6) + 92;
  }

  /** The leap rule does not see which 400-year cycle a year is in. */
  lemma LeapByCycle(era: int, n: int)
    ensures IsLeap(n + era * 400) == IsLeap(n)
  {
    assert (n + era * 400) / 4 == n / 4 + 100 * era;
    assert (n + era * 400) / 100 == n / 100 + 4 * era;
    assert (n + era * 400) / 400 == n / 400 + era;
  }

  /** The month formula, on a day of a March-based year. */
  lemma MonthIsRight(y: int, doy: int)
    requires 0 <= doy <= 365 && (doy == 365 ==> IsLeap(y + 1))
    ensures IsDate(CivilOfYear(y, doy))
    ensures DaysFromCivil(CivilOfYear(y, doy))
      == DaysBeforeYear(y) + DaysBeforeMonth(y, 3) + doy - 719_162
  {
    hide IsLeap, DaysBeforeYear, DaysBeforeMonth;
    MonthTable(y);
    MonthTable(y + 1);
    YearLength(y);
    var mp := (5 * doy + 2) / 153;
    assert 0 <= mp <= 11;
  }

  lemma YearLength(y: int)
    ensures DaysBeforeYear(y + 1) == DaysBeforeYear(y) + (if IsLeap(y) then 366 else 365)
  {
    LeapDays(y);
  }

  /** A leap year adds one to the count of leap days before the next year. */
  lemma LeapDays(y: int)
    ensures y / 4 - y / 100 + y / 400
      == (y - 1) / 4 - (y - 1) / 100 + (y - 1) / 400 + (if IsLeap(y) then 1 else 0)
  {
    DivStep(y, 4);
    DivStep(y, 100);
    DivStep(y, 400);
    var q := y / 400;
    var r := y - 400 * q;
    assert y / 100 == 4 * q + r / 100;
    assert y / 4 == 100 * q + r / 4;
  }

  lemma DivStep(y: int, d: int)
    requires d > 1
    ensures y / d == (y - 1) / d + (if y % d == 0 then 1 else 0)
  {
    var q, r := (y - 1) / d, (y - 1) % d;
    if r + 1 == d {
      DivOf(y, d, q + 1, 0);
    } else {
      DivOf(y, d, q, r + 1);
    }
  }

  /** Quotient and remainder are the only ones. */
  lemma DivOf(n: int, d: int, q: int, r: int)
    requires d > 0 && 0 <= r < d && n == d * q + r
    ensures n / d == q && n % d == r
  {
    var k := n / d - q;
    assert d * k == r - n % d;
    assert k >= 1 ==> d * k >= d;
    assert k <= -1 ==> d * k <= -d;
  }

  /** The March-based year `y` and the day `doy` of it that day number `z` is. */
  lemma MarchDate(z: int) returns (y: int, doy: int)
    ensures CivilFromDays(z) == CivilOfYear(y, doy)
    ensures 0 <= doy <= 365 && (doy == 365 ==> IsLeap(y + 1))
    ensures z == DaysBeforeYear(y) + DaysBeforeMonth(y, 3) + doy - 719_162
  {
    hide EraOf, YearOfEra, YearStart, CivilOfYear, IsLeap, DaysBeforeYear, DaysBeforeMonth;
    var s := z + 719_468;
    var era := EraOf(s);
    EraRange(s);
    var doe := s - era * 146_097;
    YearOfEraIsRight(doe);
    var yoe := YearOfEra(doe);
    YearStartIsMarch(era, yoe);
    LeapByCycle(era, yoe + 1);
    y, doy := yoe + era * 400, doe - YearStart(yoe);
  }

  /** Every day number gives a date that exists, and the date gives it back. */
  lemma CivilInverse(z: int)
    ensures IsDate(CivilFromDays(z)) && DaysFromCivil(CivilFromDays(z)) == z
  {
    var y, doy := MarchDate(z);
    MonthIsRight(y, doy);
  }

  lemma {:induction false} YearsAreOrdered(y: int, n: int)
    requires y <= n
    ensures DaysBeforeYear(y) <= DaysBeforeYear(n)
    decreases n - y
  {
    if y < n {
      YearLength(n - 1);
      YearsAreOrdered(y, n - 1);
    }
  }

  lemma {:induction false} MonthsAreOrdered(y: int, m: int, n: int)
    requires 1 <= m < n <= 12
    ensures DaysBeforeMonth(y, m) + DaysInMonth(y, m) <= DaysBeforeMonth(y, n)
    decreases n - m
  {
    if m + 1 < n {
      MonthsAreOrdered(y, m, n - 1);
    }
  }

  /** A date lies in its own year, and in its own month of that year. */
  lemma DayOfYear(c: Civil)
    requires IsDate(c)
    ensures DaysBeforeYear(c.year) - 719_162 <= DaysFromCivil(c) < DaysBeforeYear(c.year + 1) - 719_162
  {
    hide DaysBeforeYear, IsLeap;
    MonthTable(c.year);
    YearLength(c.year);
  }

  lemma DatesAreDistinct(a: Civil, b: Civil)
    requires IsDate(a) && IsDate(b) && DaysFromCivil(a) == DaysFromCivil(b)
    ensures a == b
  {
    DayOfYear(a);
    DayOfYear(b);
    hide DaysBeforeYear, DaysBeforeMonth, DaysInMonth;
    if a.year < b.year {
      YearsAreOrdered(a.year + 1, b.year);
    } else if b.year < a.year {
      YearsAreOrdered(b.year + 1, a.year);
    } else if a.month < b.month {
      MonthsAreOrdered(a.year, a.month, b.month);
    } else if b.month < a.month {
      MonthsAreOrdered(a.year, b.month, a.month);
    }
  }

  /** The other direction: every date that exists is the date of its day number. */
  lemma CivilOfDate(c: Civil, z: int)
    requires IsDate(c) && DaysFromCivil(c) == z
    ensures CivilFromDays(z) == c
  {
    CivilInverse(z);
    DatesAreDistinct(CivilFromDays(z), c);
  }

  lemma NextDayCounts(c: Civil)
    requires IsDate(c)
    ensures IsDate(NextDay(c)) && DaysFromCivil(NextDay(c)) == DaysFromCivil(c) + 1
  {
    if c.day == DaysInMonth(c.year, c.month) && c.month == 12 {
      MonthTable(c.year);
      YearLength(c.year);
    }
  }

  /** Consecutive day numbers are consecutive calendar days. */
  lemma CivilStep(z: int)
    ensures CivilFromDays(z + 1) == NextDay(CivilFromDays(z))
  {
    CivilInverse(z);
    var c := CivilFromDays(z);
    NextDayCounts(c);
    CivilOfDate(NextDay(c), z + 1);
  }

  /** Where the count starts. */
  lemma Epoch()
    ensures CivilFromDays(0) == Civil(1970, 1, 1)
  {
    CivilOfDate(Civil(1970, 1, 1), 0);
  }
}
