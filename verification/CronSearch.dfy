/** The search for the next instant at which a cron expression fires. */
module CronSearch {
  import opened Options
  import opened Text
  import opened Calendar
  import opened Cron

  const DAY := 86_400
  const WINDOW := 366 * DAY

  /** The instant at which the search starts. */
  function FirstMinute(from: int): int {
    (TruncDiv(from, 60) + 1) * 60
  }

  /** `t` is a whole minute inside the search window. */
  predicate Candidate(t: int, from: int) {
    t % 60 == 0 && FirstMinute(from) <= t <= FirstMinute(from) + WINDOW
  }

  /** The expression matches the local wall clock `offset` minutes east of UTC. */
  predicate Fires(expr: string, offset: int, t: int) {
    Matches(expr, FieldsFromUnix(t + offset * 60))
  }

  /** The minute-by-minute reading of "next occurrence". */
  ghost predicate IsNext(expr: string, from: int, offset: int, r: Option<int>) {
    match r
    case Some(t) => IsValid(expr) && Candidate(t, from) && Fires(expr, offset, t)
      && forall u :: Candidate(u, from) && u < t ==> !Fires(expr, offset, u)
    case None => IsValid(expr) ==> forall u :: Candidate(u, from) ==> !Fires(expr, offset, u)
  }

  /** The local midnight after `t`. */
  function NextMidnight(t: int, shift: int): int {
    var local := t + shift;
    (local / DAY + 1) * DAY - shift
  }

  method NextAfter(expr: string, from: int, offset: int) returns (r: Option<int>)
    ensures IsNext(expr, from, offset, r)
  {
    hide CivilFromDays, PartMatches, PartValid, FieldMatches, FieldsFromUnix, DateMatches, Fires, IsValid;
    hide FirstMinute, NextMidnight;
    if !IsValid(expr) {
      return None;
    }
    var parts := SplitWhitespace(expr);
    var shift := offset * 60;
    ValidHasParts(expr);
    StartIsWhole(from);
    var t := FirstMinute(from);
    var limit := t + WINDOW;
    while t <= limit
      invariant t % 60 == 0 && FirstMinute(from) <= t
      invariant forall u :: Candidate(u, from) && u < t ==> !Fires(expr, offset, u)
      decreases limit - t
    {
      var f := FieldsFromUnix(t + shift);
      FiresIs(expr, offset, t);
      if !DateMatches(parts, f) {
        ghost var was := t;
        t := NextMidnight(t, shift);
        MidnightIsWhole(was, offset);
        forall u | Candidate(u, from) && was <= u < t
          ensures !Fires(expr, offset, u)
        {
          SameDayNoFire(expr, offset, was, u);
        }
        continue;
      }
      if FieldMatches(parts[1], f.hour, 0, 23) && FieldMatches(parts[0], f.minute, 0, 59) {
        return Some(t);
      }
      t := t + 60;
    }
    return None;
  }

  lemma ValidHasParts(expr: string)
    requires IsValid(expr)
    ensures |SplitWhitespace(expr)| == 5
  {}

  lemma FiresIs(expr: string, offset: int, t: int)
    requires |SplitWhitespace(expr)| == 5
    ensures var parts, f := SplitWhitespace(expr), FieldsFromUnix(t + offset * 60);
      Fires(expr, offset, t) <==>
        DateMatches(parts, f) && FieldMatches(parts[0], f.minute, 0, 59) && FieldMatches(parts[1], f.hour, 0, 23)
  {
    hide FieldsFromUnix, FieldMatches, DateMatches;
  }

  /** No minute of a local day fires if the date does not match. */
  lemma SameDayNoFire(expr: string, offset: int, t: int, u: int)
    requires |SplitWhitespace(expr)| == 5
    requires !DateMatches(SplitWhitespace(expr), FieldsFromUnix(t + offset * 60))
    requires t <= u < NextMidnight(t, offset * 60)
    ensures !Fires(expr, offset, u)
  {
    hide FieldsFromUnix, FieldMatches, Fires;
    SameLocalDay(t + offset * 60, u + offset * 60);
    FiresIs(expr, offset, u);
  }

  lemma MidnightIsWhole(t: int, offset: int)
    requires t % 60 == 0
    ensures var n := NextMidnight(t, offset * 60);
      n % 60 == 0 && t < n && (n + offset * 60) % DAY == 0
  {
    var q := (t + offset * 60) / DAY;
    assert ((q + 1) * DAY - offset * 60) == 60 * ((q + 1) * 1440 - offset);
  }

  lemma StartIsWhole(from: int)
    ensures FirstMinute(from) % 60 == 0
  {}

  /** Two instants of one day have the same date. */
  lemma SameLocalDay(a: int, b: int)
    requires a <= b < (a / DAY + 1) * DAY
    ensures var f, g := FieldsFromUnix(a), FieldsFromUnix(b);
      f.dom == g.dom && f.month == g.month && f.dow == g.dow
  {
    assert a / DAY == b / DAY;
  }

  /** The scheduler looks at the current second: it fires in every second of a
      minute whose first second fires, and in no other. */
  lemma WholeMinuteFires(expr: string, offset: int, t: int, s: nat)
    requires t % 60 == 0 && s < 60
    ensures Fires(expr, offset, t + s) <==> Fires(expr, offset, t)
  {
    var a := t + offset * 60;
    hide CivilFromDays, PartMatches, FieldMatches, DateMatches;
    assert a % 60 == 0;
    assert (a + s) / DAY == a / DAY;
    assert ((a + s) % DAY) / 60 == (a % DAY) / 60;
    assert ((a + s) % DAY) / 3600 == (a % DAY) / 3600;
    assert FieldsFromUnix(a + s) == FieldsFromUnix(a);
  }

  /** The search starts at the first whole minute after `from`, except that a
      negative `from` inside a minute makes it skip that minute's end. */
  lemma StartIsNextMinute(from: int)
    ensures FirstMinute(from) % 60 == 0 && from < FirstMinute(from) <= from + 120
    ensures (forall u :: from < u < FirstMinute(from) ==> u % 60 != 0) <==> (from >= 0 || from % 60 == 0)
  {
    if from < 0 && from % 60 != 0 {
      assert (FirstMinute(from) - 60) % 60 == 0;
      assert from < FirstMinute(from) - 60;
    }
  }

  // ---- what is found ---------------------------------------------------

  /** The instant is one of those the expression means, on a clock `offset` minutes east. */
  predicate MeansAt(e: Expr, offset: int, t: int)
    requires ExprInRange(e)
  {
    ExprMeans(e, FieldsFromUnix(t + offset * 60))
  }

  /** For any accepted text and any second not before 1970: the search returns the least
      whole minute after that second that the expression means, if there is one within
      366 days of the next whole minute, and else None. */
  lemma SearchMeans(e: Expr, gaps: Gaps, from: nat, offset: int, r: Option<int>)
    requires IsNext(ExprText(e, gaps), from, offset, r) && ExprInRange(e)
    ensures var last := from - from % 60 + 60 + 366 * 24 * 3600;
      match r
      case Some(t) =>
        && t % 60 == 0 && from < t <= last && MeansAt(e, offset, t)
        && forall u :: u % 60 == 0 && from < u < t ==> !MeansAt(e, offset, u)
      case None => forall u :: u % 60 == 0 && from < u <= last ==> !MeansAt(e, offset, u)
  {
    hide ExprText, IsValid, ExprInRange, Matches, ExprMeans, FieldsFromUnix, FirstMinute;
    ExprTextMeans(e, gaps, FieldsFromUnix(0));
    StartAfter(from);
    forall u: int
      ensures Fires(ExprText(e, gaps), offset, u) <==> MeansAt(e, offset, u)
    {
      ExprTextMeans(e, gaps, FieldsFromUnix(u + offset * 60));
    }
    forall u: int | u % 60 == 0 && from < u
      ensures FirstMinute(from) <= u
    {
      MinuteAfter(from, u);
    }
  }

  lemma StartAfter(from: nat)
    ensures FirstMinute(from) == from - from % 60 + 60
  {}

  lemma MinuteAfter(from: nat, u: int)
    requires u % 60 == 0 && from < u
    ensures FirstMinute(from) <= u
  {
    assert u == 60 * (u / 60) && from == 60 * (from / 60) + from % 60;
  }

  // ---- how far the window reaches --------------------------------------

  /** The parts of an instant, put together. */
  lemma FieldsAt(day: int, h: nat, m: nat)
    requires h < 24 && m < 60
    ensures var f := FieldsFromUnix(day * DAY + h * 3600 + m * 60);
      var c := CivilFromDays(day);
      f == Fields(m, h, f.dom, f.month, (day % 7 + 4) % 7) && f.dom == c.day && f.month == c.month
  {
    hide CivilFromDays;
    ClockOfDay(day, h * 3600 + m * 60);
    HourAndMinute(h, m);
  }

  lemma ClockOfDay(day: int, clock: nat)
    requires clock < DAY
    ensures (day * DAY + clock) / DAY == day && (day * DAY + clock) % DAY == clock
  {}

  lemma HourAndMinute(h: nat, m: nat)
    requires h < 24 && m < 60
    ensures var clock := h * 3600 + m * 60;
      clock < DAY && clock / 3600 == h && (clock / 60) % 60 == m
  {
    assert (h * 3600 + m * 60) / 60 == h * 60 + m;
  }

  /** A fire at a known local instant inside the window bounds what the search returns. */
  lemma FoundBy(expr: string, from: int, offset: int, r: Option<int>, day: int, h: nat, m: nat, reach: nat)
    requires IsNext(expr, from, offset, r) && IsValid(expr)
    requires h < 24 && m < 60
    requires MatchesParts(SplitWhitespace(expr), FieldsFromUnix(day * DAY + h * 3600 + m * 60))
    requires var t := day * DAY + h * 3600 + m * 60 - offset * 60;
      FirstMinute(from) <= t <= FirstMinute(from) + reach && reach <= WINDOW
    ensures r.Some? && r.value <= FirstMinute(from) + reach
  {
    hide CivilFromDays, PartMatches, PartValid, FieldMatches, FieldsFromUnix, TruncDiv;
    var t := day * DAY + h * 3600 + m * 60 - offset * 60;
    assert t == 60 * (day * 1440 + h * 60 + m - offset);
    assert Candidate(t, from) && Fires(expr, offset, t);
  }

  /** Every date is a day the two date fields let through. */
  ghost predicate EveryDate(parts: seq<string>)
    requires |parts| == 5
  {
    && (forall d :: 1 <= d <= 31 ==> FieldMatches(parts[2], d, 1, 31))
    && (forall m :: 1 <= m <= 12 ==> FieldMatches(parts[3], m, 1, 12))
  }

  lemma StarIsEveryDate(parts: seq<string>)
    requires |parts| == 5 && parts[2] == "*" && parts[3] == "*"
    ensures EveryDate(parts)
  {
    SplitOfLastPiece("*", ',');
    TrimNothing("*");
    assert Trim(Split("*", ',')[0]) == "*";
  }

  /** A clock time of an accepted expression. */
  lemma SomeClock(parts: seq<string>) returns (h: nat, m: nat)
    requires |parts| == 5 && ValidParts(parts)
    ensures h < 24 && m < 60 && FieldMatches(parts[1], h, 0, 23) && FieldMatches(parts[0], m, 0, 59)
  {
    h := ValidFieldHasValue(parts[1], 0, 23);
    m := ValidFieldHasValue(parts[0], 0, 59);
  }

  lemma WeekdayOf(start: int, k: nat)
    ensures (start + k) % 7 == (start % 7 + k) % 7
  {}

  lemma WeekdayIn(w: nat, d: nat)
    requires w < 7 && d < 7
    ensures ((w + (d + 3 - w) % 7) % 7 + 4) % 7 == d
  {}

  /** The first day not before day `day0` at clock `tod0` whose day of the week is
      `d` and whose time `clock` is still to come. */
  lemma NextWeekday(day0: int, tod0: nat, d: nat, clock: nat) returns (day: int)
    requires d < 7 && tod0 < DAY && clock < DAY
    ensures (day % 7 + 4) % 7 == d
    ensures day0 * DAY + tod0 <= day * DAY + clock < day0 * DAY + tod0 + 7 * DAY
  {
    var start := if clock >= tod0 then day0 else day0 + 1;
    var k := (d + 3 - start % 7) % 7;
    day := start + k;
    assert (day % 7 + 4) % 7 == d by {
      WeekdayOf(start, k);
      WeekdayIn(start % 7, d);
    }
  }

  /** An accepted expression open in day of month and month fires within a week,
      and the search finds it. */
  lemma FiresWithinAWeek(expr: string, from: int, offset: int, r: Option<int>)
    requires IsNext(expr, from, offset, r) && IsValid(expr)
    requires EveryDate(SplitWhitespace(expr))
    ensures r.Some? && r.value < FirstMinute(from) + 7 * DAY
    ensures from >= 0 ==> r.value <= from + 7 * DAY
  {
    hide CivilFromDays, FieldsFromUnix, PartMatches, PartValid, FieldMatches, FieldValid, DowMatches, TruncDiv, Fires;
    hide FirstMinute, IsNext;
    var parts := SplitWhitespace(expr);
    var h, m := SomeClock(parts);
    var d := ValidDowHasDay(parts[4]);
    StartIsNextMinute(from);
    var local := FirstMinute(from) + offset * 60;
    assert local == local / DAY * DAY + local % DAY;
    var day := NextWeekday(local / DAY, local % DAY, d, h * 3600 + m * 60);
    FieldsAt(day, h, m);
    FoundBy(expr, from, offset, r, day, h, m, 7 * DAY - 1);
    if from >= 0 {
      WithinAWeek(expr, from, offset, r);
    }
  }

  lemma WithinAWeek(expr: string, from: nat, offset: int, r: Option<int>)
    requires IsNext(expr, from, offset, r) && r.Some? && r.value < FirstMinute(from) + 7 * DAY
    ensures r.value <= from + 7 * DAY
  {
    hide Fires;
  }

  /** So does one whose day of month and month are stars. */
  lemma StarsFireWithinAWeek(expr: string, from: int, offset: int, r: Option<int>)
    requires IsNext(expr, from, offset, r) && IsValid(expr)
    requires var parts := SplitWhitespace(expr); parts[2] == "*" && parts[3] == "*"
    ensures r.Some? && r.value < FirstMinute(from) + 7 * DAY
    ensures from >= 0 ==> r.value <= from + 7 * DAY
  {
    hide CivilFromDays, PartMatches, PartValid, FieldMatches, FieldValid, TruncDiv, Fires, IsNext;
    StarIsEveryDate(SplitWhitespace(expr));
    FiresWithinAWeek(expr, from, offset, r);
  }

  /** The same date a year on is 365 or 366 days later. */
  lemma YearLater(y: int, m: int, d: int)
    requires 1 <= m <= 12
    ensures 365 <= DaysFromCivil(Civil(y + 1, m, d)) - DaysFromCivil(Civil(y, m, d)) <= 366
  {
    hide DaysBeforeYear, IsLeap;
    MonthTable(y);
    MonthTable(y + 1);
    YearLength(y);
  }

  /** Within 366 days of any day there is the given date of a common year. */
  lemma NextAnniversary(day0: int, tod0: nat, mo: int, da: int, clock: nat) returns (day: int)
    requires IsDate(Civil(2001, mo, da)) && tod0 < DAY && clock < DAY
    ensures CivilFromDays(day).month == mo && CivilFromDays(day).day == da
    ensures day0 * DAY + tod0 <= day * DAY + clock <= day0 * DAY + tod0 + WINDOW
  {
    hide DaysBeforeYear, DaysBeforeMonth, CivilFromDays;
    var c := CivilFromDays(day0);
    CivilInverse(day0);
    var a, b := Civil(c.year, mo, da), Civil(c.year + 1, mo, da);
    assert IsDate(a) && IsDate(b);
    YearLater(c.year, mo, da);
    DayOfYear(c);
    DayOfYear(a);
    YearLength(c.year);
    var n := DaysFromCivil(a);
    day := if n > day0 || (n == day0 && clock >= tod0) then n else DaysFromCivil(b);
    CivilOfDate(if day == n then a else b, day);
  }

  /** 366 days are enough for every accepted expression that lets through some
      date of a common year on any day of the week. */
  lemma FiresWithinTheWindow(expr: string, from: int, offset: int, r: Option<int>, mo: int, da: int)
    requires IsNext(expr, from, offset, r) && IsValid(expr) && IsDate(Civil(2001, mo, da))
    requires var parts := SplitWhitespace(expr);
      FieldMatches(parts[2], da, 1, 31) && FieldMatches(parts[3], mo, 1, 12)
      && forall w: nat :: w < 7 ==> DowMatches(parts[4], w)
    ensures r.Some?
  {
    hide CivilFromDays, PartMatches, PartValid, FieldMatches, FieldValid, TruncDiv, Fires, DowMatches;
    var parts := SplitWhitespace(expr);
    var h, m := SomeClock(parts);
    var local := FirstMinute(from) + offset * 60;
    var day := NextAnniversary(local / DAY, local % DAY, mo, da, h * 3600 + m * 60);
    FieldsAt(day, h, m);
    FoundBy(expr, from, offset, r, day, h, m, WINDOW);
  }
}
