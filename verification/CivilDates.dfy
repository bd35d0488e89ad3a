/** The civil date of a day count, against the proleptic Gregorian calendar of ISO 8601. */
module CivilDates {

  datatype Date = Date(year: int, month: int, day: int)

  // ---- The calendar ----

  predicate IsLeap(year: int) { year % 4 == 0 && (year % 100 != 0 || year % 400 == 0) }

  function DaysIn(year: int, month: int): int {
    if month == 2 then if IsLeap(year) then 29 else 28
    else if month == 4 || month == 6 || month == 9 || month == 11 then 30 else 31
  }

  predicate IsValid(d: Date) { 1 <= d.month <= 12 && 1 <= d.day <= DaysIn(d.year, d.month) }

  function NextDay(d: Date): Date {
    if d.day < DaysIn(d.year, d.month) then d.(day := d.day + 1)
    else if d.month < 12 then Date(d.year, d.month + 1, 1)
    else Date(d.year + 1, 1, 1)
  }

  const EPOCH := Date(1970, 1, 1)

  // ---- The conversion ----

  const DAYS_TO_UNIX_EPOCH := 719_468
  const DAYS_PER_ERA := 146_097
  const YEARS_PER_ERA := 400

  /** The first day of a year of an era, counted from March 1 of the era's first year. */
  function YearStart(year: int): int { 365 * year + year / 4 - year / 100 }

  function YearOfEra(doe: int): int { (doe - doe / 1460 + doe / 36_524 - doe / 146_096) / 365 }

  function MonthStart(mp: int): int { (153 * mp + 2) / 5 }

  /** The date of a day of a year that starts in March. */
  function InYear(year: int, doy: int): Date {
    var mp := (5 * doy + 2) / 153;
    var month := if mp < 10 then mp + 3 else mp - 9;
    Date(if month <= 2 then year + 1 else year, month, doy - MonthStart(mp) + 1)
  }

  function CivilFromDays(days: int): Date {
    var z := days + DAYS_TO_UNIX_EPOCH;
    var doe := z % DAYS_PER_ERA;
    var yoe := YearOfEra(doe);
    InYear(yoe + z / DAYS_PER_ERA * YEARS_PER_ERA, doe - YearStart(yoe))
  }

  // ---- Years of an era ----

  /** A year from March has the leap day of the year it ends in. */
  function YearLength(year: int): int { if IsLeap(year + 1) then 366 else 365 }

  lemma YearFollows(year: int)
    requires 0 <= year < YEARS_PER_ERA
    ensures YearStart(year) + YearLength(year) == if year == 399 then DAYS_PER_ERA else YearStart(year + 1)
  {
  }

  /** A day of a century's four-year cycles. */
  lemma YearOfCentury(c: int, q: int, s: int)
    requires 0 <= c <= 3 && 0 <= q <= 24 && 0 <= s <= 1460 && 1461 * q + s < 36_524
    ensures YearOfEra(36_524 * c + 1461 * q + s) == 100 * c + 4 * q + (if s == 1460 then 3 else s / 365)
  {
    var doe := 36_524 * c + 1461 * q + s;
    var more := if q + s + 24 * c >= 1460 then 1 else 0;
    assert doe / 36_524 == c && doe / 146_096 == 0;
    assert doe == 1460 * (25 * c + q) + (q + s + 24 * c);
    assert doe / 1460 == 25 * c + q + more;
    assert doe - doe / 1460 + doe / 36_524 == 365 * (100 * c + 4 * q) + s - more;
  }

  /** The year computed is the one the day falls in. */
  lemma DayIsInItsYear(doe: int)
    requires 0 <= doe < DAYS_PER_ERA
    ensures 0 <= YearOfEra(doe) < YEARS_PER_ERA
    ensures 0 <= doe - YearStart(YearOfEra(doe)) < YearLength(YearOfEra(doe))
  {
    if doe == 146_096 {
      assert YearOfEra(doe) == 399;
    } else {
      var r := doe % 36_524;
      DayOfCycle(doe / 36_524, r / 1461, r % 1461);
    }
  }

  lemma DayOfCycle(c: int, q: int, s: int)
    requires 0 <= c <= 3 && 0 <= q <= 24 && 0 <= s <= 1460 && 1461 * q + s < 36_524
    ensures var doe := 36_524 * c + 1461 * q + s;
            && 0 <= YearOfEra(doe) < YEARS_PER_ERA
            && 0 <= doe - YearStart(YearOfEra(doe)) < YearLength(YearOfEra(doe))
  {
    hide YearOfEra, YearStart, YearLength;
    var y := if s == 1460 then 3 else s / 365;
    YearOfCentury(c, q, s);
    StartOf(c, q, y);
    LeapOf(c, q, y);
  }

  lemma StartOf(c: int, q: int, y: int)
    requires 0 <= c <= 3 && 0 <= q <= 24 && 0 <= y <= 3
    ensures YearStart(100 * c + 4 * q + y) == 36_524 * c + 1461 * q + 365 * y
  {
    var year := 100 * c + 4 * q + y;
    assert year / 4 == 25 * c + q;
    assert year / 100 == c;
  }

  lemma LeapOf(c: int, q: int, y: int)
    requires 0 <= c <= 3 && 0 <= q <= 24 && 0 <= y <= 3
    ensures YearLength(100 * c + 4 * q + y) == if y == 3 && (q < 24 || c == 3) then 366 else 365
  {
    var next := 100 * c + 4 * q + y + 1;
    assert next % 4 == (y + 1) % 4;
  }

  lemma {:induction false} YearsAreApart(a: int, b: int)
    requires 0 <= a < b < YEARS_PER_ERA
    ensures YearStart(a) + YearLength(a) <= YearStart(b)
    decreases b - a
  {
    YearFollows(a);
    if a + 1 < b {
      YearsAreApart(a + 1, b);
    }
  }

  lemma YearIsTheOne(doe: int, year: int)
    requires 0 <= year < YEARS_PER_ERA && YearStart(year) <= doe < YearStart(year) + YearLength(year)
    requires 0 <= doe < DAYS_PER_ERA
    ensures YearOfEra(doe) == year
  {
    hide YearStart, YearOfEra, YearLength;
    DayIsInItsYear(doe);
    var y := YearOfEra(doe);
    if y < year {
      YearsAreApart(y, year);
    } else if year < y {
      YearsAreApart(year, y);
    }
  }

  /** Leap years repeat with the era. */
  lemma LeapRepeats(year: int, era: int)
    ensures IsLeap(year + era * YEARS_PER_ERA) == IsLeap(year)
  {
    Mod4Repeats(year, 100 * era);
    Mod100Repeats(year, 4 * era);
    Mod400Repeats(year, era);
  }

  lemma Mod4Repeats(a: int, k: int)
    ensures (a + 4 * k) % 4 == a % 4
  {
  }

  lemma Mod100Repeats(a: int, k: int)
    ensures (a + 100 * k) % 100 == a % 100
  {
  }

  lemma Mod400Repeats(a: int, k: int)
    ensures (a + 400 * k) % 400 == a % 400
  {
  }

  // ---- Months ----

  /** How long a month is when it is not the last of its year from March. */
  function MonthLength(mp: int): int
    requires 0 <= mp < 11
  {
    MonthStart(mp + 1) - MonthStart(mp)
  }

  lemma MonthOf(doy: int)
    requires 0 <= doy < 366
    ensures var mp := (5 * doy + 2) / 153;
            0 <= mp <= 11 && MonthStart(mp) <= doy && (mp < 11 ==> doy < MonthStart(mp + 1))
  {
  }

  lemma MonthLengths(year: int, mp: int)
    requires 0 <= mp <= 11
    ensures mp < 11 ==> MonthLength(mp) == DaysIn(if mp < 10 then year else year + 1, if mp < 10 then mp + 3 else mp - 9)
    ensures mp == 11 ==> YearLength(year) - MonthStart(mp) == DaysIn(year + 1, 2)
  {
  }

  lemma MonthIsTheOne(doy: int, mp: int)
    requires 0 <= doy < 366 && 0 <= mp <= 11 && MonthStart(mp) <= doy && (mp < 11 ==> doy < MonthStart(mp + 1))
    ensures (5 * doy + 2) / 153 == mp
  {
  }

  /** Every day of a year from March is a date, and the next day of it the next date. */
  lemma DaysOfAYear(year: int, doy: int)
    requires 0 <= doy < YearLength(year)
    ensures IsValid(InYear(year, doy))
    ensures NextDay(InYear(year, doy)) == InYear(if doy + 1 < YearLength(year) then year else year + 1,
                                                 if doy + 1 < YearLength(year) then doy + 1 else 0)
  {
    hide YearLength, DaysIn, IsLeap;
    LengthIs(year);
    var mp := (5 * doy + 2) / 153;
    MonthOf(doy);
    MonthLengths(year, mp);
    if mp < 11 {
      if doy + 1 < MonthStart(mp + 1) {
        MonthIsTheOne(doy + 1, mp);
      } else {
        MonthIsTheOne(doy + 1, mp + 1);
      }
    } else if doy + 1 < YearLength(year) {
      MonthIsTheOne(doy + 1, 11);
    } else {
      MonthIsTheOne(0, 0);
    }
  }

  lemma LengthIs(year: int)
    ensures 365 <= YearLength(year) <= 366 && DaysIn(year + 1, 2) >= 28 && DaysIn(year, 12) == 31
  {
  }

  // ---- The whole calendar ----

  lemma EraStep(z: int)
    ensures (z + 1) % DAYS_PER_ERA == (if z % DAYS_PER_ERA + 1 == DAYS_PER_ERA then 0 else z % DAYS_PER_ERA + 1)
    ensures (z + 1) / DAYS_PER_ERA == z / DAYS_PER_ERA + (if z % DAYS_PER_ERA + 1 == DAYS_PER_ERA then 1 else 0)
  {
  }

  /** For every day, past or future, the conversion gives a date of the calendar, and the next day the
      date that follows it. */
  lemma CivilDatesFollowTheCalendar(days: int)
    ensures IsValid(CivilFromDays(days)) && CivilFromDays(days + 1) == NextDay(CivilFromDays(days))
  {
    hide YearStart, YearOfEra, YearLength, InYear, NextDay, IsValid, IsLeap;
    var z := days + DAYS_TO_UNIX_EPOCH;
    var doe, era := z % DAYS_PER_ERA, z / DAYS_PER_ERA;
    var yoe := YearOfEra(doe);
    var doy := doe - YearStart(yoe);
    DayIsInItsYear(doe);
    LengthRepeats(yoe, era);
    DaysOfAYear(yoe + era * YEARS_PER_ERA, doy);
    EraStep(z);
    YearFollows(yoe);
    if doy + 1 < YearLength(yoe) {
      YearIsTheOneOrLast(doe + 1, yoe);
    } else if yoe < 399 {
      FirstDayOf(yoe + 1);
    } else {
      LastYear();
      FirstDayOf(0);
    }
  }

  lemma LengthRepeats(year: int, era: int)
    ensures YearLength(year + era * YEARS_PER_ERA) == YearLength(year)
  {
    LeapRepeats(year + 1, era);
  }

  lemma YearIsTheOneOrLast(doe: int, year: int)
    requires 0 <= year < YEARS_PER_ERA && YearStart(year) <= doe < YearStart(year) + YearLength(year) && doe >= 0
    ensures doe < DAYS_PER_ERA && YearOfEra(doe) == year
  {
    hide YearStart, YearOfEra, YearLength;
    if year < 399 {
      YearsAreApart(year, 399);
    }
    YearFollows(399);
    LastYear();
    YearIsTheOne(doe, year);
  }

  lemma LastYear()
    ensures YearLength(399) == 366 && YearStart(399) == 145_731 && YearStart(0) == 0
  {
  }

  lemma FirstDayOf(year: int)
    requires 0 <= year < YEARS_PER_ERA
    ensures YearOfEra(YearStart(year)) == year && 0 <= YearStart(year) < DAYS_PER_ERA
  {
    hide YearOfEra, YearLength;
    LengthIs(year);
    YearIsTheOneOrLast(YearStart(year), year);
  }

  lemma EpochIsDayZero()
    ensures CivilFromDays(0) == EPOCH
  {
    assert DAYS_TO_UNIX_EPOCH % DAYS_PER_ERA == 135_080;
    assert YearOfEra(135_080) == 369;
  }

  // ---- The day count ----

  /** The leap years before `year`, counted from year 1. */
  function LeapsBefore(year: int): int { (year - 1) / 4 - (year - 1) / 100 + (year - 1) / 400 }

  /** Days from the first day of year 1 to the first of `year`. */
  function BeforeYear(year: int): int { 365 * (year - 1) + LeapsBefore(year) }

  function DaysBeforeMonth(year: int, month: nat): int
    requires 1 <= month <= 12
  {
    if month == 1 then 0 else DaysBeforeMonth(year, month - 1) + DaysIn(year, month - 1)
  }

  /** Days from the first day of year 1 to `d`. */
  function Ordinal(d: Date): int
    requires IsValid(d)
  {
    BeforeYear(d.year) + DaysBeforeMonth(d.year, d.month) + d.day - 1
  }

  lemma NextYear(year: int)
    ensures DaysBeforeMonth(year, 12) + 31 == 365 + LeapsBefore(year + 1) - LeapsBefore(year)
  {
    hide LeapsBefore;
    LeapCount(year);
    assert DaysBeforeMonth(year, 3) == 31 + DaysIn(year, 2) by {
      assert DaysBeforeMonth(year, 2) == DaysBeforeMonth(year, 1) + 31;
    }
    assert DaysBeforeMonth(year, 6) == DaysBeforeMonth(year, 3) + 92 by {
      assert DaysBeforeMonth(year, 5) == DaysBeforeMonth(year, 4) + 30;
    }
    assert DaysBeforeMonth(year, 9) == DaysBeforeMonth(year, 6) + 92 by {
      assert DaysBeforeMonth(year, 8) == DaysBeforeMonth(year, 7) + 31;
    }
    assert DaysBeforeMonth(year, 12) == DaysBeforeMonth(year, 9) + 91 by {
      assert DaysBeforeMonth(year, 11) == DaysBeforeMonth(year, 10) + 31;
    }
  }

  lemma LeapCount(year: int)
    ensures LeapsBefore(year + 1) == LeapsBefore(year) + if IsLeap(year) then 1 else 0
  {
    CountBy4(year);
    CountBy100(year);
    CountBy400(year);
    HundredsAreFours(year);
  }

  lemma CountBy4(year: int)
    ensures year / 4 == (year - 1) / 4 + if year % 4 == 0 then 1 else 0
  {
  }

  lemma CountBy100(year: int)
    ensures year / 100 == (year - 1) / 100 + if year % 100 == 0 then 1 else 0
  {
  }

  lemma CountBy400(year: int)
    ensures year / 400 == (year - 1) / 400 + if year % 400 == 0 then 1 else 0
  {
  }

  lemma HundredsAreFours(year: int)
    ensures (year % 100 == 0 ==> year % 4 == 0) && (year % 400 == 0 ==> year % 100 == 0)
  {
  }

  lemma OrdinalOfNext(d: Date)
    requires IsValid(d)
    ensures IsValid(NextDay(d)) && Ordinal(NextDay(d)) == Ordinal(d) + 1
  {
    if d.month == 12 {
      NextYear(d.year);
    }
  }

  lemma {:induction false} YearsInOrder(a: int, b: int)
    requires a < b
    ensures BeforeYear(a + 1) <= BeforeYear(b)
    decreases b - a
  {
    hide LeapsBefore;
    if a + 1 < b {
      YearsInOrder(a, b - 1);
      LeapCount(b - 1);
    }
  }

  lemma {:induction false} MonthsInOrder(year: int, m: nat, n: nat)
    requires 1 <= m < n <= 12
    ensures DaysBeforeMonth(year, m) + DaysIn(year, m) <= DaysBeforeMonth(year, n)
  {
    if m + 1 < n {
      MonthsInOrder(year, m, n - 1);
    }
  }

  lemma {:induction false} NoDaysBeforeJanuary(year: int, m: nat)
    requires 1 <= m <= 12
    ensures DaysBeforeMonth(year, m) >= 0
  {
    if m > 1 {
      NoDaysBeforeJanuary(year, m - 1);
    }
  }

  /** A date's day lies in its year. */
  lemma DayLiesInItsYear(d: Date)
    requires IsValid(d)
    ensures BeforeYear(d.year) <= Ordinal(d) < BeforeYear(d.year + 1)
  {
    hide LeapsBefore, IsLeap;
    NextYear(d.year);
    NoDaysBeforeJanuary(d.year, d.month);
    if d.month < 12 {
      MonthsInOrder(d.year, d.month, 12);
    }
  }

  predicate Earlier(a: Date, b: Date) {
    a.year < b.year || (a.year == b.year && (a.month < b.month || (a.month == b.month && a.day < b.day)))
  }

  /** An earlier date has the lower day count, so no two dates share one. */
  lemma EarlierCountsLess(a: Date, b: Date)
    requires IsValid(a) && IsValid(b) && Earlier(a, b)
    ensures Ordinal(a) < Ordinal(b)
  {
    hide LeapsBefore, BeforeYear, IsLeap;
    if a.year < b.year {
      hide Ordinal;
      DayLiesInItsYear(a);
      DayLiesInItsYear(b);
      YearsInOrder(a.year, b.year);
    } else if a.month < b.month {
      MonthsInOrder(a.year, a.month, b.month);
    }
  }

  /** The conversion inverts the day count: of all dates, exactly the one computed for `days` is
      `days` days after the first of January 1970. */
  lemma {:induction false} CivilInvertsTheDayCount(days: int, d: Date)
    requires IsValid(d)
    ensures d == CivilFromDays(days) <==> Ordinal(d) - Ordinal(EPOCH) == days
    decreases if days < 0 then -days else days
  {
    hide CivilFromDays, Ordinal, NextDay, IsValid;
    var computed := CivilFromDays(days);
    CivilDatesFollowTheCalendar(days);
    EpochIsDayZero();
    if days > 0 {
      var before := CivilFromDays(days - 1);
      CivilDatesFollowTheCalendar(days - 1);
      CivilInvertsTheDayCount(days - 1, before);
      OrdinalOfNext(before);
    } else if days < 0 {
      OrdinalOfNext(computed);
      CivilInvertsTheDayCount(days + 1, NextDay(computed));
    }
    if Earlier(d, computed) {
      EarlierCountsLess(d, computed);
    } else if Earlier(computed, d) {
      EarlierCountsLess(computed, d);
    }
  }

  // ---- The time a log line names ----

  const SECS_PER_DAY := 86_400
  const SECS_PER_HOUR := 3600
  const SECS_PER_MINUTE := 60

  datatype LogTime = LogTime(date: Date, hour: int, minute: int, second: int)

  function TimeOf(secs: nat): LogTime {
    var sod := secs % SECS_PER_DAY;
    LogTime(CivilFromDays(secs / SECS_PER_DAY), sod / SECS_PER_HOUR,
            sod % SECS_PER_HOUR / SECS_PER_MINUTE, sod % SECS_PER_MINUTE)
  }

  predicate IsTime(t: LogTime) {
    IsValid(t.date) && 0 <= t.hour < 24 && 0 <= t.minute < 60 && 0 <= t.second < 60
  }

  /** Seconds from the epoch to the time `t` names. */
  function SecondsTo(t: LogTime): int
    requires IsTime(t)
  {
    (Ordinal(t.date) - Ordinal(EPOCH)) * SECS_PER_DAY
    + t.hour * SECS_PER_HOUR + t.minute * SECS_PER_MINUTE + t.second
  }

  /** A log line names one second alone: of all dates and times of day, exactly the one written for
      `secs` is that many seconds after the epoch. */
  lemma LogTimesNameTheirSecond(secs: nat, t: LogTime)
    requires IsTime(t)
    ensures t == TimeOf(secs) <==> SecondsTo(t) == secs
    ensures IsTime(TimeOf(secs))
  {
    hide CivilFromDays, Ordinal, IsValid, NextDay;
    var days := secs / SECS_PER_DAY;
    CivilDatesFollowTheCalendar(days);
    CivilInvertsTheDayCount(days, t.date);
  }
}
