/** Civil dates in UTC: gmtime and timegm over the proleptic Gregorian calendar, with the day
    count of section 4.16 of the Base Definitions of IEEE Std 1003.1-2017. */
module Calendar {

  const SECONDS_PER_DAY := 86400

  /** The broken-down time fields that TimeHelper reads or writes; tmYear counts from 1900. */
  datatype Tm = Tm(sec: int, min: int, hour: int, mday: int, mon: int, year: int, wday: int)

  predicate Leap(year: int) {
    (year + 1900) % 4 == 0 && ((year + 1900) % 100 != 0 || (year + 1900) % 400 == 0)
  }

  function YearLength(year: int): int { if Leap(year) then 366 else 365 }

  function MonthLength(year: int, mon: int): int
    requires 0 <= mon < 12
  {
    if mon == 1 then (if Leap(year) then 29 else 28)
    else if mon in {3, 5, 8, 10} then 30
    else 31
  }

  /** Days from the Epoch to 1 January: the year terms of the standard's formula. */
  function DaysBeforeYear(year: int): int {
    (year - 70) * 365 + (year - 69) / 4 - (year - 1) / 100 + (year + 299) / 400
  }

  function DaysBeforeMonth(year: int, mon: int): (d: int)
    requires 0 <= mon <= 12
  {
    if mon == 0 then 0 else DaysBeforeMonth(year, mon - 1) + MonthLength(year, mon - 1)
  }

  /** The formula's leap terms count exactly the leap years. */
  lemma {:induction false} YearStep(year: int)
    ensures DaysBeforeYear(year + 1) == DaysBeforeYear(year) + YearLength(year)
  {
    Quarter(year);
    Century(year);
    FourCenturies(year);
    Multiples(year + 1900);
  }

  lemma Quarter(year: int)
    ensures (year - 68) / 4 == (year - 69) / 4 + if (year + 1900) % 4 == 0 then 1 else 0
  {
  }

  lemma Century(year: int)
    ensures year / 100 == (year - 1) / 100 + if (year + 1900) % 100 == 0 then 1 else 0
  {
  }

  lemma FourCenturies(year: int)
    ensures (year + 300) / 400 == (year + 299) / 400 + if (year + 1900) % 400 == 0 then 1 else 0
  {
  }

  lemma Multiples(y: int)
    ensures y % 400 == 0 ==> y % 100 == 0
    ensures y % 100 == 0 ==> y % 4 == 0
  {
  }

  lemma MonthsFillYear(year: int)
    ensures DaysBeforeMonth(year, 12) == YearLength(year)
  {
    assert DaysBeforeMonth(year, 1) == 31;
    assert DaysBeforeMonth(year, 2) == 31 + MonthLength(year, 1);
    assert DaysBeforeMonth(year, 3) == DaysBeforeMonth(year, 2) + 31;
    assert DaysBeforeMonth(year, 4) == DaysBeforeMonth(year, 3) + 30;
    assert DaysBeforeMonth(year, 5) == DaysBeforeMonth(year, 4) + 31;
    assert DaysBeforeMonth(year, 6) == DaysBeforeMonth(year, 5) + 30;
    assert DaysBeforeMonth(year, 7) == DaysBeforeMonth(year, 6) + 31;
    assert DaysBeforeMonth(year, 8) == DaysBeforeMonth(year, 7) + 31;
    assert DaysBeforeMonth(year, 9) == DaysBeforeMonth(year, 8) + 30;
    assert DaysBeforeMonth(year, 10) == DaysBeforeMonth(year, 9) + 31;
    assert DaysBeforeMonth(year, 11) == DaysBeforeMonth(year, 10) + 30;
  }

  /** The year holding the day, searched for one year at a time from a first guess. */
  function YearOf(day: int, guess: int): (year: int)
    ensures DaysBeforeYear(year) <= day < DaysBeforeYear(year + 1)
    decreases if day < DaysBeforeYear(guess) then DaysBeforeYear(guess) - day
              else if day >= DaysBeforeYear(guess + 1) then day - DaysBeforeYear(guess + 1) + 1 else 0
  {
    if day < DaysBeforeYear(guess) then YearStep(guess - 1); YearOf(day, guess - 1)
    else if day >= DaysBeforeYear(guess + 1) then YearStep(guess + 1); YearOf(day, guess + 1)
    else guess
  }

  /** The month holding the day of the year, searched for upwards. */
  function MonthOf(year: int, yday: int, guess: int): (mon: int)
    requires 0 <= guess < 12 && DaysBeforeMonth(year, guess) <= yday < YearLength(year)
    ensures 0 <= mon < 12 && DaysBeforeMonth(year, mon) <= yday < DaysBeforeMonth(year, mon + 1)
    decreases 12 - guess
  {
    MonthsFillYear(year);
    if yday < DaysBeforeMonth(year, guess + 1) then guess else MonthOf(year, yday, guess + 1)
  }

  function DayOfYear(day: int): (yday: int)
    ensures 0 <= yday < YearLength(YearOf(day, 70))
  {
    var year := YearOf(day, 70);
    YearStep(year);
    day - DaysBeforeYear(year)
  }

  function Gmtime(t: int): Tm { BrokenDown(t / SECONDS_PER_DAY, t % SECONDS_PER_DAY) }

  /** The date and the clock time, from the day since the Epoch and the seconds into it. */
  function BrokenDown(day: int, rest: int): Tm {
    var year, yday := YearOf(day, 70), DayOfYear(day);
    var mon := MonthOf(year, yday, 0);
    Tm(rest % 60, rest / 60 % 60, rest / 3600, yday - DaysBeforeMonth(year, mon) + 1, mon, year, (day + 4) % 7)
  }

  /** timegm for a month in range: the day of the month may be any integer and carries over. */
  function Timegm(tm: Tm): int
    requires 0 <= tm.mon < 12
  {
    (DaysBeforeYear(tm.year) + DaysBeforeMonth(tm.year, tm.mon) + tm.mday - 1) * SECONDS_PER_DAY
    + tm.hour * 3600 + tm.min * 60 + tm.sec
  }

  lemma GmtimeInRange(t: int)
    ensures var tm := Gmtime(t);
            && 0 <= tm.mon < 12 && 1 <= tm.mday <= MonthLength(tm.year, tm.mon)
            && 0 <= tm.hour < 24 && 0 <= tm.min < 60 && 0 <= tm.sec < 60
            && tm.wday == (t / SECONDS_PER_DAY + 4) % 7
  {
  }

  /** timegm undoes gmtime, for every time before or after the Epoch. */
  lemma {:induction false} TimegmGmtime(t: int)
    ensures 0 <= Gmtime(t).mon < 12 && Timegm(Gmtime(t)) == t
  {
    var rest := t % SECONDS_PER_DAY;
    assert rest == rest / 3600 * 3600 + rest / 60 % 60 * 60 + rest % 60;
  }

  predicate Normal(tm: Tm) {
    && 0 <= tm.mon < 12 && 1 <= tm.mday <= MonthLength(tm.year, tm.mon)
    && 0 <= tm.hour < 24 && 0 <= tm.min < 60 && 0 <= tm.sec < 60
    && tm.wday == (Timegm(tm) / SECONDS_PER_DAY + 4) % 7
  }

  lemma {:induction false} YearsAscend(x: int, y: int)
    requires x <= y
    ensures DaysBeforeYear(x) <= DaysBeforeYear(y)
    decreases y - x
  {
    if x < y {
      YearsAscend(x, y - 1);
      YearStep(y - 1);
    }
  }

  lemma {:induction false} MonthsAscend(year: int, m: int, n: int)
    requires 0 <= m <= n <= 12
    ensures DaysBeforeMonth(year, m) <= DaysBeforeMonth(year, n)
    decreases n - m
  {
    if m < n {
      MonthsAscend(year, m, n - 1);
    }
  }

  /** gmtime finds the date that timegm was given: no other normal date has the same second count. */
  lemma {:induction false} GmtimeTimegm(tm: Tm)
    requires Normal(tm)
    ensures Gmtime(Timegm(tm)) == tm
  {
    var day := DaysBeforeYear(tm.year) + DaysBeforeMonth(tm.year, tm.mon) + tm.mday - 1;
    var rest := tm.hour * 3600 + tm.min * 60 + tm.sec;
    SplitClock(tm.hour, tm.min, tm.sec);
    SplitTimegm(tm, day, rest);
    DateOfDay(day, rest, tm.year, tm.mon, tm.mday);
  }

  lemma SplitTimegm(tm: Tm, day: int, rest: int)
    requires 0 <= tm.mon < 12
    requires day == DaysBeforeYear(tm.year) + DaysBeforeMonth(tm.year, tm.mon) + tm.mday - 1
    requires rest == tm.hour * 3600 + tm.min * 60 + tm.sec && 0 <= rest < SECONDS_PER_DAY
    ensures Timegm(tm) / SECONDS_PER_DAY == day && Timegm(tm) % SECONDS_PER_DAY == rest
  {
    assert Timegm(tm) == day * SECONDS_PER_DAY + rest;
    SplitDay(day, rest);
  }

  lemma {:induction false} DateOfDay(day: int, rest: int, year: int, mon: int, mday: int)
    requires 0 <= mon < 12 && 1 <= mday <= MonthLength(year, mon)
    requires day == DaysBeforeYear(year) + DaysBeforeMonth(year, mon) + mday - 1
    ensures BrokenDown(day, rest) == Tm(rest % 60, rest / 60 % 60, rest / 3600, mday, mon, year, (day + 4) % 7)
  {
    DayIsDate(day, year, mon, mday);
  }

  lemma DayIsDate(day: int, year: int, mon: int, mday: int)
    requires 0 <= mon < 12 && 1 <= mday <= MonthLength(year, mon)
    requires day == DaysBeforeYear(year) + DaysBeforeMonth(year, mon) + mday - 1
    ensures YearOf(day, 70) == year && DayOfYear(day) == DaysBeforeMonth(year, mon) + mday - 1
    ensures MonthOf(year, DayOfYear(day), 0) == mon
  {
    MonthsAscend(year, 0, mon);
    MonthsAscend(year, mon + 1, 12);
    MonthsFillYear(year);
    YearStep(year);
    YearUnique(day, year);
    MonthUnique(year, day - DaysBeforeYear(year), mon);
  }

  lemma SplitDay(day: int, rest: int)
    requires 0 <= rest < SECONDS_PER_DAY
    ensures (day * SECONDS_PER_DAY + rest) / SECONDS_PER_DAY == day
    ensures (day * SECONDS_PER_DAY + rest) % SECONDS_PER_DAY == rest
  {
  }

  lemma SplitClock(hour: int, min: int, sec: int)
    requires 0 <= hour < 24 && 0 <= min < 60 && 0 <= sec < 60
    ensures var rest := hour * 3600 + min * 60 + sec;
            0 <= rest < SECONDS_PER_DAY && rest % 60 == sec && rest / 60 % 60 == min && rest / 3600 == hour
  {
    var rest := hour * 3600 + min * 60 + sec;
    assert rest / 60 == hour * 60 + min;
  }

  lemma YearUnique(day: int, year: int)
    requires DaysBeforeYear(year) <= day < DaysBeforeYear(year + 1)
    ensures YearOf(day, 70) == year
  {
    var found := YearOf(day, 70);
    if found < year {
      YearsAscend(found + 1, year);
    } else if year < found {
      YearsAscend(year + 1, found);
    }
  }

  lemma MonthUnique(year: int, yday: int, mon: int)
    requires 0 <= mon < 12 && DaysBeforeMonth(year, mon) <= yday < DaysBeforeMonth(year, mon + 1)
    requires 0 <= yday < YearLength(year)
    ensures MonthOf(year, yday, 0) == mon
  {
    var found := MonthOf(year, yday, 0);
    if found < mon {
      MonthsAscend(year, found + 1, mon);
    } else if mon < found {
      MonthsAscend(year, mon + 1, found);
    }
  }

  /** The months of a common year begin on these days of it; from March on a leap year adds one. */
  lemma MonthTable(year: int, mon: int)
    requires 0 <= mon <= 12
    ensures DaysBeforeMonth(year, mon)
         == [0, 31, 59, 90, 120, 151, 181, 212, 243, 273, 304, 334, 365][mon] + if mon >= 2 && Leap(year) then 1 else 0
  {
    if mon > 0 {
      MonthTable(year, mon - 1);
    }
  }

  /** Some dates, which fix the calendar: the Epoch, the second before it, a leap day in a year divisible
      by 400, an ordinary date, and the end of a February in a year divisible by 100 only. */
  lemma KnownDates()
    ensures Dated(Tm(0, 0, 0, 1, 0, 70, 4), 0) && Dated(Tm(59, 59, 23, 31, 11, 69, 3), -1)
    ensures Dated(Tm(1, 0, 12, 29, 1, 100, 2), 951825601) && Dated(Tm(12, 12, 12, 14, 0, 118, 0), 1515931932)
    ensures Dated(Tm(59, 59, 23, 28, 1, 200, 0), 4107542399) && Dated(Tm(0, 0, 0, 1, 2, 200, 1), 4107542400)
  {
    MonthTable(70, 0);
    MonthTable(69, 11);
    MonthTable(100, 1);
    MonthTable(118, 0);
    MonthTable(200, 1);
    MonthTable(200, 2);
  }

  predicate Dated(tm: Tm, t: int) { Normal(tm) && Timegm(tm) == t }
}

/** The week arithmetic of core/src/TimeHelper.cpp. */
module TimeHelper {
  import opened Calendar

  /** system_clock time points count nanoseconds from the Epoch. */
  type TimePoint = int

  const NANOS := 1_000_000_000
  const DAY := 86_400_000_000_000
  const WEEK := 604_800_000_000_000

  datatype WeekDay = Sunday | Monday | Tuesday | Wednesday | Thursday | Friday | Saturday

  function Number(d: WeekDay): (n: int)
    ensures 0 <= n < 7
  {
    match d
    case Sunday => 0
    case Monday => 1
    case Tuesday => 2
    case Wednesday => 3
    case Thursday => 4
    case Friday => 5
    case Saturday => 6
  }

  /** Whole seconds, truncated towards the Epoch as duration_cast does. */
  function ToTimeT(tp: TimePoint): int {
    if tp >= 0 then tp / NANOS else -(-tp / NANOS)
  }

  function FromTimeT(t: int): TimePoint { t * NANOS }

  function GetPreviousWeekDay(tp: TimePoint, d: WeekDay): TimePoint {
    var t := ToTimeT(tp);
    GmtimeInRange(t);
    var tm := Gmtime(t);
    var shift := tm.wday - Number(d);
    var shiftDays := if shift >= 0 then shift else shift + 7;
    FromTimeT(Timegm(tm.(hour := 0, min := 0, sec := 0, mday := tm.mday - shiftDays)))
  }

  function GetNextWeekDay(tp: TimePoint, d: WeekDay): TimePoint {
    GetPreviousWeekDay(tp, d) + 7 * DAY
  }

  /** 00:00:00 UTC on that day of the week; day 0 was a Thursday. */
  predicate MidnightOf(tp: TimePoint, d: WeekDay) {
    tp % DAY == 0 && (tp / DAY + 4) % 7 == Number(d)
  }

  /** What the clock functions make of the midnight that starts day k. */
  lemma DayStart(k: int)
    ensures k * DAY / DAY == k && k * DAY % DAY == 0
    ensures k * DAY == FromTimeT(k * SECONDS_PER_DAY)
    ensures ToTimeT(k * DAY) == k * SECONDS_PER_DAY
  {
    SecondStart(k * SECONDS_PER_DAY);
  }

  lemma SecondStart(t: int)
    ensures ToTimeT(FromTimeT(t)) == t
  {
  }

  lemma Midnight(k: int, d: WeekDay)
    ensures MidnightOf(k * DAY, d) <==> (k + 4) % 7 == Number(d)
  {
    DayStart(k);
  }

  /** The number of days stepped back: to the day itself when the weekday matches, else up to six. */
  function ShiftDays(day: int, d: WeekDay): (n: int)
    ensures 0 <= n < 7 && (day - n + 4) % 7 == Number(d)
  {
    var shift := (day + 4) % 7 - Number(d);
    if shift >= 0 then shift else shift + 7
  }

  /** The carry through a non-positive day of the month steps back over months, years and leap days. */
  lemma {:induction false} ShiftedBack(t: int, days: int)
    ensures 0 <= Gmtime(t).mon < 12
    ensures var tm := Gmtime(t);
            Timegm(tm.(hour := 0, min := 0, sec := 0, mday := tm.mday - days))
            == (t / SECONDS_PER_DAY - days) * SECONDS_PER_DAY
  {
    TimegmGmtime(t);
    GmtimeInRange(t);
  }

  /** The week of the Epoch, day by day: it was a Thursday. */
  lemma WeekOfEpoch()
    ensures MidnightOf(0, Thursday) && MidnightOf(DAY, Friday) && MidnightOf(2 * DAY, Saturday)
    ensures MidnightOf(3 * DAY, Sunday) && MidnightOf(4 * DAY, Monday) && MidnightOf(5 * DAY, Tuesday)
    ensures MidnightOf(6 * DAY, Wednesday)
  {
  }

  /** The result is the start of the stepped-back day. */
  lemma PreviousDay(tp: TimePoint, d: WeekDay)
    ensures var day := ToTimeT(tp) / SECONDS_PER_DAY;
            GetPreviousWeekDay(tp, d) == (day - ShiftDays(day, d)) * DAY
  {
    var t := ToTimeT(tp);
    GmtimeInRange(t);
    var day := t / SECONDS_PER_DAY;
    ShiftedBack(t, ShiftDays(day, d));
    DayStart(day - ShiftDays(day, d));
  }

  lemma {:induction false} PreviousOfSeconds(tp: TimePoint, d: WeekDay)
    ensures var r := GetPreviousWeekDay(tp, d); var s := FromTimeT(ToTimeT(tp));
            MidnightOf(r, d) && r <= s < r + WEEK
  {
    var t := ToTimeT(tp);
    var day := t / SECONDS_PER_DAY;
    PreviousDay(tp, d);
    Midnight(day - ShiftDays(day, d), d);
    assert day * SECONDS_PER_DAY <= t < (day + 1) * SECONDS_PER_DAY;
  }

  lemma MidnightsApart(x: TimePoint, y: TimePoint, d: WeekDay)
    requires MidnightOf(x, d) && MidnightOf(y, d)
    ensures x < y ==> x + WEEK <= y
  {
    var i, j := x / DAY, y / DAY;
    assert x == i * DAY && y == j * DAY;
    WeeksApart(i, j, Number(d));
  }

  lemma WeeksApart(i: int, j: int, n: int)
    requires (i + 4) % 7 == n == (j + 4) % 7
    ensures i < j ==> i + 7 <= j
  {
  }

  /** Truncation to whole seconds stays within the second, below the time from the Epoch on. */
  lemma Truncated(tp: TimePoint)
    ensures var s := FromTimeT(ToTimeT(tp));
            && (tp >= 0 || tp % NANOS == 0 ==> s <= tp < s + NANOS)
            && (tp < 0 && tp % NANOS != 0 ==> tp < s < tp + NANOS)
  {
  }

  /** From the Epoch on the result is the one midnight of that weekday in the week ending now. */
  lemma {:induction false} PreviousWeekDay(tp: TimePoint, d: WeekDay)
    requires tp >= 0
    ensures var r := GetPreviousWeekDay(tp, d);
            && MidnightOf(r, d) && r <= tp < r + WEEK
            && (forall x :: MidnightOf(x, d) && x <= tp < x + WEEK ==> x == r)
  {
    var r := GetPreviousWeekDay(tp, d);
    PreviousIsPast(tp, d);
    PreviousOfSeconds(tp, d);
    forall x | MidnightOf(x, d) && x <= tp < x + WEEK ensures x == r {
      MidnightsApart(x, r, d);
      MidnightsApart(r, x, d);
    }
  }

  lemma {:induction false} NextWeekDay(tp: TimePoint, d: WeekDay)
    requires tp >= 0
    ensures var r := GetNextWeekDay(tp, d); MidnightOf(r, d) && tp < r <= tp + WEEK
  {
    PreviousWeekDay(tp, d);
    NextMidnight(GetPreviousWeekDay(tp, d), d);
  }

  lemma NextMidnight(tp: TimePoint, d: WeekDay)
    requires MidnightOf(tp, d)
    ensures MidnightOf(tp + WEEK, d)
  {
    var k := tp / DAY;
    assert tp + WEEK == (k + 7) * DAY;
    Midnight(k + 7, d);
  }

  lemma PreviousOfMidnight(k: int, d: WeekDay)
    requires (k + 4) % 7 == Number(d)
    ensures GetPreviousWeekDay(k * DAY, d) == k * DAY
  {
    DayStart(k);
    PreviousDay(k * DAY, d);
    StartOfDay(k);
  }

  lemma StartOfDay(k: int)
    ensures k * SECONDS_PER_DAY / SECONDS_PER_DAY == k
  {
  }

  /** Applying it to its own result changes nothing, for times on either side of the Epoch. */
  lemma {:induction false} PreviousIdempotent(tp: TimePoint, d: WeekDay)
    ensures var r := GetPreviousWeekDay(tp, d); GetPreviousWeekDay(r, d) == r
  {
    var first := FirstDay(tp, d);
    PreviousOfMidnight(first, d);
  }

  /** The day the result starts, counted from the Epoch. */
  lemma {:induction false} FirstDay(tp: TimePoint, d: WeekDay) returns (first: int)
    ensures GetPreviousWeekDay(tp, d) == first * DAY && (first + 4) % 7 == Number(d)
  {
    var day := ToTimeT(tp) / SECONDS_PER_DAY;
    PreviousDay(tp, d);
    first := day - ShiftDays(day, d);
  }

  lemma {:induction false} PreviousMonotone(x: TimePoint, y: TimePoint, d: WeekDay)
    requires x <= y
    ensures GetPreviousWeekDay(x, d) <= GetPreviousWeekDay(y, d)
  {
    PreviousOfSeconds(x, d);
    PreviousOfSeconds(y, d);
    MidnightsApart(GetPreviousWeekDay(y, d), GetPreviousWeekDay(x, d), d);
    assert ToTimeT(x) <= ToTimeT(y);
  }

  /** Before the Epoch the result can lie after the time asked about: exactly for a fraction of a
      second that truncates up to a midnight of that weekday. */
  lemma {:induction false} PreviousIsPast(tp: TimePoint, d: WeekDay)
    ensures GetPreviousWeekDay(tp, d) <= tp
            <==> !(tp < 0 && tp % NANOS != 0 && MidnightOf(FromTimeT(ToTimeT(tp)), d))
    ensures tp < GetPreviousWeekDay(tp, d) + WEEK
  {
    var r := GetPreviousWeekDay(tp, d);
    var s := FromTimeT(ToTimeT(tp));
    PreviousOfSeconds(tp, d);
    Truncated(tp);
    WholeSeconds(r, ToTimeT(tp), d);
    if MidnightOf(s, d) {
      MidnightsApart(r, s, d);
    }
    PastOrNot(r, s, tp, MidnightOf(s, d));
  }

  /** The first failing input: a nanosecond before the Epoch, a Thursday, the last Thursday is yet to come. */
  lemma ThursdayBeforeEpoch()
    ensures GetPreviousWeekDay(-1, Thursday) == 0 > -1
  {
    PreviousDay(-1, Thursday);
  }

  lemma PastOrNot(r: TimePoint, s: TimePoint, tp: TimePoint, onMidnight: bool)
    requires r <= s < r + WEEK && (r < s ==> r + NANOS <= s) && s + NANOS <= r + WEEK
    requires onMidnight <==> r == s
    requires if tp >= 0 || tp % NANOS == 0 then s <= tp < s + NANOS else tp < s < tp + NANOS
    ensures r <= tp <==> !(tp < 0 && tp % NANOS != 0 && onMidnight)
    ensures tp < r + WEEK
  {
  }

  lemma WholeDays(k: int)
    ensures k * DAY == k * SECONDS_PER_DAY * NANOS
    ensures k * DAY + WEEK == (k * SECONDS_PER_DAY + 7 * SECONDS_PER_DAY) * NANOS
  {
  }

  lemma SecondsApart(m: int, n: int)
    ensures m * NANOS < n * NANOS ==> m * NANOS + NANOS <= n * NANOS
  {
  }

  /** A midnight and a whole second below or above it are at least a second apart. */
  lemma WholeSeconds(r: TimePoint, t: int, d: WeekDay)
    requires MidnightOf(r, d)
    ensures r < FromTimeT(t) ==> r + NANOS <= FromTimeT(t)
    ensures FromTimeT(t) < r + WEEK ==> FromTimeT(t) + NANOS <= r + WEEK
  {
    var k := r / DAY;
    assert r == k * DAY;
    WholeDays(k);
    SecondsApart(k * SECONDS_PER_DAY, t);
    SecondsApart(t, k * SECONDS_PER_DAY + 7 * SECONDS_PER_DAY);
  }
}
