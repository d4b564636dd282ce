/** A small optional-value type: the model's stand-in for a JavaScript value that may be null. */
module Optional {
  datatype Option<T> = None | Some(value: T)
}

/**
  Civil-calendar and Date arithmetic behind the shell calendar.

  An instant is an integer number of milliseconds of LOCAL wall-clock time since
  1970-01-01 00:00 (time zones and daylight saving are not modelled). Day numbers
  count days from 1970-01-01, which was a Thursday. The getters and setters follow
  the ECMAScript definitions the source relies on (Day, TimeWithinDay, WeekDay,
  MakeTime, MakeDay, MakeDate), including the way an out-of-range day of month
  overflows into the following month.
*/
module Dates {
  import opened Optional

  const MSECS_IN_SECOND: int := 1000
  const MSECS_IN_MINUTE: int := 60_000
  const MSECS_IN_HOUR: int := 3_600_000
  /** 24 * 60 * 60 * 1000. */
  const MSECS_IN_DAY: int := 86_400_000

  /** 1970, the year of day number 0. */
  const EPOCH_YEAR: int := 1970

  // ---------------------------------------------------------------------------
  // The Gregorian calendar on day numbers
  // ---------------------------------------------------------------------------

  predicate IsLeapYear(y: int) {
    y % 4 == 0 && (y % 100 != 0 || y % 400 == 0)
  }

  function DaysInYear(y: int): int {
    if IsLeapYear(y) then 366 else 365
  }

  /** Number of days in month `m` (0 = January, as Date.getMonth counts) of year `y`. */
  function DaysInMonth(y: int, m: int): (n: int)
    requires 0 <= m < 12
    ensures 28 <= n <= 31
    ensures n == 29 <==> m == 1 && IsLeapYear(y)
    ensures n == 28 <==> m == 1 && !IsLeapYear(y)
  {
    if m == 1 then (if IsLeapYear(y) then 29 else 28)
    else if m == 3 || m == 5 || m == 8 || m == 10 then 30
    else 31
  }

  /** Days of year `y` that lie before the first of month `m`. */
  function DaysBeforeMonth(y: int, m: int): int
    requires 0 <= m <= 12
  {
    (if m == 0 then 0
     else if m == 1 then 31
     else if m == 2 then 59
     else if m == 3 then 90
     else if m == 4 then 120
     else if m == 5 then 151
     else if m == 6 then 181
     else if m == 7 then 212
     else if m == 8 then 243
     else if m == 9 then 273
     else if m == 10 then 304
     else if m == 11 then 334
     else 365)
    + (if m >= 2 && IsLeapYear(y) then 1 else 0)
  }

  lemma DaysBeforeNextMonth(y: int, m: int)
    requires 0 <= m < 12
    ensures DaysBeforeMonth(y, m + 1) == DaysBeforeMonth(y, m) + DaysInMonth(y, m)
    ensures DaysBeforeMonth(y, 12) == DaysInYear(y)
  {
  }

  lemma DaysBeforeMonthMonotone(y: int, a: int, b: int)
    requires 0 <= a <= b <= 12
    ensures DaysBeforeMonth(y, a) <= DaysBeforeMonth(y, b)
    ensures a < b ==> DaysBeforeMonth(y, a) + 28 <= DaysBeforeMonth(y, b)
  {
  }

  /** Day number of 1 January of year `y`. */
  function YearStart(y: int): int
    decreases if y >= EPOCH_YEAR then y - EPOCH_YEAR else EPOCH_YEAR - y
  {
    if y == EPOCH_YEAR then 0
    else if y > EPOCH_YEAR then YearStart(y - 1) + DaysInYear(y - 1)
    else YearStart(y + 1) - DaysInYear(y)
  }

  lemma YearStartStep(y: int)
    ensures YearStart(y + 1) == YearStart(y) + DaysInYear(y)
  {
  }

  lemma {:induction false} YearStartMonotone(a: int, b: int)
    requires a <= b
    ensures YearStart(a) + 365 * (b - a) <= YearStart(b)
    decreases b - a
  {
    if a < b {
      YearStartMonotone(a, b - 1);
      YearStartStep(b - 1);
    }
  }

  lemma {:induction false} YearStartBelowEpoch(k: nat)
    ensures YearStart(EPOCH_YEAR - k) <= -365 * k
  {
    if k > 0 {
      YearStartBelowEpoch(k - 1);
      YearStartStep(EPOCH_YEAR - k);
    }
  }

  /** The year holding day `n`, searching upwards from a year that starts no later than `n`. */
  function YearFrom(n: int, y: int): (r: int)
    requires YearStart(y) <= n
    ensures y <= r
    ensures YearStart(r) <= n < YearStart(r + 1)
    decreases n - YearStart(y)
  {
    YearStartStep(y);
    if n < YearStart(y + 1) then y else YearFrom(n, y + 1)
  }

  /** The (unique) year whose days include day number `n`. */
  function YearOfDay(n: int): (y: int)
    ensures YearStart(y) <= n < YearStart(y + 1)
  {
    if n >= 0 then YearFrom(n, EPOCH_YEAR)
    else
      YearStartBelowEpoch(-(n / 365));
      YearFrom(n, EPOCH_YEAR + n / 365)
  }

  lemma YearUnique(n: int, y1: int, y2: int)
    requires YearStart(y1) <= n < YearStart(y1 + 1)
    requires YearStart(y2) <= n < YearStart(y2 + 1)
    ensures y1 == y2
  {
    if y1 < y2 {
      YearStartMonotone(y1 + 1, y2);
    } else if y2 < y1 {
      YearStartMonotone(y2 + 1, y1);
    }
  }

  /** The month of year `y` holding day-of-year `doy`, searching upwards from month `m`. */
  function MonthFrom(y: int, doy: int, m: int): (r: int)
    requires 0 <= m < 12
    requires DaysBeforeMonth(y, m) <= doy < DaysInYear(y)
    ensures m <= r < 12
    ensures DaysBeforeMonth(y, r) <= doy < DaysBeforeMonth(y, r) + DaysInMonth(y, r)
    decreases 12 - m
  {
    DaysBeforeNextMonth(y, m);
    if m == 11 || doy < DaysBeforeMonth(y, m + 1) then m else MonthFrom(y, doy, m + 1)
  }

  /** A calendar date: full year, month 0..11 and day of month, as Date's getters return them. */
  datatype Civil = Civil(year: int, month: int, day: int)

  predicate ValidCivil(c: Civil) {
    0 <= c.month < 12 && 1 <= c.day <= DaysInMonth(c.year, c.month)
  }

  /**
    ECMAScript MakeDay: the day number of day `d` of month `m` of year `y`. Months
    outside 0..11 carry into the year, and days outside the month carry into the
    neighbouring months (Feb 31 is the same day as Mar 3 in a common year).
  */
  function MakeDay(y: int, m: int, d: int): int {
    var ym := y + m / 12;
    var mn := m % 12;
    YearStart(ym) + DaysBeforeMonth(ym, mn) + d - 1
  }

  /** For a month within the year, MakeDay needs no carry. */
  lemma MakeDayInYear(y: int, m: int, d: int)
    requires 0 <= m < 12
    ensures MakeDay(y, m, d) == YearStart(y) + DaysBeforeMonth(y, m) + d - 1
  {
    assert m / 12 == 0 && m % 12 == m;
  }

  /** A valid date lies on day `n`: the year holding `n`, then the month holding its day of year. */
  lemma CivilExists(n: int)
    ensures exists c :: ValidCivil(c) && MakeDay(c.year, c.month, c.day) == n
  {
    var y := YearOfDay(n);
    DaysBeforeNextMonth(y, 11);
    var m := MonthFrom(y, n - YearStart(y), 0);
    var c := Civil(y, m, n - YearStart(y) - DaysBeforeMonth(y, m) + 1);
    MakeDayInYear(y, m, c.day);
    assert ValidCivil(c);
  }

  /** A valid date lies within its year. */
  lemma DateWithinYear(c: Civil)
    requires ValidCivil(c)
    ensures YearStart(c.year) <= MakeDay(c.year, c.month, c.day) < YearStart(c.year + 1)
  {
    MakeDayInYear(c.year, c.month, c.day);
    DaysBeforeNextMonth(c.year, c.month);
    DaysBeforeMonthMonotone(c.year, c.month + 1, 12);
    YearStartStep(c.year);
  }

  /** Within one year, the day of the year determines the month and the day of the month. */
  lemma DayOfYearInjective(y: int, m1: int, d1: int, m2: int, d2: int)
    requires ValidCivil(Civil(y, m1, d1)) && ValidCivil(Civil(y, m2, d2))
    requires MakeDay(y, m1, d1) == MakeDay(y, m2, d2)
    ensures m1 == m2 && d1 == d2
  {
    MakeDayInYear(y, m1, d1);
    MakeDayInYear(y, m2, d2);
    DaysBeforeNextMonth(y, m1);
    DaysBeforeNextMonth(y, m2);
    if m1 < m2 {
      DaysBeforeMonthMonotone(y, m1 + 1, m2);
    } else if m2 < m1 {
      DaysBeforeMonthMonotone(y, m2 + 1, m1);
    }
  }

  /** Distinct valid dates have distinct day numbers. */
  lemma MakeDayInjective(c1: Civil, c2: Civil)
    requires ValidCivil(c1) && ValidCivil(c2)
    requires MakeDay(c1.year, c1.month, c1.day) == MakeDay(c2.year, c2.month, c2.day)
    ensures c1 == c2
  {
    assert c1.year == c2.year by {
      DateWithinYear(c1);
      DateWithinYear(c2);
      YearUnique(MakeDay(c1.year, c1.month, c1.day), c1.year, c2.year);
    }
    DayOfYearInjective(c1.year, c1.month, c1.day, c2.month, c2.day);
  }

  lemma DayNumbersDistinguishDates()
    ensures forall c1, c2 ::
              ValidCivil(c1) && ValidCivil(c2) && MakeDay(c1.year, c1.month, c1.day) == MakeDay(c2.year, c2.month, c2.day)
              ==> c1 == c2
  {
    forall c1, c2 | ValidCivil(c1) && ValidCivil(c2) && MakeDay(c1.year, c1.month, c1.day) == MakeDay(c2.year, c2.month, c2.day)
      ensures c1 == c2
    {
      MakeDayInjective(c1, c2);
    }
  }

  /**
    The calendar date of day number `n`: the one valid date whose day number is `n`
    (it exists by CivilExists and is unique by MakeDayInjective).
  */
  function CivilOfDay(n: int): (c: Civil)
    ensures ValidCivil(c)
    ensures MakeDay(c.year, c.month, c.day) == n
  {
    CivilExists(n);
    DayNumbersDistinguishDates();
    var c :| ValidCivil(c) && MakeDay(c.year, c.month, c.day) == n;
    c
  }

  /** Reading a valid date back from its day number gives the same date. */
  lemma CivilRoundTrip(c: Civil)
    requires ValidCivil(c)
    ensures CivilOfDay(MakeDay(c.year, c.month, c.day)) == c
  {
    MakeDayInjective(c, CivilOfDay(MakeDay(c.year, c.month, c.day)));
  }

  /** A day one past the end of month `m` is the first of the following month. */
  lemma MakeDayOverflow(y: int, m: int, d: int)
    requires 0 <= m < 12
    ensures m < 11 ==> MakeDay(y, m, d) == MakeDay(y, m + 1, d - DaysInMonth(y, m))
    ensures m == 11 ==> MakeDay(y, m, d) == MakeDay(y + 1, 0, d - 31)
  {
    DaysBeforeNextMonth(y, m);
    YearStartStep(y);
  }

  // ---------------------------------------------------------------------------
  // Instants
  // ---------------------------------------------------------------------------

  /** ECMAScript Day(t): the day number of instant `t`. */
  function DayNumber(t: int): int {
    t / MSECS_IN_DAY
  }

  /** ECMAScript TimeWithinDay(t). */
  function TimeOfDay(t: int): (ms: int)
    ensures 0 <= ms < MSECS_IN_DAY
  {
    t % MSECS_IN_DAY
  }

  /** ECMAScript MakeTime, for a time of day given by its components. */
  function MakeTime(h: int, min: int, s: int, ms: int): int {
    h * MSECS_IN_HOUR + min * MSECS_IN_MINUTE + s * MSECS_IN_SECOND + ms
  }

  /** ECMAScript MakeDate: the instant `time` milliseconds after the start of day `day`. */
  function MakeDate(day: int, time: int): int {
    day * MSECS_IN_DAY + time
  }

  lemma InstantParts(day: int, time: int)
    requires 0 <= time < MSECS_IN_DAY
    ensures DayNumber(MakeDate(day, time)) == day
    ensures TimeOfDay(MakeDate(day, time)) == time
  {
  }

  lemma InstantSplit(t: int)
    ensures t == MakeDate(DayNumber(t), TimeOfDay(t))
  {
  }

  /** Date.getDay: 0 = Sunday .. 6 = Saturday; day number 0 was a Thursday. */
  function GetDay(t: int): (wd: int)
    ensures 0 <= wd < 7
  {
    (DayNumber(t) + 4) % 7
  }

  function GetMilliseconds(t: int): (ms: int)
    ensures 0 <= ms < 1000
  {
    TimeOfDay(t) % 1000
  }

  function GetSeconds(t: int): (s: int)
    ensures 0 <= s < 60
  {
    TimeOfDay(t) / 1000 % 60
  }

  function GetMinutes(t: int): (min: int)
    ensures 0 <= min < 60
  {
    TimeOfDay(t) / 1000 / 60 % 60
  }

  function GetHours(t: int): (h: int)
    ensures 0 <= h < 24
  {
    TimeOfDay(t) / 1000 / 60 / 60
  }

  /** The clock components of an instant put back together give its time of day. */
  lemma TimeComponents(t: int)
    ensures TimeOfDay(t) == MakeTime(GetHours(t), GetMinutes(t), GetSeconds(t), GetMilliseconds(t))
  {
    var tod := TimeOfDay(t);
    var a := tod / 1000;
    var b := a / 60;
    assert tod == 1000 * a + tod % 1000;
    assert a == 60 * b + a % 60;
    assert b == 60 * (b / 60) + b % 60;
  }

  /** Each clock component of a time built by MakeTime is read back unchanged. */
  lemma TimeFromComponents(day: int, h: int, min: int, s: int, ms: int)
    requires 0 <= h < 24 && 0 <= min < 60 && 0 <= s < 60 && 0 <= ms < 1000
    ensures 0 <= MakeTime(h, min, s, ms) < MSECS_IN_DAY
    ensures DayNumber(MakeDate(day, MakeTime(h, min, s, ms))) == day
    ensures TimeOfDay(MakeDate(day, MakeTime(h, min, s, ms))) == MakeTime(h, min, s, ms)
    ensures GetHours(MakeDate(day, MakeTime(h, min, s, ms))) == h
    ensures GetMinutes(MakeDate(day, MakeTime(h, min, s, ms))) == min
    ensures GetSeconds(MakeDate(day, MakeTime(h, min, s, ms))) == s
    ensures GetMilliseconds(MakeDate(day, MakeTime(h, min, s, ms))) == ms
  {
    var tod := MakeTime(h, min, s, ms);
    InstantParts(day, tod);
    var a := 3600 * h + 60 * min + s;
    assert tod == 1000 * a + ms;
    assert tod / 1000 == a;
    assert a / 60 == 60 * h + min;
    assert (60 * h + min) / 60 == h;
  }

  /** The calendar date of an instant. */
  function CivilOf(t: int): (c: Civil)
    ensures ValidCivil(c)
  {
    CivilOfDay(DayNumber(t))
  }

  function GetFullYear(t: int): int {
    CivilOf(t).year
  }

  /** Date.getYear: the year minus 1900. */
  function GetYear(t: int): int {
    GetFullYear(t) - 1900
  }

  function GetMonth(t: int): (m: int)
    ensures 0 <= m < 12
  {
    CivilOf(t).month
  }

  /** Date.getDate: the day of the month. */
  function GetDate(t: int): (d: int)
    ensures 1 <= d <= DaysInMonth(GetFullYear(t), GetMonth(t))
  {
    CivilOf(t).day
  }

  /** The day number of an instant is that of its calendar date. */
  lemma DayNumberOfCivil(t: int)
    ensures MakeDay(GetFullYear(t), GetMonth(t), GetDate(t)) == DayNumber(t)
  {
  }

  // ---------------------------------------------------------------------------
  // Date setters and constructor, on local time
  // ---------------------------------------------------------------------------

  /** new Date(y, m, d): midnight at the start of that (possibly overflowing) date. */
  function NewDate(y: int, m: int, d: int): int {
    MakeDate(MakeDay(y, m, d), 0)
  }

  function SetHours(t: int, h: int): int {
    MakeDate(DayNumber(t), MakeTime(h, GetMinutes(t), GetSeconds(t), GetMilliseconds(t)))
  }

  function SetMinutes(t: int, min: int): int {
    MakeDate(DayNumber(t), MakeTime(GetHours(t), min, GetSeconds(t), GetMilliseconds(t)))
  }

  function SetSeconds(t: int, s: int): int {
    MakeDate(DayNumber(t), MakeTime(GetHours(t), GetMinutes(t), s, GetMilliseconds(t)))
  }

  function SetMilliseconds(t: int, ms: int): int {
    MakeDate(DayNumber(t), MakeTime(GetHours(t), GetMinutes(t), GetSeconds(t), ms))
  }

  /** Date.setDate: same year, month and time of day, day of month `d` (overflowing if too large). */
  function SetDate(t: int, d: int): int {
    MakeDate(MakeDay(GetFullYear(t), GetMonth(t), d), TimeOfDay(t))
  }

  /** Date.setMonth: same year, day of month and time of day, month `m`. */
  function SetMonth(t: int, m: int): int {
    MakeDate(MakeDay(GetFullYear(t), m, GetDate(t)), TimeOfDay(t))
  }

  /** Date.setFullYear: same month, day of month and time of day, year `y`. */
  function SetFullYear(t: int, y: int): int {
    MakeDate(MakeDay(y, GetMonth(t), GetDate(t)), TimeOfDay(t))
  }

  /** The instant at time `time` of a valid calendar date reads back as that date. */
  lemma CivilOfDate(c: Civil, time: int)
    requires ValidCivil(c)
    requires 0 <= time < MSECS_IN_DAY
    ensures CivilOf(MakeDate(MakeDay(c.year, c.month, c.day), time)) == c
    ensures TimeOfDay(MakeDate(MakeDay(c.year, c.month, c.day), time)) == time
  {
    InstantParts(MakeDay(c.year, c.month, c.day), time);
    CivilRoundTrip(c);
  }

  // ---------------------------------------------------------------------------
  // The helpers of calendar.js
  // ---------------------------------------------------------------------------

  predicate SameYear(a: int, b: int) {
    GetYear(a) == GetYear(b)
  }

  predicate SameMonth(a: int, b: int) {
    SameYear(a, b) && GetMonth(a) == GetMonth(b)
  }

  /**
    Two instants fall on the same calendar day: they have the same day number. This is
    the year, month and day-of-month comparison of _sameDay (SameDayByFields).
  */
  predicate SameDay(a: int, b: int) {
    DayNumber(a) == DayNumber(b)
  }

  /** _sameDay compares year, month and day of month; that is comparing day numbers. */
  lemma SameDayByFields(a: int, b: int)
    ensures SameDay(a, b) <==> SameMonth(a, b) && GetDate(a) == GetDate(b)
  {
    if SameMonth(a, b) && GetDate(a) == GetDate(b) {
      assert CivilOf(a) == CivilOf(b);
      DayNumberOfCivil(a);
      DayNumberOfCivil(b);
    }
  }

  /** Two instants fall in the same month exactly when the first days of their months coincide. */
  lemma SameMonthIff(a: int, b: int)
    ensures SameMonth(a, b) <==> MakeDay(GetFullYear(a), GetMonth(a), 1) == MakeDay(GetFullYear(b), GetMonth(b), 1)
  {
    var ca := Civil(GetFullYear(a), GetMonth(a), 1);
    var cb := Civil(GetFullYear(b), GetMonth(b), 1);
    if MakeDay(ca.year, ca.month, 1) == MakeDay(cb.year, cb.month, 1) {
      MakeDayInjective(ca, cb);
    }
  }

  /** Saturday and Sunday are the non-work days; every other weekday is a work day. */
  predicate IsWorkDay(t: int) {
    GetDay(t) != 0 && GetDay(t) != 6
  }

  /** The first millisecond of the day of `t`: what _getBeginningOfDay returns. */
  function BeginningOfDay(t: int): int {
    DayNumber(t) * MSECS_IN_DAY
  }

  /** The last millisecond of the day of `t`: what _getEndOfDay returns. */
  function EndOfDay(t: int): int {
    DayNumber(t) * MSECS_IN_DAY + MSECS_IN_DAY - 1
  }

  /**
    _getBeginningOfDay sets hours, minutes, seconds and milliseconds to zero in turn;
    the result is the first millisecond of the same day.
  */
  lemma BeginningOfDayBySetters(t: int)
    ensures SetMilliseconds(SetSeconds(SetMinutes(SetHours(t, 0), 0), 0), 0) == BeginningOfDay(t)
    ensures DayNumber(BeginningOfDay(t)) == DayNumber(t) && TimeOfDay(BeginningOfDay(t)) == 0
  {
    TimeFromComponents(DayNumber(t), 0, GetMinutes(t), GetSeconds(t), GetMilliseconds(t));
    TimeFromComponents(DayNumber(t), 0, 0, GetSeconds(t), GetMilliseconds(t));
    TimeFromComponents(DayNumber(t), 0, 0, 0, GetMilliseconds(t));
    TimeFromComponents(DayNumber(t), 0, 0, 0, 0);
  }

  /**
    _getEndOfDay sets the clock to 23:59:59.999 in turn; the result is the last
    millisecond of the same day.
  */
  lemma EndOfDayBySetters(t: int)
    ensures SetMilliseconds(SetSeconds(SetMinutes(SetHours(t, 23), 59), 59), 999) == EndOfDay(t)
    ensures DayNumber(EndOfDay(t)) == DayNumber(t) && TimeOfDay(EndOfDay(t)) == MSECS_IN_DAY - 1
  {
    TimeFromComponents(DayNumber(t), 23, GetMinutes(t), GetSeconds(t), GetMilliseconds(t));
    TimeFromComponents(DayNumber(t), 23, 59, GetSeconds(t), GetMilliseconds(t));
    TimeFromComponents(DayNumber(t), 23, 59, 59, GetMilliseconds(t));
    TimeFromComponents(DayNumber(t), 23, 59, 59, 999);
  }

  /** The value a Date-or-null takes in a relational comparison: null compares as 0. */
  function ComparedValue(d: Option<int>): int {
    if d.Some? then d.value else 0
  }

  /** _datesEqual: neither `a < b` nor `a > b` holds. */
  function DatesEqual(a: int, b: Option<int>): (r: bool)
    ensures r <==> a == ComparedValue(b)
    ensures b.Some? ==> (r <==> a == b.value)
  {
    if a < ComparedValue(b) then false
    else if a > ComparedValue(b) then false
    else true
  }

  /** _dateIntervalsOverlap: the half-open intervals [a0, a1) and [b0, b1) share an instant. */
  function DateIntervalsOverlap(a0: int, a1: int, b0: int, b1: int): (r: bool)
    ensures r <==> b0 < a1 && a0 < b1
    ensures a1 == b0 || b1 == a0 ==> !r
  {
    if a1 <= b0 then false
    else if b1 <= a0 then false
    else true
  }

  /** Instant `t` lies in the half-open interval [lo, hi). */
  predicate InInterval(t: int, lo: int, hi: int) {
    lo <= t < hi
  }

  lemma OverlapSymmetric(a0: int, a1: int, b0: int, b1: int)
    ensures DateIntervalsOverlap(a0, a1, b0, b1) == DateIntervalsOverlap(b0, b1, a0, a1)
  {
  }

  /** For non-empty intervals, overlapping means exactly that some instant lies in both. */
  lemma OverlapMeaning(a0: int, a1: int, b0: int, b1: int)
    requires a0 < a1 && b0 < b1
    ensures DateIntervalsOverlap(a0, a1, b0, b1) <==> exists t :: InInterval(t, a0, a1) && InInterval(t, b0, b1)
  {
    if DateIntervalsOverlap(a0, a1, b0, b1) {
      var t := if a0 < b0 then b0 else a0;
      assert InInterval(t, a0, a1) && InInterval(t, b0, b1);
    }
  }

  /** Stepping an instant by whole days moves its day number and weekday by that much. */
  lemma AddDays(t: int, k: int)
    ensures DayNumber(t + k * MSECS_IN_DAY) == DayNumber(t) + k
    ensures TimeOfDay(t + k * MSECS_IN_DAY) == TimeOfDay(t)
    ensures GetDay(t + k * MSECS_IN_DAY) == (GetDay(t) + k) % 7
  {
    InstantSplit(t);
    assert t + k * MSECS_IN_DAY == MakeDate(DayNumber(t) + k, TimeOfDay(t));
    InstantParts(DayNumber(t) + k, TimeOfDay(t));
  }
}
