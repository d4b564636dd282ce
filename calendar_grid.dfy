/**
  The month view of the shell calendar: month navigation, the weekday header and
  the six-week grid of day buttons, with the Calendar object that keeps them.

  Widgets become values: a day button is a `DayButton` record carrying the flags
  its style classes encode and its grid position; the week-number labels and the
  weekday header labels are records as well.
*/
module CalendarGrid {
  import opened Optional
  import opened Dates
  import opened Events

  function Min(a: int, b: int): int {
    if a <= b then a else b
  }

  // ---------------------------------------------------------------------------
  // Month navigation
  // ---------------------------------------------------------------------------

  /** Date.setMonth within a year: the day of month is kept, or overflows into the next month. */
  lemma SetMonthSpec(t: int, m: int)
    requires 0 <= m < 12
    ensures GetDate(t) <= DaysInMonth(GetFullYear(t), m) ==>
      && CivilOf(SetMonth(t, m)) == Civil(GetFullYear(t), m, GetDate(t))
      && TimeOfDay(SetMonth(t, m)) == TimeOfDay(t)
    ensures GetDate(t) > DaysInMonth(GetFullYear(t), m) ==>
      && m < 11
      && CivilOf(SetMonth(t, m)) == Civil(GetFullYear(t), m + 1, GetDate(t) - DaysInMonth(GetFullYear(t), m))
  {
    var y, d := GetFullYear(t), GetDate(t);
    if d <= DaysInMonth(y, m) {
      CivilOfDate(Civil(y, m, d), TimeOfDay(t));
    } else {
      MakeDayOverflow(y, m, d);
      CivilOfDate(Civil(y, m + 1, d - DaysInMonth(y, m)), TimeOfDay(t));
    }
  }

  lemma SetFullYearSpec(t: int, y: int)
    requires GetDate(t) <= DaysInMonth(y, GetMonth(t))
    ensures CivilOf(SetFullYear(t, y)) == Civil(y, GetMonth(t), GetDate(t))
    ensures TimeOfDay(SetFullYear(t, y)) == TimeOfDay(t)
  {
    CivilOfDate(Civil(y, GetMonth(t), GetDate(t)), TimeOfDay(t));
  }

  /** `32 - new Date(y, m, 32).getDate()` is the number of days in month `m`. */
  lemma DaysInMonthVia32(y: int, m: int)
    requires 0 <= m < 12
    ensures 32 - GetDate(NewDate(y, m, 32)) == DaysInMonth(y, m)
  {
    MakeDayOverflow(y, m, 32);
    if m < 11 {
      CivilOfDate(Civil(y, m + 1, 32 - DaysInMonth(y, m)), 0);
    } else {
      CivilOfDate(Civil(y + 1, 0, 1), 0);
    }
  }

  lemma NewDateSpec(y: int, m: int, d: int)
    requires ValidCivil(Civil(y, m, d))
    ensures CivilOf(NewDate(y, m, d)) == Civil(y, m, d)
    ensures TimeOfDay(NewDate(y, m, d)) == 0
  {
    CivilOfDate(Civil(y, m, d), 0);
  }

  /** The date _onPrevMonthButtonClicked selects, computed as the handler does. */
  function PrevMonthDate(t: int): int {
    var oldMonth := GetMonth(t);
    if oldMonth == 0 then
      var newDate := SetFullYear(SetMonth(t, 11), GetFullYear(SetMonth(t, 11)) - 1);
      if GetMonth(newDate) != 11 then
        var day := 32 - GetDate(NewDate(GetFullYear(newDate) - 1, 11, 32));
        NewDate(GetFullYear(newDate) - 1, 11, day)
      else newDate
    else
      var newDate := SetMonth(t, oldMonth - 1);
      if GetMonth(newDate) != oldMonth - 1 then
        var day := 32 - GetDate(NewDate(GetFullYear(newDate), oldMonth - 1, 32));
        NewDate(GetFullYear(newDate), oldMonth - 1, day)
      else newDate
  }

  /** The date _onNextMonthButtonClicked selects, computed as the handler does. */
  function NextMonthDate(t: int): int {
    var oldMonth := GetMonth(t);
    if oldMonth == 11 then
      var newDate := SetFullYear(SetMonth(t, 0), GetFullYear(SetMonth(t, 0)) + 1);
      if GetMonth(newDate) != 0 then
        var day := 32 - GetDate(NewDate(GetFullYear(newDate) + 1, 0, 32));
        NewDate(GetFullYear(newDate) + 1, 0, day)
      else newDate
    else
      var newDate := SetMonth(t, oldMonth + 1);
      if GetMonth(newDate) != oldMonth + 1 then
        var day := 32 - GetDate(NewDate(GetFullYear(newDate), oldMonth + 1, 32));
        NewDate(GetFullYear(newDate), oldMonth + 1, day)
      else newDate
  }

  function PrevMonthYear(c: Civil): int {
    if c.month == 0 then c.year - 1 else c.year
  }

  function PrevMonthMonth(c: Civil): int {
    if c.month == 0 then 11 else c.month - 1
  }

  function NextMonthYear(c: Civil): int {
    if c.month == 11 then c.year + 1 else c.year
  }

  function NextMonthMonth(c: Civil): int {
    if c.month == 11 then 0 else c.month + 1
  }

  /** The year-crossing branch of the handler, when the month it reaches is the one wanted. */
  lemma PrevMonthDateCrossesYear(t: int)
    requires GetMonth(t) == 0
    requires GetMonth(SetFullYear(SetMonth(t, 11), GetFullYear(SetMonth(t, 11)) - 1)) == 11
    ensures PrevMonthDate(t) == SetFullYear(SetMonth(t, 11), GetFullYear(SetMonth(t, 11)) - 1)
  {
  }

  /** From January the handler lands in December of the year before, which is never too short. */
  lemma PrevMonthFromJanuary(t: int)
    requires GetMonth(t) == 0
    ensures CivilOf(PrevMonthDate(t)) == Civil(GetFullYear(t) - 1, 11, GetDate(t))
    ensures TimeOfDay(PrevMonthDate(t)) == TimeOfDay(t)
  {
    var y, d := GetFullYear(t), GetDate(t);
    var d1 := SetMonth(t, 11);
    CivilOfDate(Civil(y, 11, d), TimeOfDay(t));
    assert CivilOf(d1) == Civil(y, 11, d) && TimeOfDay(d1) == TimeOfDay(t);
    var d2 := SetFullYear(d1, GetFullYear(d1) - 1);
    assert d2 == MakeDate(MakeDay(y - 1, 11, d), TimeOfDay(t));
    CivilOfDate(Civil(y - 1, 11, d), TimeOfDay(t));
    assert GetMonth(d2) == 11;
    PrevMonthDateCrossesYear(t);
  }

  /** Within the year, a day of month that exists in the month before is kept with its time. */
  lemma PrevMonthKeepsDay(t: int)
    requires 0 < GetMonth(t) && GetDate(t) <= DaysInMonth(GetFullYear(t), GetMonth(t) - 1)
    ensures CivilOf(PrevMonthDate(t)) == Civil(GetFullYear(t), GetMonth(t) - 1, GetDate(t))
    ensures TimeOfDay(PrevMonthDate(t)) == TimeOfDay(t)
  {
    SetMonthSpec(t, GetMonth(t) - 1);
  }

  /** The within-year branch of the handler, when setMonth overflowed past the month wanted. */
  lemma PrevMonthDateClamped(t: int)
    requires 0 < GetMonth(t)
    requires GetMonth(SetMonth(t, GetMonth(t) - 1)) != GetMonth(t) - 1
    ensures var nd := SetMonth(t, GetMonth(t) - 1);
      PrevMonthDate(t) == NewDate(GetFullYear(nd), GetMonth(t) - 1,
                             32 - GetDate(NewDate(GetFullYear(nd), GetMonth(t) - 1, 32)))
  {
  }

  /** Within the year, a day of month past the end of the month before becomes its last day, at midnight. */
  lemma PrevMonthClamps(t: int)
    requires 0 < GetMonth(t) && GetDate(t) > DaysInMonth(GetFullYear(t), GetMonth(t) - 1)
    ensures CivilOf(PrevMonthDate(t)) == Civil(GetFullYear(t), GetMonth(t) - 1, DaysInMonth(GetFullYear(t), GetMonth(t) - 1))
    ensures TimeOfDay(PrevMonthDate(t)) == 0
  {
    var y, m := GetFullYear(t), GetMonth(t) - 1;
    SetMonthSpec(t, m);
    var nd := SetMonth(t, m);
    assert GetMonth(nd) != m && GetFullYear(nd) == y;
    PrevMonthDateClamped(t);
    DaysInMonthVia32(y, m);
    NewDateSpec(y, m, DaysInMonth(y, m));
  }


  /**
    The previous month: month m - 1 of the same year, or December of the year before
    for January, on the same day of month clamped to the length of that month. An
    unclamped date keeps its time of day; a clamped one is at midnight.
  */
  lemma PrevMonthSpec(t: int)
    ensures var c := CivilOf(t);
      var ty, tm := PrevMonthYear(c), PrevMonthMonth(c);
      && CivilOf(PrevMonthDate(t)) == Civil(ty, tm, Min(c.day, DaysInMonth(ty, tm)))
      && TimeOfDay(PrevMonthDate(t)) == (if c.day <= DaysInMonth(ty, tm) then TimeOfDay(t) else 0)
  {
    var c := CivilOf(t);
    if c.month == 0 {
      PrevMonthFromJanuary(t);
    } else if c.day <= DaysInMonth(c.year, c.month - 1) {
      PrevMonthKeepsDay(t);
    } else {
      PrevMonthClamps(t);
    }
  }

  /** The year-crossing branch of the handler, when the month it reaches is the one wanted. */
  lemma NextMonthDateCrossesYear(t: int)
    requires GetMonth(t) == 11
    requires GetMonth(SetFullYear(SetMonth(t, 0), GetFullYear(SetMonth(t, 0)) + 1)) == 0
    ensures NextMonthDate(t) == SetFullYear(SetMonth(t, 0), GetFullYear(SetMonth(t, 0)) + 1)
  {
  }

  /** From December the handler lands in January of the year after, which is never too short. */
  lemma NextMonthFromDecember(t: int)
    requires GetMonth(t) == 11
    ensures CivilOf(NextMonthDate(t)) == Civil(GetFullYear(t) + 1, 0, GetDate(t))
    ensures TimeOfDay(NextMonthDate(t)) == TimeOfDay(t)
  {
    var y, d := GetFullYear(t), GetDate(t);
    var d1 := SetMonth(t, 0);
    CivilOfDate(Civil(y, 0, d), TimeOfDay(t));
    assert CivilOf(d1) == Civil(y, 0, d) && TimeOfDay(d1) == TimeOfDay(t);
    var d2 := SetFullYear(d1, GetFullYear(d1) + 1);
    assert d2 == MakeDate(MakeDay(y + 1, 0, d), TimeOfDay(t));
    CivilOfDate(Civil(y + 1, 0, d), TimeOfDay(t));
    assert GetMonth(d2) == 0;
    NextMonthDateCrossesYear(t);
  }

  /** Within the year, a day of month that exists in the month after is kept with its time. */
  lemma NextMonthKeepsDay(t: int)
    requires GetMonth(t) < 11 && GetDate(t) <= DaysInMonth(GetFullYear(t), GetMonth(t) + 1)
    ensures CivilOf(NextMonthDate(t)) == Civil(GetFullYear(t), GetMonth(t) + 1, GetDate(t))
    ensures TimeOfDay(NextMonthDate(t)) == TimeOfDay(t)
  {
    SetMonthSpec(t, GetMonth(t) + 1);
  }

  /** The within-year branch of the handler, when setMonth overflowed past the month wanted. */
  lemma NextMonthDateClamped(t: int)
    requires GetMonth(t) < 11
    requires GetMonth(SetMonth(t, GetMonth(t) + 1)) != GetMonth(t) + 1
    ensures var nd := SetMonth(t, GetMonth(t) + 1);
      NextMonthDate(t) == NewDate(GetFullYear(nd), GetMonth(t) + 1,
                             32 - GetDate(NewDate(GetFullYear(nd), GetMonth(t) + 1, 32)))
  {
  }

  /** Within the year, a day of month past the end of the month after becomes its last day, at midnight. */
  lemma NextMonthClamps(t: int)
    requires GetMonth(t) < 11 && GetDate(t) > DaysInMonth(GetFullYear(t), GetMonth(t) + 1)
    ensures CivilOf(NextMonthDate(t)) == Civil(GetFullYear(t), GetMonth(t) + 1, DaysInMonth(GetFullYear(t), GetMonth(t) + 1))
    ensures TimeOfDay(NextMonthDate(t)) == 0
  {
    var y, m := GetFullYear(t), GetMonth(t) + 1;
    SetMonthSpec(t, m);
    var nd := SetMonth(t, m);
    assert GetMonth(nd) != m && GetFullYear(nd) == y;
    NextMonthDateClamped(t);
    DaysInMonthVia32(y, m);
    NewDateSpec(y, m, DaysInMonth(y, m));
  }


  /**
    The next month: month m + 1 of the same year, or January of the year after for
    December, on the same day of month clamped to the length of that month. An
    unclamped date keeps its time of day; a clamped one is at midnight.
  */
  lemma NextMonthSpec(t: int)
    ensures var c := CivilOf(t);
      var ty, tm := NextMonthYear(c), NextMonthMonth(c);
      && CivilOf(NextMonthDate(t)) == Civil(ty, tm, Min(c.day, DaysInMonth(ty, tm)))
      && TimeOfDay(NextMonthDate(t)) == (if c.day <= DaysInMonth(ty, tm) then TimeOfDay(t) else 0)
  {
    var c := CivilOf(t);
    if c.month == 11 {
      NextMonthFromDecember(t);
    } else if c.day <= DaysInMonth(c.year, c.month + 1) {
      NextMonthKeepsDay(t);
    } else {
      NextMonthClamps(t);
    }
  }

  /** Navigating always reaches another month, so it never selects the same day. */
  lemma MonthNavigationMovesMonth(t: int)
    ensures !SameMonth(PrevMonthDate(t), t) && !SameDay(PrevMonthDate(t), t)
    ensures !SameMonth(NextMonthDate(t), t) && !SameDay(NextMonthDate(t), t)
  {
    PrevMonthSpec(t);
    NextMonthSpec(t);
  }

  /**
    Going back one month and forward again returns to the same month of the same
    year, but the day of month survives only if it existed in the previous month
    (March 31 comes back as March 28 or 29).
  */
  lemma PrevThenNextMonth(t: int)
    ensures var c := CivilOf(t);
      CivilOf(NextMonthDate(PrevMonthDate(t)))
        == Civil(c.year, c.month, Min(c.day, DaysInMonth(PrevMonthYear(c), PrevMonthMonth(c))))
  {
    var c := CivilOf(t);
    PrevMonthSpec(t);
    NextMonthSpec(PrevMonthDate(t));
  }

  // ---------------------------------------------------------------------------
  // Day abbreviations of the weekday header
  // ---------------------------------------------------------------------------

  /** _getCalendarDayAbbreviation: one letter per weekday, Sunday first. */
  function CalendarDayAbbreviation(weekday: int): (s: string)
    requires 0 <= weekday < 7
    ensures |s| == 1
  {
    ["S", "M", "T", "W", "T", "F", "S"][weekday]
  }

  // ---------------------------------------------------------------------------
  // The grid
  // ---------------------------------------------------------------------------

  /** Days the grid shows: six rows of seven. */
  const GRID_DAYS: int := 42

  /** The grid column of a weekday: LTR counts from the week start, RTL mirrors it. */
  function ColumnOf(weekday: int, weekStart: int, offsetCols: int, rtl: bool): int {
    if rtl then 6 - WeekPosition(weekday, weekStart)
    else offsetCols + WeekPosition(weekday, weekStart)
  }

  /** The position of weekday `wd` in a week starting on `weekStart`, 0..6. */
  function WeekPosition(wd: int, weekStart: int): int {
    (7 + wd - weekStart) % 7
  }

  /** The first of the month of `selected`, at 12:MM:00.mmm (minutes and milliseconds kept). */
  function MonthAnchor(selected: int): int {
    MakeDate(DayNumber(selected) - GetDate(selected) + 1,
             MakeTime(12, GetMinutes(selected), 0, GetMilliseconds(selected)))
  }

  /** _rebuildCalendar reaches the anchor with setDate(1), setSeconds(0) and setHours(12). */
  lemma MonthAnchorBySetters(selected: int)
    ensures SetHours(SetSeconds(SetDate(selected, 1), 0), 12) == MonthAnchor(selected)
  {
    var y, m := GetFullYear(selected), GetMonth(selected);
    DayNumberOfCivil(selected);
    assert MakeDay(y, m, 1) == DayNumber(selected) - GetDate(selected) + 1;
    var first := SetDate(selected, 1);
    InstantParts(MakeDay(y, m, 1), TimeOfDay(selected));
    TimeComponents(selected);
    TimeComponents(first);
    TimeFromComponents(DayNumber(first), GetHours(first), GetMinutes(first), 0, GetMilliseconds(first));
    TimeFromComponents(DayNumber(first), 12, GetMinutes(first), 0, GetMilliseconds(first));
  }

  function DaysToWeekStart(anchor: int, weekStart: int): int {
    (7 + GetDay(anchor) - weekStart) % 7
  }

  /** The instant just after the grid's last day: 42 days after its first. */
  function GridEnd(selected: int, weekStart: int): int {
    GridBegin(selected, weekStart) + GRID_DAYS * MSECS_IN_DAY
  }

  /** A month that starts on the week start gets one whole week of padding before it. */
  function WeekPadding(anchor: int, weekStart: int): int {
    if DaysToWeekStart(anchor, weekStart) == 0 then 7 else 0
  }

  /** The first day the grid of the month of `anchor` shows. */
  function GridBeginFrom(anchor: int, weekStart: int): int {
    anchor - (WeekPadding(anchor, weekStart) + DaysToWeekStart(anchor, weekStart)) * MSECS_IN_DAY
  }

  function GridBegin(selected: int, weekStart: int): int {
    GridBeginFrom(MonthAnchor(selected), weekStart)
  }

  /** The anchor lies on the 1st of the selected month, at noon. */
  lemma MonthAnchorSpec(selected: int)
    ensures CivilOf(MonthAnchor(selected)) == Civil(GetFullYear(selected), GetMonth(selected), 1)
    ensures DayNumber(MonthAnchor(selected)) == MakeDay(GetFullYear(selected), GetMonth(selected), 1)
    ensures GetHours(MonthAnchor(selected)) == 12 && GetSeconds(MonthAnchor(selected)) == 0
    ensures SameMonth(MonthAnchor(selected), selected)
  {
    MonthAnchorBySetters(selected);
    var y, m := GetFullYear(selected), GetMonth(selected);
    var first := SetDate(selected, 1);
    CivilOfDate(Civil(y, m, 1), TimeOfDay(selected));
    InstantParts(MakeDay(y, m, 1), TimeOfDay(selected));
    TimeComponents(first);
    TimeFromComponents(DayNumber(first), GetHours(first), GetMinutes(first), 0, GetMilliseconds(first));
    var noSeconds := SetSeconds(first, 0);
    TimeFromComponents(DayNumber(first), 12, GetMinutes(first), 0, GetMilliseconds(first));
    CivilOfDate(Civil(y, m, 1), TimeOfDay(MonthAnchor(selected)));
  }

  /**
    The padding rule: the grid begins on the week start, DaysToWeekStart days before
    the 1st of the month, or a whole week before it when the month starts on the
    week start; so between one and seven days precede the 1st.
  */
  lemma GridBeginSpec(anchor: int, weekStart: int)
    requires 0 <= weekStart < 7
    ensures GetDay(GridBeginFrom(anchor, weekStart)) == weekStart
    ensures TimeOfDay(GridBeginFrom(anchor, weekStart)) == TimeOfDay(anchor)
    ensures DayNumber(anchor) - DayNumber(GridBeginFrom(anchor, weekStart))
              == (if GetDay(anchor) == weekStart then 7 else (7 + GetDay(anchor) - weekStart) % 7)
    ensures 1 <= DayNumber(anchor) - DayNumber(GridBeginFrom(anchor, weekStart)) <= 7
  {
    var k := WeekPadding(anchor, weekStart) + DaysToWeekStart(anchor, weekStart);
    AddDays(anchor, -k);
    assert GridBeginFrom(anchor, weekStart) == anchor + (-k) * MSECS_IN_DAY;
  }

  /** Every day of the selected month is among the 42 days of its grid. */
  lemma GridCoversMonth(selected: int, weekStart: int, t: int)
    requires 0 <= weekStart < 7
    requires SameMonth(t, selected)
    ensures 1 <= DayNumber(t) - DayNumber(GridBegin(selected, weekStart)) < GRID_DAYS
  {
    MonthAnchorSpec(selected);
    GridIndexOfSameMonth(MonthAnchor(selected), weekStart, t);
  }

  /** A day in the month of a grid's anchor (a 1st of a month) lies at index 1..37 of that grid. */
  lemma GridIndexOfSameMonth(anchor: int, weekStart: int, t: int)
    requires 0 <= weekStart < 7
    requires GetDate(anchor) == 1
    requires SameMonth(t, anchor)
    ensures 1 <= DayNumber(t) - DayNumber(GridBeginFrom(anchor, weekStart)) <= 37
  {
    GridBeginSpec(anchor, weekStart);
    DayNumberOfCivil(t);
    DayNumberOfCivil(anchor);
  }

  /** `a` is the noon of the 1st of some month, as _rebuildCalendar keeps it. */
  ghost predicate IsMonthAnchor(a: int) {
    exists d :: a == MonthAnchor(d)
  }

  /** A date is in the month of its anchor. */
  lemma AnchorSameMonth(d: int)
    ensures SameMonth(d, MonthAnchor(d))
  {
    MonthAnchorSpec(d);
  }

  /** Every day in the month of an anchor lies at index 1..37 of the anchor's grid. */
  lemma AnchorGridIndex(anchor: int, weekStart: int, t: int)
    requires 0 <= weekStart < 7
    requires IsMonthAnchor(anchor)
    requires SameMonth(t, anchor)
    ensures 1 <= DayNumber(t) - DayNumber(GridBeginFrom(anchor, weekStart)) <= 37
  {
    var d :| anchor == MonthAnchor(d);
    MonthAnchorSpec(d);
    GridIndexOfSameMonth(anchor, weekStart, t);
  }

  /** A day button: its date, grid position and the flags its style classes carry. */
  datatype DayButton = DayButton(
    date: int, row: int, col: int,
    workDay: bool, top: bool, leftMost: bool,
    today: bool, otherMonth: bool, hasEvents: bool,
    reactive: bool, active: bool)

  /** A week-number label: the day it was attached for and its grid position. */
  datatype WeekNumberLabel = WeekNumberLabel(date: int, row: int, col: int)

  /** A weekday header label: its one-letter text and its column. */
  datatype HeaderLabel = HeaderLabel(text: string, col: int)

  function OffsetCols(useWeekdate: bool): int {
    if useWeekdate then 1 else 0
  }

  /** The button _rebuildCalendar creates for day `iter` in grid row `row`. */
  function MakeButton(iter: int, row: int, selected: int, now: int, weekStart: int,
                      useWeekdate: bool, rtl: bool, events: seq<CalendarEvent>, dummy: bool): DayButton
  {
    var leftMost := if rtl then GetDay(iter) == (weekStart + 6) % 7 else GetDay(iter) == weekStart;
    var today := SameDay(now, iter);
    DayButton(iter, row, ColumnOf(GetDay(iter), weekStart, OffsetCols(useWeekdate), rtl),
              IsWorkDay(iter), row == 2, leftMost,
              today, !today && GetMonth(iter) != GetMonth(selected), HasEventsOn(events, iter),
              !dummy, false)
  }

  /** Extending the first `k` values of `f` by the next one. */
  lemma SeqStep<T>(f: int -> T, k: nat)
    ensures seq(k + 1, f) == seq(k, f) + [f(k)]
  {
    assert forall i | 0 <= i < k + 1 :: seq(k + 1, f)[i] == (seq(k, f) + [f(k)])[i];
  }

  /** The button of cell `i` of the grid starting at day `begin`. */
  function CellOf(begin: int, selected: int, now: int, weekStart: int, useWeekdate: bool, rtl: bool,
                  events: seq<CalendarEvent>, dummy: bool): int -> DayButton
  {
    (i: int) => MakeButton(begin + i * MSECS_IN_DAY, 2 + i / 7, selected, now, weekStart, useWeekdate, rtl, events, dummy)
  }

  /** The 42 buttons of the grid of `selected` starting at day `begin`, row by row. */
  function GridCells(begin: int, selected: int, now: int, weekStart: int, useWeekdate: bool, rtl: bool,
                     events: seq<CalendarEvent>, dummy: bool): seq<DayButton>
  {
    seq(GRID_DAYS, CellOf(begin, selected, now, weekStart, useWeekdate, rtl, events, dummy))
  }

  /** The week-number labels for the first `k` days of the grid starting at `begin`. */
  function WeekLabels(begin: int, k: nat, useWeekdate: bool, rtl: bool): seq<WeekNumberLabel> {
    if k == 0 then []
    else
      var iter := begin + (k - 1) * MSECS_IN_DAY;
      WeekLabels(begin, k - 1, useWeekdate, rtl)
        + (if useWeekdate && GetDay(iter) == 4 then [WeekNumberLabel(iter, 2 + (k - 1) / 7, if rtl then 7 else 0)] else [])
  }

  /** A weekday is `k` days after the week start exactly when its position is `k`. */
  lemma WeekPositionIff(wd: int, weekStart: int, k: int)
    requires 0 <= wd < 7 && 0 <= weekStart < 7 && 0 <= k < 7
    ensures wd == (weekStart + k) % 7 <==> WeekPosition(wd, weekStart) == k
  {
    if weekStart + k < 7 {
      assert (weekStart + k) % 7 == weekStart + k;
    } else {
      assert (weekStart + k) % 7 == weekStart + k - 7;
    }
  }

  /** The weekday `i` days after the week start sits at position `i % 7`. */
  lemma WeekPositionAfter(weekStart: int, i: int)
    requires 0 <= weekStart < 7 && 0 <= i
    ensures (weekStart + i) % 7 == (weekStart + i % 7) % 7
    ensures WeekPosition((weekStart + i) % 7, weekStart) == i % 7
  {
    var j := i % 7;
    assert i == 7 * (i / 7) + j;
    assert (weekStart + i) % 7 == (weekStart + j) % 7;
    WeekPositionIff((weekStart + j) % 7, weekStart, j);
  }

  /** The weekday `k` days after the week start has column k (6 - k in RTL) and is left-most exactly at k = 0 (k = 6 in RTL). */
  lemma ColumnAtPosition(wd: int, k: int, weekStart: int, offsetCols: int, rtl: bool)
    requires 0 <= weekStart < 7 && 0 <= k < 7 && 0 <= wd < 7
    requires wd == (weekStart + k) % 7
    ensures ColumnOf(wd, weekStart, offsetCols, rtl) == (if rtl then 6 - k else offsetCols + k)
    ensures (if rtl then wd == (weekStart + 6) % 7 else wd == weekStart) <==> (if rtl then k == 6 else k == 0)
  {
    WeekPositionIff(wd, weekStart, k);
    WeekPositionIff(wd, weekStart, 0);
    WeekPositionIff(wd, weekStart, 6);
  }

  /** Stepping from cell k to cell k + 1 starts a new row exactly when the week start comes round again. */
  lemma RowStep(weekStart: int, k: int)
    requires 0 <= weekStart < 7 && 0 <= k
    ensures (weekStart + (k + 1)) % 7 == weekStart <==> (k + 1) % 7 == 0
    ensures (k + 1) / 7 == k / 7 + (if (k + 1) % 7 == 0 then 1 else 0)
  {
    var q, r := (k + 1) / 7, (k + 1) % 7;
    assert weekStart + (k + 1) == 7 * q + (weekStart + r);
    if weekStart + r < 7 {
      assert (weekStart + (k + 1)) % 7 == weekStart + r;
    } else {
      assert (weekStart + (k + 1)) % 7 == weekStart + r - 7;
    }
    assert k == 7 * (k / 7) + k % 7;
    if k % 7 == 6 {
      assert k + 1 == 7 * (k / 7 + 1) + 0;
    } else {
      assert k + 1 == 7 * (k / 7) + (k % 7 + 1);
    }
  }

  /** Cell `i` holds the button of the day `i` days after `begin`, in row `2 + i / 7`. */
  lemma CellOfIs(begin: int, selected: int, now: int, weekStart: int, useWeekdate: bool, rtl: bool,
                 events: seq<CalendarEvent>, dummy: bool, i: int, iter: int, row: int)
    requires iter == begin + i * MSECS_IN_DAY && row == 2 + i / 7
    ensures CellOf(begin, selected, now, weekStart, useWeekdate, rtl, events, dummy)(i)
      == MakeButton(iter, row, selected, now, weekStart, useWeekdate, rtl, events, dummy)
  {
  }

  /** The fields of the button for day `iter`, spelled out as _rebuildCalendar sets them. */
  lemma MakeButtonFields(iter: int, row: int, selected: int, now: int, weekStart: int,
                         useWeekdate: bool, rtl: bool, events: seq<CalendarEvent>, dummy: bool)
    ensures MakeButton(iter, row, selected, now, weekStart, useWeekdate, rtl, events, dummy)
      == DayButton(iter, row,
                   if rtl then 6 - (7 + GetDay(iter) - weekStart) % 7
                   else (if useWeekdate then 1 else 0) + (7 + GetDay(iter) - weekStart) % 7,
                   IsWorkDay(iter), row == 2,
                   if rtl then GetDay(iter) == (weekStart + 6) % 7 else GetDay(iter) == weekStart,
                   SameDay(now, iter), !SameDay(now, iter) && GetMonth(iter) != GetMonth(selected),
                   HasEventsOn(events, iter), !dummy, false)
  {
  }

  lemma WeekLabelsStep(begin: int, k: nat, useWeekdate: bool, rtl: bool)
    ensures WeekLabels(begin, k + 1, useWeekdate, rtl)
      == WeekLabels(begin, k, useWeekdate, rtl)
         + (if useWeekdate && GetDay(begin + k * MSECS_IN_DAY) == 4
            then [WeekNumberLabel(begin + k * MSECS_IN_DAY, 2 + k / 7, if rtl then 7 else 0)] else [])
  {
  }

  /** The layout of one button, for a day that lies `k` days after the week start. */
  lemma ButtonLayout(iter: int, row: int, k: int, selected: int, now: int, weekStart: int,
                     useWeekdate: bool, rtl: bool, events: seq<CalendarEvent>, dummy: bool)
    requires 0 <= weekStart < 7 && 0 <= k < 7
    requires GetDay(iter) == (weekStart + k) % 7
    ensures var b := MakeButton(iter, row, selected, now, weekStart, useWeekdate, rtl, events, dummy);
      && b.col == (if rtl then 6 - k else OffsetCols(useWeekdate) + k)
      && (b.leftMost <==> (if rtl then k == 6 else k == 0))
      && (b.top <==> row == 2)
  {
    ColumnAtPosition(GetDay(iter), k, weekStart, OffsetCols(useWeekdate), rtl);
  }

  /** The flags of one button. */
  lemma ButtonFlags(iter: int, row: int, selected: int, now: int, weekStart: int,
                    useWeekdate: bool, rtl: bool, events: seq<CalendarEvent>, dummy: bool)
    ensures var b := MakeButton(iter, row, selected, now, weekStart, useWeekdate, rtl, events, dummy);
      && (b.today <==> DayNumber(iter) == DayNumber(now))
      && (b.otherMonth <==> !b.today && GetMonth(iter) != GetMonth(selected))
      && (b.workDay <==> GetDay(iter) != 0 && GetDay(iter) != 6)
      && (b.hasEvents <==> exists e :: e in events && DateIntervalsOverlap(e.date, e.end,
             DayNumber(iter) * MSECS_IN_DAY, DayNumber(iter) * MSECS_IN_DAY + MSECS_IN_DAY - 1))
      && b.reactive == !dummy && !b.active
  {
    HasEventsOnSpec(events, iter);
  }

  /** Different weekdays have different columns. */
  lemma ColumnOfInjective(a: int, b: int, weekStart: int, offsetCols: int, rtl: bool)
    requires 0 <= a < 7 && 0 <= b < 7 && 0 <= weekStart < 7
    requires ColumnOf(a, weekStart, offsetCols, rtl) == ColumnOf(b, weekStart, offsetCols, rtl)
    ensures a == b
  {
    var p := WeekPosition(a, weekStart);
    assert WeekPosition(b, weekStart) == p;
    WeekPositionIff(a, weekStart, p);
    WeekPositionIff(b, weekStart, p);
  }

  /** Cell `i` is dated `i` days after `begin`, at the same time of day, and sits in row `2 + i / 7`. */
  lemma CellDay(begin: int, selected: int, now: int, weekStart: int, useWeekdate: bool, rtl: bool,
                events: seq<CalendarEvent>, dummy: bool, i: int)
    ensures var b := CellOf(begin, selected, now, weekStart, useWeekdate, rtl, events, dummy)(i);
      && b.date == begin + i * MSECS_IN_DAY
      && DayNumber(b.date) == DayNumber(begin) + i
      && b.row == 2 + i / 7
  {
    CellOfIs(begin, selected, now, weekStart, useWeekdate, rtl, events, dummy, i, begin + i * MSECS_IN_DAY, 2 + i / 7);
    AddDays(begin, i);
  }

  /** The layout of cell `i` of a table that begins on the week start. */
  lemma CellLayout(begin: int, selected: int, now: int, weekStart: int, useWeekdate: bool, rtl: bool,
                   events: seq<CalendarEvent>, dummy: bool, i: int)
    requires 0 <= weekStart < 7 && GetDay(begin) == weekStart && 0 <= i
    ensures var b := CellOf(begin, selected, now, weekStart, useWeekdate, rtl, events, dummy)(i);
      && GetDay(b.date) == (weekStart + i) % 7
      && b.col == (if rtl then 6 - i % 7 else OffsetCols(useWeekdate) + i % 7)
      && (b.leftMost <==> (if rtl then i % 7 == 6 else i % 7 == 0))
      && (b.top <==> i < 7)
  {
    var iter, row, k := begin + i * MSECS_IN_DAY, 2 + i / 7, i % 7;
    CellOfIs(begin, selected, now, weekStart, useWeekdate, rtl, events, dummy, i, iter, row);
    AddDays(begin, i);
    WeekPositionAfter(weekStart, i);
    assert GetDay(iter) == (weekStart + k) % 7;
    ButtonLayout(iter, row, k, selected, now, weekStart, useWeekdate, rtl, events, dummy);
    assert row == 2 <==> i < 7;
  }

  /** The flags of cell `i`, in terms of its date. */
  lemma CellFlags(begin: int, selected: int, now: int, weekStart: int, useWeekdate: bool, rtl: bool,
                  events: seq<CalendarEvent>, dummy: bool, i: int)
    ensures var b := CellOf(begin, selected, now, weekStart, useWeekdate, rtl, events, dummy)(i);
      && (b.today <==> DayNumber(b.date) == DayNumber(now))
      && (b.otherMonth <==> !b.today && GetMonth(b.date) != GetMonth(selected))
      && (b.workDay <==> GetDay(b.date) != 0 && GetDay(b.date) != 6)
      && (b.hasEvents <==> exists e :: e in events && DateIntervalsOverlap(e.date, e.end,
             DayNumber(b.date) * MSECS_IN_DAY, DayNumber(b.date) * MSECS_IN_DAY + MSECS_IN_DAY - 1))
      && b.reactive == !dummy && !b.active
  {
    var iter := begin + i * MSECS_IN_DAY;
    CellOfIs(begin, selected, now, weekStart, useWeekdate, rtl, events, dummy, i, iter, 2 + i / 7);
    ButtonFlags(iter, 2 + i / 7, selected, now, weekStart, useWeekdate, rtl, events, dummy);
  }

  /** The grid cells show 42 consecutive days from the day of `begin`. */
  lemma GridCellsDays(begin: int, selected: int, now: int, weekStart: int, useWeekdate: bool, rtl: bool,
                      events: seq<CalendarEvent>, dummy: bool)
    ensures ShowsDaysFrom(GridCells(begin, selected, now, weekStart, useWeekdate, rtl, events, dummy), DayNumber(begin))
  {
    var cells := GridCells(begin, selected, now, weekStart, useWeekdate, rtl, events, dummy);
    forall i | 0 <= i < GRID_DAYS
      ensures DayNumber(cells[i].date) == DayNumber(begin) + i
    {
      CellDay(begin, selected, now, weekStart, useWeekdate, rtl, events, dummy, i);
    }
  }

  /**
    A grid that begins on the week start lays out six rows of seven consecutive days.
    In LTR the column is the offset plus the position in the row, in RTL its mirror
    image; the left-most cell is the row's first day (its last in RTL), and the top
    style marks the first row.
  */
  lemma GridCellsLayout(begin: int, selected: int, now: int, weekStart: int, useWeekdate: bool, rtl: bool,
                        events: seq<CalendarEvent>, dummy: bool, i: int)
    requires 0 <= weekStart < 7 && GetDay(begin) == weekStart
    requires 0 <= i < GRID_DAYS
    ensures var b := GridCells(begin, selected, now, weekStart, useWeekdate, rtl, events, dummy)[i];
      && DayNumber(b.date) == DayNumber(begin) + i
      && GetDay(b.date) == (weekStart + i) % 7
      && b.row == 2 + i / 7 && 2 <= b.row < 8
      && b.col == (if rtl then 6 - i % 7 else OffsetCols(useWeekdate) + i % 7)
      && (b.leftMost <==> (if rtl then i % 7 == 6 else i % 7 == 0))
      && (b.top <==> i < 7)
  {
    CellDay(begin, selected, now, weekStart, useWeekdate, rtl, events, dummy, i);
    CellLayout(begin, selected, now, weekStart, useWeekdate, rtl, events, dummy, i);
  }

  /**
    The flags of cell `i`: today exactly on the current day, other-month only when not
    today, work days are Monday to Friday, the events dot exactly when some event of
    the source overlaps that day, reactive unless the source is the dummy one, and
    no cell is active before _update marks the selected one.
  */
  lemma GridCellsFlags(begin: int, selected: int, now: int, weekStart: int, useWeekdate: bool, rtl: bool,
                       events: seq<CalendarEvent>, dummy: bool, i: int)
    requires 0 <= i < GRID_DAYS
    ensures var b := GridCells(begin, selected, now, weekStart, useWeekdate, rtl, events, dummy)[i];
      && (b.today <==> DayNumber(b.date) == DayNumber(now))
      && (b.otherMonth <==> !b.today && GetMonth(b.date) != GetMonth(selected))
      && (b.workDay <==> GetDay(b.date) != 0 && GetDay(b.date) != 6)
      && (b.hasEvents <==> exists e :: e in events && DateIntervalsOverlap(e.date, e.end,
             DayNumber(b.date) * MSECS_IN_DAY, DayNumber(b.date) * MSECS_IN_DAY + MSECS_IN_DAY - 1))
      && b.reactive == !dummy && !b.active
  {
    CellFlags(begin, selected, now, weekStart, useWeekdate, rtl, events, dummy, i);
  }

  /**
    Every week-number label sits on a Thursday of the grid, in that day's row and in
    the outer column; there are none when week numbers are off, and when they are on
    every Thursday of the grid has its label.
  */
  lemma {:induction false} WeekLabelsSpec(begin: int, k: nat, useWeekdate: bool, rtl: bool)
    ensures !useWeekdate ==> WeekLabels(begin, k, useWeekdate, rtl) == []
    ensures forall l :: l in WeekLabels(begin, k, useWeekdate, rtl) ==>
      exists i :: 0 <= i < k && l == WeekNumberLabel(begin + i * MSECS_IN_DAY, 2 + i / 7, if rtl then 7 else 0)
                && GetDay(l.date) == 4
    ensures useWeekdate ==> forall i :: 0 <= i < k && GetDay(begin + i * MSECS_IN_DAY) == 4 ==>
      WeekNumberLabel(begin + i * MSECS_IN_DAY, 2 + i / 7, if rtl then 7 else 0) in WeekLabels(begin, k, useWeekdate, rtl)
  {
    if k > 0 {
      WeekLabelsSpec(begin, k - 1, useWeekdate, rtl);
    }
  }

  /** The header labels of the seven days starting at `start`, as _buildHeader attaches them. */
  function HeaderLabels(start: int, weekStart: int, offsetCols: int, rtl: bool): (r: seq<HeaderLabel>)
    ensures |r| == 7
  {
    seq(7, HeaderLabelOf(start, weekStart, offsetCols, rtl))
  }

  /** The label of the day `i` days after `start`. */
  function HeaderLabelOf(start: int, weekStart: int, offsetCols: int, rtl: bool): int -> HeaderLabel {
    (i: int) => HeaderLabel(CalendarDayAbbreviation(GetDay(start + i * MSECS_IN_DAY)),
                            ColumnOf(GetDay(start + i * MSECS_IN_DAY), weekStart, offsetCols, rtl))
  }

  /**
    The weekday header: the i-th label is for the weekday i days after `start`, shows
    that weekday's letter in that weekday's column, and the seven labels take seven
    different columns.
  */
  lemma HeaderLabelsSpec(start: int, weekStart: int, offsetCols: int, rtl: bool)
    requires 0 <= weekStart < 7
    ensures var labels := HeaderLabels(start, weekStart, offsetCols, rtl);
      && (forall i :: 0 <= i < 7 ==>
            && labels[i].text == CalendarDayAbbreviation((GetDay(start) + i) % 7)
            && labels[i].col == ColumnOf((GetDay(start) + i) % 7, weekStart, offsetCols, rtl))
      && (forall i, j :: 0 <= i < j < 7 ==> labels[i].col != labels[j].col)
  {
    var labels := HeaderLabels(start, weekStart, offsetCols, rtl);
    var g := GetDay(start);
    forall i | 0 <= i < 7
      ensures labels[i].text == CalendarDayAbbreviation((g + i) % 7)
      ensures labels[i].col == ColumnOf((g + i) % 7, weekStart, offsetCols, rtl)
    {
      AddDays(start, i);
    }
    forall i, j | 0 <= i < j < 7
      ensures labels[i].col != labels[j].col
    {
      ColumnsDistinct(g, i, j, weekStart, offsetCols, rtl);
    }
  }

  /** Two different days of one week have different columns. */
  lemma ColumnsDistinct(g: int, i: int, j: int, weekStart: int, offsetCols: int, rtl: bool)
    requires 0 <= g < 7 && 0 <= weekStart < 7 && 0 <= i < j < 7
    ensures ColumnOf((g + i) % 7, weekStart, offsetCols, rtl) != ColumnOf((g + j) % 7, weekStart, offsetCols, rtl)
  {
    if ColumnOf((g + i) % 7, weekStart, offsetCols, rtl) == ColumnOf((g + j) % 7, weekStart, offsetCols, rtl) {
      ColumnOfInjective((g + i) % 7, (g + j) % 7, weekStart, offsetCols, rtl);
    }
  }

  /** The label loop of _buildHeader: one label per day for the seven days from `start`. */
  method HeaderRow(start: int, weekStart: int, offsetCols: int, rtl: bool) returns (labels: seq<HeaderLabel>)
    ensures labels == HeaderLabels(start, weekStart, offsetCols, rtl)
  {
    ghost var f := HeaderLabelOf(start, weekStart, offsetCols, rtl);
    var iter := start;
    labels := [];
    for i := 0 to 7
      invariant iter == start + i * MSECS_IN_DAY
      invariant labels == seq(i, f)
    {
      var col := if rtl then 6 - (7 + GetDay(iter) - weekStart) % 7
                 else offsetCols + (7 + GetDay(iter) - weekStart) % 7;
      SeqStep(f, i);
      labels := labels + [HeaderLabel(CalendarDayAbbreviation(GetDay(iter)), col)];
      iter := iter + MSECS_IN_DAY;
    }
  }

  // ---------------------------------------------------------------------------
  // The Calendar object
  // ---------------------------------------------------------------------------

  /** The grid buttons show 42 consecutive days from the grid start of the month of `anchor`. */
  ghost predicate ShowsGridOf(buttons: seq<DayButton>, anchor: int, weekStart: int) {
    ShowsDaysFrom(buttons, DayNumber(GridBeginFrom(anchor, weekStart)))
  }

  /** The buttons show the 42 consecutive days from day number `first`. */
  ghost predicate ShowsDaysFrom(buttons: seq<DayButton>, first: int) {
    && |buttons| == GRID_DAYS
    && forall i :: 0 <= i < GRID_DAYS ==> DayNumber(buttons[i].date) == first + i
  }

  /** The part of the Calendar's state that _rebuildCalendar and _update write. */
  datatype GridView = GridView(calendarBegin: Option<int>, markedAsToday: int, buttons: seq<DayButton>,
                               weekNumbers: seq<WeekNumberLabel>, monthLabelWithYear: bool)

  /** The buttons with each one active exactly when it shows the day of `selected`. */
  function MarkAll(buttons: seq<DayButton>, selected: int): seq<DayButton> {
    seq(|buttons|, i requires 0 <= i < |buttons| => buttons[i].(active := SameDay(buttons[i].date, selected)))
  }

  /** The test of _update: no grid yet, a grid of another month, or one whose today is stale. */
  predicate NeedsRebuild(v: GridView, selected: int, now: int) {
    v.calendarBegin.None? || !SameMonth(selected, v.calendarBegin.value) || !SameDay(now, v.markedAsToday)
  }

  /** The view after _rebuildCalendar for the month of `selected`; the month label is not touched. */
  function RebuiltView(v: GridView, selected: int, now: int, weekStart: int, useWeekdate: bool, rtl: bool,
                       events: seq<CalendarEvent>, dummy: bool): GridView
  {
    var begin := GridBegin(selected, weekStart);
    v.(calendarBegin := Some(MonthAnchor(selected)), markedAsToday := now,
       buttons := GridCells(begin, selected, now, weekStart, useWeekdate, rtl, events, dummy),
       weekNumbers := WeekLabels(begin, GRID_DAYS, useWeekdate, rtl))
  }

  /** The view after _update: rebuilt when needed, month label chosen, selected day marked. */
  function UpdatedView(v: GridView, selected: int, now: int, weekStart: int, useWeekdate: bool, rtl: bool,
                       events: seq<CalendarEvent>, dummy: bool): GridView
  {
    var built := if NeedsRebuild(v, selected, now) then RebuiltView(v, selected, now, weekStart, useWeekdate, rtl, events, dummy)
                 else v;
    built.(buttons := MarkAll(built.buttons, selected), monthLabelWithYear := !SameYear(selected, now))
  }

  /** The source's state after _update: one request for the grid's days when it rebuilt. */
  function UpdatedSource(s: SourceState, v: GridView, selected: int, now: int, weekStart: int): SourceState {
    if NeedsRebuild(v, selected, now) then RequestRangeNext(s, GridBegin(selected, weekStart), GridEnd(selected, weekStart))
    else s
  }

  /** The view after _rebuildCalendar(); _update();: the selected month's fresh grid, selected day marked. */
  function FreshView(selected: int, now: int, weekStart: int, useWeekdate: bool, rtl: bool,
                     events: seq<CalendarEvent>, dummy: bool): GridView
  {
    var begin := GridBegin(selected, weekStart);
    GridView(Some(MonthAnchor(selected)), now,
             MarkAll(GridCells(begin, selected, now, weekStart, useWeekdate, rtl, events, dummy), selected),
             WeekLabels(begin, GRID_DAYS, useWeekdate, rtl), !SameYear(selected, now))
  }

  /**
    A grid just rebuilt for `selected` at `now` is current, so the _update that follows
    it marks it without rebuilding again, and the result does not depend on what the
    Calendar showed before.
  */
  lemma RebuiltGridIsCurrent(v: GridView, selected: int, now: int, weekStart: int, useWeekdate: bool, rtl: bool,
                             events: seq<CalendarEvent>, dummy: bool)
    ensures !NeedsRebuild(RebuiltView(v, selected, now, weekStart, useWeekdate, rtl, events, dummy), selected, now)
    ensures UpdatedView(RebuiltView(v, selected, now, weekStart, useWeekdate, rtl, events, dummy),
                        selected, now, weekStart, useWeekdate, rtl, events, dummy)
         == FreshView(selected, now, weekStart, useWeekdate, rtl, events, dummy)
  {
    AnchorSameMonth(selected);
  }

  /** The steps of _update in the order it takes them: the month label, the rebuild, the marking. */
  lemma UpdatedViewSteps(v0: GridView, v1: GridView, marked: seq<DayButton>, s: SourceState, selected: int, now: int,
                         weekStart: int, useWeekdate: bool, rtl: bool, events: seq<CalendarEvent>, dummy: bool)
    requires var w := v0.(monthLabelWithYear := !SameYear(selected, now));
      v1 == if NeedsRebuild(w, selected, now) then RebuiltView(w, selected, now, weekStart, useWeekdate, rtl, events, dummy)
            else w
    requires marked == MarkAll(v1.buttons, selected)
    ensures v1.(buttons := marked) == UpdatedView(v0, selected, now, weekStart, useWeekdate, rtl, events, dummy)
    ensures UpdatedSource(s, v0.(monthLabelWithYear := !SameYear(selected, now)), selected, now, weekStart)
         == UpdatedSource(s, v0, selected, now, weekStart)
  {
  }

  /** Marking twice for the same day is marking once. */
  lemma MarkAllIdempotent(buttons: seq<DayButton>, selected: int)
    ensures MarkAll(MarkAll(buttons, selected), selected) == MarkAll(buttons, selected)
  {
    var once := MarkAll(buttons, selected);
    var twice := MarkAll(once, selected);
    forall i | 0 <= i < |buttons|
      ensures twice[i] == once[i]
    {
    }
  }

  /**
    _update settles: a second _update at the same moment, with the source's cache as it
    was, leaves the view as the first one left it and sends no request.
  */
  lemma {:induction false} UpdateSettles(v: GridView, s: SourceState, selected: int, now: int, weekStart: int,
                                         useWeekdate: bool, rtl: bool, events: seq<CalendarEvent>, dummy: bool)
    ensures var u := UpdatedView(v, selected, now, weekStart, useWeekdate, rtl, events, dummy);
      && !NeedsRebuild(u, selected, now)
      && UpdatedView(u, selected, now, weekStart, useWeekdate, rtl, events, dummy) == u
      && UpdatedSource(s, u, selected, now, weekStart) == s
  {
    var built := if NeedsRebuild(v, selected, now) then RebuiltView(v, selected, now, weekStart, useWeekdate, rtl, events, dummy)
                 else v;
    if NeedsRebuild(v, selected, now) {
      RebuiltGridIsCurrent(v, selected, now, weekStart, useWeekdate, rtl, events, dummy);
    }
    MarkAllIdempotent(built.buttons, selected);
  }

  class Calendar {
    /** The locale's first day of the week, 0 = Sunday. */
    const weekStart: int
    /** Text direction of the widgets. */
    const rtl: bool
    /** The show-weekdate setting. */
    var useWeekdate: bool
    var selectedDate: int
    var eventSource: EventSourceRef
    /** The anchor (1st of the month, noon) of the grid last built, if any. */
    var calendarBegin: Option<int>
    /** The `now` for which the grid last built marks today. */
    var markedAsToday: int
    var buttons: seq<DayButton>
    var weekNumbers: seq<WeekNumberLabel>
    var headerLabels: seq<HeaderLabel>
    /** Whether the month label shows the year (the selected year is not the current one). */
    var monthLabelWithYear: bool
    /** Payloads of the selected-date-changed signal, oldest first. */
    var selectedDateChanged: seq<int>

    ghost predicate Valid()
      reads this`calendarBegin, this`buttons
    {
      && 0 <= weekStart < 7
      && (calendarBegin.Some? ==>
            IsMonthAnchor(calendarBegin.value) && ShowsGridOf(buttons, calendarBegin.value, weekStart))
    }

    /** The grid part of the state, as a value. */
    function View(): GridView
      reads this`calendarBegin, this`markedAsToday, this`buttons, this`weekNumbers, this`monthLabelWithYear
    {
      GridView(calendarBegin, markedAsToday, buttons, weekNumbers, monthLabelWithYear)
    }

    /** _init, taking the current time and settings as parameters; `source` stands for the source set later. */
    constructor (weekStart: int, useWeekdate: bool, rtl: bool, now: int, source: EventSourceRef)
      requires 0 <= weekStart < 7
      ensures Valid()
      ensures this.weekStart == weekStart && this.useWeekdate == useWeekdate && this.rtl == rtl
      ensures selectedDate == now && eventSource == source && calendarBegin == None
      ensures buttons == [] && weekNumbers == [] && selectedDateChanged == []
      ensures headerLabels == HeaderLabels(SetHours(SetSeconds(now, 0), 12), weekStart, OffsetCols(useWeekdate), rtl)
    {
      this.weekStart := weekStart;
      this.useWeekdate := useWeekdate;
      this.rtl := rtl;
      selectedDate := now;
      eventSource := source;
      calendarBegin := None;
      markedAsToday := now;
      buttons := [];
      weekNumbers := [];
      monthLabelWithYear := false;
      selectedDateChanged := [];
      new;
      BuildHeader();
    }

    /** The weekday labels of _buildHeader: seven days from the selected date, at noon. */
    method BuildHeader()
      modifies this`headerLabels
      ensures headerLabels == HeaderLabels(SetHours(SetSeconds(selectedDate, 0), 12), weekStart,
                                           OffsetCols(useWeekdate), rtl)
    {
      var offsetCols := if useWeekdate then 1 else 0;
      var start := SetSeconds(selectedDate, 0);
      start := SetHours(start, 12);
      headerLabels := HeaderRow(start, weekStart, offsetCols, rtl);
    }

    /** setEventSource: adopt the source, then rebuild and update. */
    method SetEventSource(source: EventSourceRef, now: int)
      requires Valid()
      modifies this`eventSource, this`calendarBegin, this`markedAsToday, this`buttons, this`weekNumbers, this`monthLabelWithYear, Footprint(source)
      ensures Valid()
      ensures eventSource == source
      ensures View() == FreshView(selectedDate, now, weekStart, useWeekdate, rtl, old(Snapshot(source)), SourceIsDummy(source))
      ensures source.Remote? ==>
        source.remote.State() == RequestRangeNext(old(source.remote.State()),
          GridBegin(selectedDate, weekStart), GridEnd(selectedDate, weekStart))
      ensures |buttons| == GRID_DAYS
      ensures forall i :: 0 <= i < |buttons| ==> (buttons[i].active <==> DayNumber(buttons[i].date) == DayNumber(selectedDate))
      ensures exists i :: 0 <= i < |buttons| && buttons[i].active
      ensures forall i, j :: 0 <= i < |buttons| && 0 <= j < |buttons| && buttons[i].active && buttons[j].active ==> i == j
    {
      eventSource := source;
      RebuildAndUpdate(now);
    }

    /**
      The pair _rebuildCalendar(); _update(); that setEventSource and _onSettingsChange
      make, and the whole of the handler setEventSource connects to the source's
      `changed` signal: the grid of the selected month, with exactly its selected day active.
    */
    method RebuildAndUpdate(now: int)
      requires Valid()
      modifies this`calendarBegin, this`markedAsToday, this`buttons, this`weekNumbers, this`monthLabelWithYear, Footprint(eventSource)
      ensures Valid()
      ensures View() == FreshView(selectedDate, now, weekStart, useWeekdate, rtl,
                                  old(Snapshot(eventSource)), SourceIsDummy(eventSource))
      ensures eventSource.Remote? ==>
        eventSource.remote.State() == RequestRangeNext(old(eventSource.remote.State()),
          GridBegin(selectedDate, weekStart), GridEnd(selectedDate, weekStart))
      ensures calendarBegin.Some? && SameMonth(selectedDate, calendarBegin.value)
      ensures |buttons| == GRID_DAYS
      ensures forall i :: 0 <= i < |buttons| ==> (buttons[i].active <==> DayNumber(buttons[i].date) == DayNumber(selectedDate))
      ensures exists i :: 0 <= i < |buttons| && buttons[i].active
      ensures forall i, j :: 0 <= i < |buttons| && 0 <= j < |buttons| && buttons[i].active && buttons[j].active ==> i == j
    {
      ghost var v0 := View();
      ghost var events := Snapshot(eventSource);
      RebuildCalendar(now);
      ghost var v1 := View();
      RebuiltGridIsCurrent(v0, selectedDate, now, weekStart, useWeekdate, rtl, events, SourceIsDummy(eventSource));
      Update(now);
      assert View() == UpdatedView(v1, selectedDate, now, weekStart, useWeekdate, rtl, events, SourceIsDummy(eventSource));
    }

    /** _onSettingsChange, given the new show-weekdate value. */
    method OnSettingsChange(useWeekdate: bool, now: int)
      requires Valid()
      modifies this`useWeekdate, this`headerLabels, this`calendarBegin, this`markedAsToday, this`buttons, this`weekNumbers, this`monthLabelWithYear, Footprint(eventSource)
      ensures Valid()
      ensures this.useWeekdate == useWeekdate
      ensures headerLabels == HeaderLabels(SetHours(SetSeconds(selectedDate, 0), 12), weekStart, OffsetCols(useWeekdate), rtl)
      ensures View() == FreshView(selectedDate, now, weekStart, useWeekdate, rtl,
                                  old(Snapshot(eventSource)), SourceIsDummy(eventSource))
      ensures eventSource.Remote? ==>
        eventSource.remote.State() == RequestRangeNext(old(eventSource.remote.State()),
          GridBegin(selectedDate, weekStart), GridEnd(selectedDate, weekStart))
      ensures |buttons| == GRID_DAYS
      ensures forall i :: 0 <= i < |buttons| ==> (buttons[i].active <==> DayNumber(buttons[i].date) == DayNumber(selectedDate))
      ensures exists i :: 0 <= i < |buttons| && buttons[i].active
      ensures forall i, j :: 0 <= i < |buttons| && 0 <= j < |buttons| && buttons[i].active && buttons[j].active ==> i == j
    {
      this.useWeekdate := useWeekdate;
      BuildHeader();
      RebuildAndUpdate(now);
    }

    /** setDate: nothing happens for the same calendar day; otherwise select it, update and notify. */
    method SetDate(date: int, now: int)
      requires Valid()
      modifies this`selectedDate, this`selectedDateChanged, this`calendarBegin, this`markedAsToday, this`buttons, this`weekNumbers, this`monthLabelWithYear, Footprint(eventSource)
      ensures Valid()
      ensures SameDay(date, old(selectedDate)) ==>
        && selectedDate == old(selectedDate) && selectedDateChanged == old(selectedDateChanged)
        && View() == old(View())
        && (eventSource.Remote? ==> eventSource.remote.State() == old(eventSource.remote.State()))
      ensures !SameDay(date, old(selectedDate)) ==>
        && selectedDate == date && selectedDateChanged == old(selectedDateChanged) + [date]
        && View() == UpdatedView(old(View()), date, now, weekStart, useWeekdate, rtl,
                                 old(Snapshot(eventSource)), SourceIsDummy(eventSource))
        && (eventSource.Remote? ==>
              eventSource.remote.State() == UpdatedSource(old(eventSource.remote.State()), old(View()), date, now, weekStart))
      ensures !SameDay(date, old(selectedDate)) ==>
        && calendarBegin.Some? && SameMonth(selectedDate, calendarBegin.value)
        && |buttons| == GRID_DAYS
        && (forall i :: 0 <= i < |buttons| ==> (buttons[i].active <==> DayNumber(buttons[i].date) == DayNumber(selectedDate)))
        && (exists i :: 0 <= i < |buttons| && buttons[i].active)
        && (forall i, j :: 0 <= i < |buttons| && 0 <= j < |buttons| && buttons[i].active && buttons[j].active ==> i == j)
    {
      if SameDay(date, selectedDate) {
        return;
      }
      selectedDate := date;
      Update(now);
      selectedDateChanged := selectedDateChanged + [selectedDate];
    }

    method OnPrevMonthButtonClicked(now: int)
      requires Valid()
      modifies this`selectedDate, this`selectedDateChanged, this`calendarBegin, this`markedAsToday, this`buttons, this`weekNumbers, this`monthLabelWithYear, Footprint(eventSource)
      ensures Valid()
      ensures selectedDate == PrevMonthDate(old(selectedDate))
      ensures selectedDateChanged == old(selectedDateChanged) + [selectedDate]
      ensures View() == UpdatedView(old(View()), selectedDate, now, weekStart, useWeekdate, rtl,
                                    old(Snapshot(eventSource)), SourceIsDummy(eventSource))
      ensures eventSource.Remote? ==>
        eventSource.remote.State() == UpdatedSource(old(eventSource.remote.State()), old(View()), selectedDate, now, weekStart)
      ensures forall i :: 0 <= i < |buttons| ==> (buttons[i].active <==> DayNumber(buttons[i].date) == DayNumber(selectedDate))
      ensures exists i :: 0 <= i < |buttons| && buttons[i].active
    {
      var newDate := PrevMonthDate(selectedDate);
      MonthNavigationMovesMonth(selectedDate);
      SetDate(newDate, now);
    }

    method OnNextMonthButtonClicked(now: int)
      requires Valid()
      modifies this`selectedDate, this`selectedDateChanged, this`calendarBegin, this`markedAsToday, this`buttons, this`weekNumbers, this`monthLabelWithYear, Footprint(eventSource)
      ensures Valid()
      ensures selectedDate == NextMonthDate(old(selectedDate))
      ensures selectedDateChanged == old(selectedDateChanged) + [selectedDate]
      ensures View() == UpdatedView(old(View()), selectedDate, now, weekStart, useWeekdate, rtl,
                                    old(Snapshot(eventSource)), SourceIsDummy(eventSource))
      ensures eventSource.Remote? ==>
        eventSource.remote.State() == UpdatedSource(old(eventSource.remote.State()), old(View()), selectedDate, now, weekStart)
      ensures forall i :: 0 <= i < |buttons| ==> (buttons[i].active <==> DayNumber(buttons[i].date) == DayNumber(selectedDate))
      ensures exists i :: 0 <= i < |buttons| && buttons[i].active
    {
      var newDate := NextMonthDate(selectedDate);
      MonthNavigationMovesMonth(selectedDate);
      SetDate(newDate, now);
    }

    /**
      _rebuildCalendar: the 42 buttons of the selected month's grid, the week-number
      labels, and one request to the source for exactly the days shown.
    */
    method RebuildCalendar(now: int)
      requires Valid()
      modifies this`calendarBegin, this`markedAsToday, this`buttons, this`weekNumbers, Footprint(eventSource)
      ensures Valid()
      ensures View() == RebuiltView(old(View()), selectedDate, now, weekStart, useWeekdate, rtl,
                                    old(Snapshot(eventSource)), SourceIsDummy(eventSource))
      ensures eventSource.Remote? ==>
        eventSource.remote.State() == RequestRangeNext(old(eventSource.remote.State()),
          GridBegin(selectedDate, weekStart), GridEnd(selectedDate, weekStart))
    {
      var source, selected := eventSource, selectedDate;
      var anchor, cells, labels := RebuildGrid(source, selected, now, weekStart, useWeekdate, rtl);
      calendarBegin := Some(anchor);
      markedAsToday := now;
      buttons := cells;
      weekNumbers := labels;
      assert source == eventSource && selected == selectedDate;
    }

    /**
      _update: choose the month label, rebuild the grid when it shows another month or
      today has moved to another day, and mark exactly the selected day's button active.
    */
    method Update(now: int)
      requires Valid()
      modifies this`calendarBegin, this`markedAsToday, this`buttons, this`weekNumbers, this`monthLabelWithYear, Footprint(eventSource)
      ensures Valid()
      ensures View() == UpdatedView(old(View()), selectedDate, now, weekStart, useWeekdate, rtl,
                                    old(Snapshot(eventSource)), SourceIsDummy(eventSource))
      ensures eventSource.Remote? ==>
        eventSource.remote.State() == UpdatedSource(old(eventSource.remote.State()), old(View()), selectedDate, now, weekStart)
      ensures calendarBegin.Some? && SameMonth(selectedDate, calendarBegin.value)
      ensures |buttons| == GRID_DAYS
      ensures forall i :: 0 <= i < |buttons| ==> (buttons[i].active <==> DayNumber(buttons[i].date) == DayNumber(selectedDate))
      ensures exists i :: 0 <= i < |buttons| && buttons[i].active
      ensures forall i, j :: 0 <= i < |buttons| && 0 <= j < |buttons| && buttons[i].active && buttons[j].active ==> i == j
    {
      ghost var v0, events, dummy := View(), Snapshot(eventSource), SourceIsDummy(eventSource);
      ghost var s0 := if eventSource.Remote? then eventSource.remote.State() else InitialState();
      var selected := selectedDate;
      monthLabelWithYear := !SameYear(selected, now);
      ghost var w := View();
      assert w == v0.(monthLabelWithYear := !SameYear(selected, now));
      assert Snapshot(eventSource) == events;
      RebuildIfStale(now);
      ghost var v1 := View();
      MarkSelectedDay(selected);
      assert View() == v1.(buttons := buttons);
      UpdatedViewSteps(v0, v1, buttons, s0, selected, now, weekStart, useWeekdate, rtl, events, dummy);
    }

    /** The test and rebuild of _update: rebuild exactly when the grid is missing, of another month, or stale. */
    method RebuildIfStale(now: int)
      requires Valid()
      modifies this`calendarBegin, this`markedAsToday, this`buttons, this`weekNumbers, Footprint(eventSource)
      ensures Valid()
      ensures View() == if NeedsRebuild(old(View()), selectedDate, now)
                        then RebuiltView(old(View()), selectedDate, now, weekStart, useWeekdate, rtl,
                                         old(Snapshot(eventSource)), SourceIsDummy(eventSource))
                        else old(View())
      ensures eventSource.Remote? ==>
        eventSource.remote.State() == UpdatedSource(old(eventSource.remote.State()), old(View()), selectedDate, now, weekStart)
      ensures calendarBegin.Some? && SameMonth(selectedDate, calendarBegin.value)
    {
      if calendarBegin.None? || !SameMonth(selectedDate, calendarBegin.value) || !SameDay(now, markedAsToday) {
        RebuildCalendar(now);
        AnchorSameMonth(selectedDate);
      }
    }

    /** The loop of _update over the buttons of a grid of the selected day's month. */
    method MarkSelectedDay(selected: int)
      requires Valid() && calendarBegin.Some? && SameMonth(selected, calendarBegin.value)
      modifies this`buttons
      ensures Valid()
      ensures buttons == MarkAll(old(buttons), selected)
      ensures |buttons| == GRID_DAYS
      ensures forall i :: 0 <= i < |buttons| ==> (buttons[i].active <==> DayNumber(buttons[i].date) == DayNumber(selected))
      ensures exists i :: 0 <= i < |buttons| && buttons[i].active
      ensures forall i, j :: 0 <= i < |buttons| && 0 <= j < |buttons| && buttons[i].active && buttons[j].active ==> i == j
    {
      var anchor := calendarBegin.value;
      var marked := MarkSelected(buttons, selected);
      MarkedGridSelectsOne(buttons, marked, anchor, weekStart, selected);
      buttons := marked;
    }
  }

  /**
    What _rebuildCalendar leaves behind for the month of `selected`: the anchor, the
    42 buttons from the grid's first day, and the week-number labels of its rows.
  */
  ghost predicate RebuiltFor(anchor: int, cells: seq<DayButton>, labels: seq<WeekNumberLabel>,
                             selected: int, now: int, weekStart: int, useWeekdate: bool, rtl: bool,
                             events: seq<CalendarEvent>, dummy: bool)
  {
    && anchor == MonthAnchor(selected)
    && cells == GridCells(GridBegin(selected, weekStart), selected, now, weekStart, useWeekdate, rtl, events, dummy)
    && labels == WeekLabels(GridBegin(selected, weekStart), GRID_DAYS, useWeekdate, rtl)
  }

  lemma AnchorIsMonthAnchor(d: int)
    ensures IsMonthAnchor(MonthAnchor(d))
  {
  }

  /**
    The work of _rebuildCalendar on values: the anchor of the selected month, the 42
    buttons and the week-number labels of its grid, and one request to the source for
    exactly the days shown. The buttons' event dots reflect the source's cache as it
    was before the request.
  */
  method RebuildGrid(source: EventSourceRef, selected: int, now: int, weekStart: int, useWeekdate: bool, rtl: bool)
    returns (anchor: int, cells: seq<DayButton>, labels: seq<WeekNumberLabel>)
    requires 0 <= weekStart < 7
    modifies Footprint(source)
    ensures RebuiltFor(anchor, cells, labels, selected, now, weekStart, useWeekdate, rtl,
                       old(Snapshot(source)), SourceIsDummy(source))
    ensures IsMonthAnchor(anchor) && ShowsGridOf(cells, anchor, weekStart)
    ensures source.Remote? ==>
      source.remote.State() == RequestRangeNext(old(source.remote.State()),
        GridBegin(selected, weekStart), GridEnd(selected, weekStart))
  {
    ghost var events := Snapshot(source);
    var beginDate;
    anchor, beginDate := GridStart(selected, weekStart);
    var iter;
    cells, labels, iter := BuildGrid(source, beginDate, selected, now, weekStart, useWeekdate, rtl);
    GridCellsDays(beginDate, selected, now, weekStart, useWeekdate, rtl, events, SourceIsDummy(source));
    AnchorIsMonthAnchor(selected);
    assert beginDate == GridBegin(selected, weekStart);
    assert iter == GridEnd(selected, weekStart);
    SourceRequestRange(source, beginDate, iter);
  }

  /**
    The start of _rebuildCalendar: the 1st of the selected month at noon, and the day
    the grid begins on, found by stepping back to the week start with the padding rule.
  */
  method GridStart(selected: int, weekStart: int) returns (anchor: int, begin: int)
    requires 0 <= weekStart < 7
    ensures anchor == MonthAnchor(selected) && begin == GridBeginFrom(anchor, weekStart)
    ensures GetDay(begin) == weekStart
  {
    anchor := Dates.SetDate(selected, 1);
    anchor := SetSeconds(anchor, 0);
    anchor := SetHours(anchor, 12);
    var daysToWeekStart := (7 + GetDay(anchor) - weekStart) % 7;
    var startsOnWeekStart := daysToWeekStart == 0;
    var weekPadding := if startsOnWeekStart then 7 else 0;
    begin := anchor - (weekPadding + daysToWeekStart) * MSECS_IN_DAY;
    MonthAnchorBySetters(selected);
    GridBeginSpec(anchor, weekStart);
  }

  /**
    The row loop of _rebuildCalendar: from `begin` (a day on the week start), one
    button per day while the row counter stays below 8, a week-number label on each
    Thursday when week numbers are shown, and a new row whenever the week start
    comes round again. It ends one day past the 42nd cell.
  */
  method BuildGrid(source: EventSourceRef, begin: int, selected: int, now: int, weekStart: int,
                   useWeekdate: bool, rtl: bool)
    returns (cells: seq<DayButton>, labels: seq<WeekNumberLabel>, iter: int)
    requires 0 <= weekStart < 7 && GetDay(begin) == weekStart
    ensures cells == GridCells(begin, selected, now, weekStart, useWeekdate, rtl, Snapshot(source), SourceIsDummy(source))
    ensures labels == WeekLabels(begin, GRID_DAYS, useWeekdate, rtl)
    ensures iter == begin + GRID_DAYS * MSECS_IN_DAY
  {
    ghost var f := CellOf(begin, selected, now, weekStart, useWeekdate, rtl, Snapshot(source), SourceIsDummy(source));
    cells := [];
    labels := [];
    iter := begin;
    var row := 2;
    ghost var k := 0;
    while row < 8
      invariant 0 <= k <= GRID_DAYS
      invariant iter == begin + k * MSECS_IN_DAY
      invariant GetDay(iter) == (weekStart + k) % 7
      invariant row == 2 + k / 7
      invariant cells == seq(k, f)
      invariant labels == WeekLabels(begin, k, useWeekdate, rtl)
      decreases GRID_DAYS - k
    {
      var button := NewDayButton(source, begin, k, iter, row, selected, now, weekStart, useWeekdate, rtl);
      SeqStep(f, k);
      cells := cells + [button];
      WeekLabelsStep(begin, k, useWeekdate, rtl);
      if useWeekdate && GetDay(iter) == 4 {
        labels := labels + [WeekNumberLabel(iter, row, if rtl then 7 else 0)];
      }
      DayStep(begin, weekStart, k);
      iter := iter + MSECS_IN_DAY;
      if GetDay(iter) == weekStart {
        row := row + 1;
      }
      k := k + 1;
    }
  }

  /**
    One day button of the row loop, its style flags computed as _rebuildCalendar does:
    it is cell `k` of the grid from `begin`.
  */
  method NewDayButton(source: EventSourceRef, begin: int, ghost k: int, iter: int, row: int, selected: int,
                      now: int, weekStart: int, useWeekdate: bool, rtl: bool)
    returns (button: DayButton)
    requires iter == begin + k * MSECS_IN_DAY && row == 2 + k / 7
    ensures button == CellOf(begin, selected, now, weekStart, useWeekdate, rtl, Snapshot(source), SourceIsDummy(source))(k)
  {
    var hasEvents := SourceHasEvents(source, iter);
    var leftMost := if rtl then GetDay(iter) == (weekStart + 6) % 7 else GetDay(iter) == weekStart;
    var today := SameDay(now, iter);
    var otherMonth := !today && GetMonth(iter) != GetMonth(selected);
    var offsetCols := if useWeekdate then 1 else 0;
    var col := if rtl then 6 - (7 + GetDay(iter) - weekStart) % 7
               else offsetCols + (7 + GetDay(iter) - weekStart) % 7;
    button := DayButton(iter, row, col, IsWorkDay(iter), row == 2, leftMost,
                        today, otherMonth, hasEvents, !SourceIsDummy(source), false);
    MakeButtonFields(iter, row, selected, now, weekStart, useWeekdate, rtl, Snapshot(source), SourceIsDummy(source));
    CellOfIs(begin, selected, now, weekStart, useWeekdate, rtl, Snapshot(source), SourceIsDummy(source), k, iter, row);
  }

  /** Stepping from cell `k` to cell `k + 1` of a grid that begins on the week start. */
  lemma DayStep(begin: int, weekStart: int, k: int)
    requires 0 <= weekStart < 7 && GetDay(begin) == weekStart && 0 <= k
    ensures GetDay(begin + (k + 1) * MSECS_IN_DAY) == (weekStart + (k + 1)) % 7
    ensures GetDay(begin + (k + 1) * MSECS_IN_DAY) == weekStart <==> (k + 1) % 7 == 0
    ensures (k + 1) / 7 == k / 7 + (if (k + 1) % 7 == 0 then 1 else 0)
  {
    AddDays(begin, k + 1);
    RowStep(weekStart, k);
  }

  /**
    The loop of _update over the buttons: each button is marked active exactly when
    it shows the selected day, and nothing else about the buttons changes.
  */
  method MarkSelected(buttons: seq<DayButton>, selected: int) returns (marked: seq<DayButton>)
    ensures marked == MarkAll(buttons, selected)
    ensures |marked| == |buttons|
    ensures forall i :: 0 <= i < |buttons| ==>
      marked[i] == buttons[i].(active := DayNumber(buttons[i].date) == DayNumber(selected))
  {
    marked := buttons;
    for n := 0 to |buttons|
      invariant |marked| == |buttons|
      invariant forall i :: 0 <= i < n ==>
        marked[i] == buttons[i].(active := DayNumber(buttons[i].date) == DayNumber(selected))
      invariant forall i :: n <= i < |buttons| ==> marked[i] == buttons[i]
    {
      marked := marked[n := marked[n].(active := SameDay(marked[n].date, selected))];
    }
  }

  /**
    Marking the grid of the selected day's month keeps the days it shows and makes
    exactly one button active: the one showing the selected day.
  */
  lemma MarkedGridSelectsOne(buttons: seq<DayButton>, marked: seq<DayButton>, anchor: int, weekStart: int,
                             selected: int)
    requires 0 <= weekStart < 7
    requires IsMonthAnchor(anchor) && ShowsGridOf(buttons, anchor, weekStart) && SameMonth(selected, anchor)
    requires |marked| == |buttons|
    requires forall i :: 0 <= i < |buttons| ==>
      marked[i] == buttons[i].(active := DayNumber(buttons[i].date) == DayNumber(selected))
    ensures ShowsGridOf(marked, anchor, weekStart)
    ensures forall i :: 0 <= i < |marked| ==> (marked[i].active <==> DayNumber(marked[i].date) == DayNumber(selected))
    ensures exists i :: 0 <= i < |marked| && marked[i].active
    ensures forall i, j :: 0 <= i < |marked| && 0 <= j < |marked| && marked[i].active && marked[j].active ==> i == j
  {
    AnchorGridIndex(anchor, weekStart, selected);
    ActiveButtonUnique(marked, DayNumber(GridBeginFrom(anchor, weekStart)), DayNumber(selected));
  }

  /**
    In a grid of 42 consecutive days holding day `selected`, marking the buttons of
    that day marks exactly one button.
  */
  lemma ActiveButtonUnique(buttons: seq<DayButton>, first: int, selected: int)
    requires ShowsDaysFrom(buttons, first)
    requires first <= selected < first + GRID_DAYS
    requires forall i :: 0 <= i < |buttons| ==> (buttons[i].active <==> DayNumber(buttons[i].date) == selected)
    ensures exists i :: 0 <= i < |buttons| && buttons[i].active
    ensures forall i, j :: 0 <= i < |buttons| && 0 <= j < |buttons| && buttons[i].active && buttons[j].active ==> i == j
  {
    assert buttons[selected - first].active;
  }
}
