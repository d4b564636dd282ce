/**
  The events list beside the calendar (EventsList): which periods it shows for the
  selected date, which events each period lists, and how each event row is shown
  (day name, time or "All Day", and the ellipses that mark an event running over
  the period's edge). Widgets are replaced by the sequence of rows the list holds.
*/
module Agenda {
  import opened Dates
  import opened Events

  // ---------------------------------------------------------------------------
  // One event row
  // ---------------------------------------------------------------------------

  /** The clock used for event times. */
  datatype ClockFormat = TwentyFourHour | TwelveHour

  /** The clock-format setting: "24h" selects the 24-hour clock and every other value the 12-hour one. */
  function ClockFormatOf(setting: string): (f: ClockFormat)
    ensures f == TwentyFourHour <==> setting == "24h"
  {
    if setting == "24h" then TwentyFourHour else TwelveHour
  }

  /** The time column of an event row: "All Day", or an instant shown on a clock. */
  datatype TimeText = AllDay | ClockTime(instant: int, format: ClockFormat)

  /** _formatEventTime: all-day when flagged so or when the event spans the whole period. */
  function FormatEventTime(event: CalendarEvent, format: ClockFormat, periodBegin: int, periodEnd: int): TimeText {
    var allDay := event.allDay || (event.date <= periodBegin && event.end >= periodEnd);
    if allDay then AllDay
    else ClockTime(if event.date >= periodBegin then event.date else event.end, format)
  }

  /**
    An event is shown as all-day exactly when it is flagged all-day or spans the whole
    period. Otherwise it shows its start when it starts within the period and its end
    when it started earlier, in the chosen clock; for an event that overlaps the period
    that instant lies within the period.
  */
  lemma FormatEventTimeSpec(event: CalendarEvent, format: ClockFormat, periodBegin: int, periodEnd: int)
    ensures var r := FormatEventTime(event, format, periodBegin, periodEnd);
      && (r == AllDay <==> event.allDay || (event.date <= periodBegin && periodEnd <= event.end))
      && (r.ClockTime? ==> r.format == format
                           && r.instant == (if periodBegin <= event.date then event.date else event.end))
      && (r.ClockTime? && DateIntervalsOverlap(event.date, event.end, periodBegin, periodEnd) ==>
            periodBegin <= r.instant < periodEnd)
  {
  }

  /** _getEventDayAbbreviation: the weekday names of the events list, Sunday first. */
  function EventDayAbbreviation(weekday: int): (s: string)
    requires 0 <= weekday < 7
    ensures 1 <= |s| <= 2
  {
    ["Su", "M", "T", "W", "Th", "F", "S"][weekday]
  }

  /** Unlike the grid's letters, the list's weekday names tell every two days apart. */
  lemma EventDayAbbreviationsDistinct(a: int, b: int)
    requires 0 <= a < 7 && 0 <= b < 7 && a != b
    ensures EventDayAbbreviation(a) != EventDayAbbreviation(b)
  {
    var names := ["Su", "M", "T", "W", "Th", "F", "S"];
    assert EventDayAbbreviation(a) == names[a] && EventDayAbbreviation(b) == names[b];
  }

  /** An event row: day name, time column, the two ellipses (true = visible) and the summary. */
  datatype EventRow = EventRow(dayName: string, time: TimeText, preEllipsis: bool, postEllipsis: bool, summary: string)

  /** The row _addEvent shows for `event` in the period [periodBegin, periodEnd]. */
  function EventDisplay(event: CalendarEvent, includeDayName: bool, periodBegin: int, periodEnd: int,
                        format: ClockFormat): EventRow
  {
    var dayName :=
      if !includeDayName then ""
      else if event.date >= periodBegin then EventDayAbbreviation(GetDay(event.date))
      else EventDayAbbreviation(GetDay(event.end));
    EventRow(dayName, FormatEventTime(event, format, periodBegin, periodEnd),
             !(event.allDay || event.date >= periodBegin), !(event.allDay || event.end <= periodEnd),
             event.summary)
  }

  /**
    The leading ellipsis shows exactly for an event that is not all-day and began
    before the period, the trailing one for one that is not all-day and ends after it.
    With day names on, the day name is the weekday of the event's start when it starts
    in the period and of its end otherwise (for all-day events too), which for a clock
    time is the weekday of the instant shown; a clock time is never framed by both
    ellipses.
  */
  lemma EventDisplaySpec(event: CalendarEvent, includeDayName: bool, periodBegin: int, periodEnd: int,
                         format: ClockFormat)
    ensures var r := EventDisplay(event, includeDayName, periodBegin, periodEnd, format);
      && r.summary == event.summary
      && r.time == FormatEventTime(event, format, periodBegin, periodEnd)
      && (r.preEllipsis <==> !event.allDay && event.date < periodBegin)
      && (r.postEllipsis <==> !event.allDay && periodEnd < event.end)
      && (!includeDayName ==> r.dayName == "")
      && (includeDayName ==>
            r.dayName == EventDayAbbreviation(GetDay(if event.date >= periodBegin then event.date else event.end)))
      && (includeDayName && r.time.ClockTime? ==> r.dayName == EventDayAbbreviation(GetDay(r.time.instant)))
      && (r.preEllipsis && r.postEllipsis ==> r.time == AllDay)
  {
    FormatEventTimeSpec(event, format, periodBegin, periodEnd);
  }

  // ---------------------------------------------------------------------------
  // Periods
  // ---------------------------------------------------------------------------

  /** The heading of a period; a day heading shows the year only when asked to. */
  datatype PeriodHeader = Today | Tomorrow | ThisWeek | NextWeek | DayHeading(day: int, withYear: bool)

  /** One _addPeriod call: heading, window, and the two display choices. */
  datatype Period = Period(header: PeriodHeader, begin: int, end: int, includeDayName: bool, showNothingScheduled: bool)

  /** A row of the events box: a period heading or an event row. */
  datatype AgendaItem = HeaderItem(header: PeriodHeader) | EventItem(row: EventRow)

  /** The placeholder of an empty period: an all-day event at the period's start. */
  function NothingScheduled(periodBegin: int): CalendarEvent {
    CalendarEvent(periodBegin, periodBegin, "Nothing Scheduled", true)
  }

  /** The event rows of `events`, in order. */
  function EventRows(events: seq<CalendarEvent>, includeDayName: bool, periodBegin: int, periodEnd: int,
                     format: ClockFormat): (r: seq<AgendaItem>)
    ensures |r| == |events|
  {
    if events == [] then []
    else EventRows(events[..|events| - 1], includeDayName, periodBegin, periodEnd, format)
         + [EventItem(EventDisplay(events[|events| - 1], includeDayName, periodBegin, periodEnd, format))]
  }

  lemma {:induction false} EventRowsAt(events: seq<CalendarEvent>, includeDayName: bool, periodBegin: int,
                                      periodEnd: int, format: ClockFormat, i: int)
    requires 0 <= i < |events|
    ensures EventRows(events, includeDayName, periodBegin, periodEnd, format)[i]
      == EventItem(EventDisplay(events[i], includeDayName, periodBegin, periodEnd, format))
  {
    if i < |events| - 1 {
      EventRowsAt(events[..|events| - 1], includeDayName, periodBegin, periodEnd, format, i);
    }
  }

  /** The rows _addPeriod adds for period `p` whose window holds `events`. */
  function PeriodItems(p: Period, events: seq<CalendarEvent>, format: ClockFormat): seq<AgendaItem> {
    if |events| == 0 && !p.showNothingScheduled then []
    else
      [HeaderItem(p.header)]
      + EventRows(events, p.includeDayName, p.begin, p.end, format)
      + (if |events| == 0 then [EventItem(EventDisplay(NothingScheduled(p.begin), false, p.begin, p.end, format))] else [])
  }

  /**
    A period adds nothing exactly when it has no events and no placeholder is wanted.
    Otherwise its heading comes first, then one row per event in the given order, and
    an empty period gets one placeholder row: no day name, "All Day", no ellipses.
  */
  lemma PeriodItemsSpec(p: Period, events: seq<CalendarEvent>, format: ClockFormat)
    ensures var r := PeriodItems(p, events, format);
      && (r == [] <==> events == [] && !p.showNothingScheduled)
      && (r != [] ==> r[0] == HeaderItem(p.header) && |r| == 1 + (if events == [] then 1 else |events|))
      && (r != [] ==> forall i :: 0 <= i < |events| ==>
            r[1 + i] == EventItem(EventDisplay(events[i], p.includeDayName, p.begin, p.end, format)))
      && (events == [] && p.showNothingScheduled ==>
            r == [HeaderItem(p.header), EventItem(EventRow("", AllDay, false, false, "Nothing Scheduled"))])
  {
    var r := PeriodItems(p, events, format);
    if r != [] {
      forall i | 0 <= i < |events|
        ensures r[1 + i] == EventItem(EventDisplay(events[i], p.includeDayName, p.begin, p.end, format))
      {
        EventRowsAt(events, p.includeDayName, p.begin, p.end, format, i);
      }
    }
  }

  /** The rows of a sequence of periods, each listing the events of its window. */
  function AgendaItems(periods: seq<Period>, events: seq<CalendarEvent>, format: ClockFormat): seq<AgendaItem> {
    if periods == [] then []
    else
      var p := periods[|periods| - 1];
      AgendaItems(periods[..|periods| - 1], events, format) + PeriodItems(p, EventsInWindow(events, p.begin, p.end), format)
  }

  lemma AgendaItemsStep(periods: seq<Period>, p: Period, events: seq<CalendarEvent>, format: ClockFormat)
    ensures AgendaItems(periods + [p], events, format)
      == AgendaItems(periods, events, format) + PeriodItems(p, EventsInWindow(events, p.begin, p.end), format)
  {
    assert (periods + [p])[..|periods|] == periods;
  }

  /** The rows of one more period, appended after what the box already holds. */
  lemma AgendaItemsAppend(before: seq<AgendaItem>, periods: seq<Period>, p: Period, events: seq<CalendarEvent>,
                          format: ClockFormat)
    ensures before + AgendaItems(periods + [p], events, format)
      == before + AgendaItems(periods, events, format) + PeriodItems(p, EventsInWindow(events, p.begin, p.end), format)
  {
    AgendaItemsStep(periods, p, events, format);
    AppendAssoc(before, AgendaItems(periods, events, format), PeriodItems(p, EventsInWindow(events, p.begin, p.end), format));
  }

  /** The rows of a single period, appended after what the box already holds. */
  lemma AgendaItemsOfOne(before: seq<AgendaItem>, p: Period, events: seq<CalendarEvent>, format: ClockFormat)
    ensures before + AgendaItems([p], events, format) == before + PeriodItems(p, EventsInWindow(events, p.begin, p.end), format)
  {
    assert [] + [p] == [p];
    AgendaItemsAppend(before, [], p, events, format);
    assert before + [] == before;
  }

  /** The rows of three periods, appended after what the box already holds. */
  lemma AgendaItemsOfThree(before: seq<AgendaItem>, ps: seq<Period>, events: seq<CalendarEvent>, format: ClockFormat)
    requires |ps| == 3
    ensures before + AgendaItems(ps, events, format)
      == before + PeriodItems(ps[0], EventsInWindow(events, ps[0].begin, ps[0].end), format)
         + PeriodItems(ps[1], EventsInWindow(events, ps[1].begin, ps[1].end), format)
         + PeriodItems(ps[2], EventsInWindow(events, ps[2].begin, ps[2].end), format)
  {
    assert [ps[0], ps[1]] + [ps[2]] == ps && [ps[0]] + [ps[1]] == [ps[0], ps[1]] && [] + [ps[0]] == [ps[0]];
    AgendaItemsAppend(before, [ps[0], ps[1]], ps[2], events, format);
    AgendaItemsAppend(before, [ps[0]], ps[1], events, format);
    AgendaItemsAppend(before, [], ps[0], events, format);
    assert before + [] == before;
  }

  /** The position of the day of `t` in the week that starts on `weekStart`. */
  function DayInWeek(t: int, weekStart: int): int {
    (GetDay(t) - weekStart + 7) % 7
  }

  /** _showToday's periods: today, tomorrow, and the rest of this week or all of next week. */
  function TodayPeriods(now: int, weekStart: int): seq<Period> {
    var dayEnd := EndOfDay(now);
    PeriodsFrom(BeginningOfDay(now), dayEnd, GetDay(dayEnd), weekStart)
  }

  /** The three periods from the bounds of today and the weekday of today's end. */
  function PeriodsFrom(dayBegin: int, dayEnd: int, endWeekDay: int, weekStart: int): seq<Period> {
    [Period(Today, dayBegin, dayEnd, false, true),
     Period(Tomorrow, dayBegin + 86400 * 1000, dayEnd + 86400 * 1000, false, true),
     WeekPeriod(dayBegin, dayEnd, (endWeekDay - weekStart + 7) % 7)]
  }

  /** The third period: the rest of this week while today is among its first five days, else the next week. */
  function WeekPeriod(dayBegin: int, dayEnd: int, dayInWeek: int): Period {
    if dayInWeek < 5 then Period(ThisWeek, dayBegin + 2 * 86400 * 1000, dayEnd + (6 - dayInWeek) * 86400 * 1000, true, false)
    else Period(NextWeek, dayBegin + 2 * 86400 * 1000, dayEnd + (13 - dayInWeek) * 86400 * 1000, true, false)
  }

  /** _showOtherDay's single period: the whole of `day`, headed with the year when it is not the current one. */
  function OtherDayPeriods(day: int, now: int): seq<Period> {
    [Period(DayHeading(day, !SameYear(day, now)), BeginningOfDay(day), EndOfDay(day), false, true)]
  }

  /** The periods _update shows for the selected `date`. */
  function AgendaPeriods(date: int, now: int, weekStart: int): seq<Period> {
    if SameDay(date, now) then TodayPeriods(now, weekStart) else OtherDayPeriods(date, now)
  }

  /** The last day of the week bucket is the week's last weekday, `days` days after today. */
  lemma WeekBucketEnd(wd: int, weekStart: int)
    requires 0 <= wd < 7 && 0 <= weekStart < 7
    ensures var diw := (wd - weekStart + 7) % 7;
      var days := if diw < 5 then 6 - diw else 13 - diw;
      && 2 <= days <= 8
      && (wd + days) % 7 == (weekStart + 6) % 7
      && (diw < 5 <==> days <= 6)
  {
    var diw := (wd - weekStart + 7) % 7;
    if wd >= weekStart {
      assert diw == wd - weekStart;
    } else {
      assert diw == wd - weekStart + 7;
    }
  }

  /**
    Today's list: the day itself, then the next day, then from the day after up to
    and including the last day of the week; when today is one of the week's last two
    days the third period runs to the end of next week instead. The three windows
    follow one another without gap or overlap, each from the start of a day to the
    end of a day, and only the week period shows day names and omits itself when empty.
  */
  lemma TodayPeriodsSpec(now: int, weekStart: int)
    requires 0 <= weekStart < 7
    ensures var ps := TodayPeriods(now, weekStart);
      && |ps| == 3
      && ps[0].header == Today && ps[1].header == Tomorrow
      && (ps[2].header == ThisWeek <==> DayInWeek(now, weekStart) < 5)
      && (ps[2].header == NextWeek <==> DayInWeek(now, weekStart) >= 5)
      && ps[0].begin == DayNumber(now) * MSECS_IN_DAY
      && (forall k :: 0 <= k < 3 ==> TimeOfDay(ps[k].begin) == 0 && TimeOfDay(ps[k].end) == MSECS_IN_DAY - 1)
      && ps[1].begin == ps[0].end + 1 && ps[2].begin == ps[1].end + 1
      && DayNumber(ps[0].end) == DayNumber(now) && DayNumber(ps[1].end) == DayNumber(now) + 1
      && 2 <= DayNumber(ps[2].end) - DayNumber(now) <= 8
      && GetDay(ps[2].end) == (weekStart + 6) % 7
      && (DayInWeek(now, weekStart) < 5 <==> DayNumber(ps[2].end) - DayNumber(now) <= 6)
      && !ps[0].includeDayName && !ps[1].includeDayName && ps[2].includeDayName
      && ps[0].showNothingScheduled && ps[1].showNothingScheduled && !ps[2].showNothingScheduled
  {
    var n := DayNumber(now);
    var b := BeginningOfDay(now);
    var e := EndOfDay(now);
    assert b == n * MSECS_IN_DAY && e == n * MSECS_IN_DAY + (MSECS_IN_DAY - 1);
    InstantParts(n, 0);
    InstantParts(n, MSECS_IN_DAY - 1);
    assert GetDay(e) == GetDay(now);
    var wd := GetDay(now);
    WeekBucketEnd(wd, weekStart);
    var diw := (wd - weekStart + 7) % 7;
    var days := if diw < 5 then 6 - diw else 13 - diw;
    AddDays(b, 1);
    AddDays(e, 1);
    AddDays(b, 2);
    AddDays(e, days);
  }

  /** The list for another day: one period covering exactly that day, with a placeholder when empty. */
  lemma OtherDayPeriodsSpec(day: int, now: int)
    ensures var ps := OtherDayPeriods(day, now);
      && |ps| == 1
      && ps[0].header == DayHeading(day, !SameYear(day, now))
      && ps[0].showNothingScheduled && !ps[0].includeDayName
      && (forall t :: ps[0].begin <= t <= ps[0].end <==> DayNumber(t) == DayNumber(day))
  {
    var n := DayNumber(day);
    forall t
      ensures n * MSECS_IN_DAY <= t <= n * MSECS_IN_DAY + MSECS_IN_DAY - 1 <==> DayNumber(t) == n
    {
      DayBounds(t, n);
    }
  }

  /** The instants of day number `n` are those from its first to its last millisecond. */
  lemma DayBounds(t: int, n: int)
    ensures n * MSECS_IN_DAY <= t <= n * MSECS_IN_DAY + MSECS_IN_DAY - 1 <==> DayNumber(t) == n
  {
    InstantSplit(t);
    var m := DayNumber(t);
    assert t == m * MSECS_IN_DAY + TimeOfDay(t);
    if m < n {
      assert t < n * MSECS_IN_DAY;
    } else if m > n {
      assert t >= (n + 1) * MSECS_IN_DAY;
    }
  }

  /** The rows of a period that is shown, appended to what the box already holds. */
  lemma PeriodItemsAppend(before: seq<AgendaItem>, p: Period, events: seq<CalendarEvent>, format: ClockFormat)
    requires !(|events| == 0 && !p.showNothingScheduled)
    ensures |events| > 0 ==>
      (before + PeriodItems(p, events, format)
       == before + [HeaderItem(p.header)] + EventRows(events, p.includeDayName, p.begin, p.end, format))
    ensures |events| == 0 ==>
      (before + PeriodItems(p, events, format)
       == before + [HeaderItem(p.header)] + []
          + [EventItem(EventDisplay(NothingScheduled(p.begin), false, p.begin, p.end, format))])
  {
    var rows := EventRows(events, p.includeDayName, p.begin, p.end, format);
    AppendAssoc(before, [HeaderItem(p.header)], rows);
    if |events| == 0 {
      AppendAssoc(before, [HeaderItem(p.header)] + rows,
                  [EventItem(EventDisplay(NothingScheduled(p.begin), false, p.begin, p.end, format))]);
    } else {
      assert [HeaderItem(p.header)] + rows + [] == [HeaderItem(p.header)] + rows;
    }
  }

  lemma AppendAssoc<T>(a: seq<T>, b: seq<T>, c: seq<T>)
    ensures a + (b + c) == a + b + c
  {
  }

  /**
    The events list widget. It holds the rows of the events box, top to bottom, the
    selected date, and the clock-format setting; the week start is read once at
    construction.
  */
  class EventsList {
    /** The locale's first day of the week, 0 = Sunday. */
    const weekStart: int
    var date: int
    var eventSource: EventSourceRef
    /** The clock-format setting, as _addEvent reads it. */
    var clockFormat: ClockFormat
    /** The rows of the events box, top to bottom. */
    var items: seq<AgendaItem>

    /** _init, taking the current time, week start and setting as parameters; `source` stands for the source set later. */
    constructor (now: int, weekStart: int, clockFormatSetting: string, source: EventSourceRef)
      requires 0 <= weekStart < 7
      ensures this.weekStart == weekStart && date == now && clockFormat == ClockFormatOf(clockFormatSetting)
      ensures eventSource == source && items == []
    {
      this.weekStart := weekStart;
      date := now;
      clockFormat := ClockFormatOf(clockFormatSetting);
      eventSource := source;
      items := [];
    }

    /** A new value of the clock-format setting, seen by the rows added from now on. */
    method SetClockFormat(setting: string)
      modifies this`clockFormat
      ensures clockFormat == ClockFormatOf(setting)
    {
      clockFormat := ClockFormatOf(setting);
    }

    method SetEventSource(source: EventSourceRef)
      modifies this`eventSource
      ensures eventSource == source
    {
      eventSource := source;
    }

    /** _addEvent: one row for `event` in the period [periodBegin, periodEnd]. */
    method AddEvent(event: CalendarEvent, includeDayName: bool, periodBegin: int, periodEnd: int)
      modifies this`items
      ensures items == old(items) + [EventItem(EventDisplay(event, includeDayName, periodBegin, periodEnd,
                                                            clockFormat))]
    {
      var dayString: string;
      if includeDayName {
        if event.date >= periodBegin {
          dayString := EventDayAbbreviation(GetDay(event.date));
        } else {
          dayString := EventDayAbbreviation(GetDay(event.end));
        }
      } else {
        dayString := "";
      }
      var timeString := FormatEventTime(event, clockFormat, periodBegin, periodEnd);
      var preEllipsis := true;
      var postEllipsis := true;
      if event.allDay || event.date >= periodBegin {
        preEllipsis := false;
      }
      if event.allDay || event.end <= periodEnd {
        postEllipsis := false;
      }
      items := items + [EventItem(EventRow(dayString, timeString, preEllipsis, postEllipsis, event.summary))];
    }

    /** The loop of _addPeriod: one row per event, in order. */
    method AddEventRows(events: seq<CalendarEvent>, includeDayName: bool, periodBegin: int, periodEnd: int)
      modifies this`items
      ensures items == old(items) + EventRows(events, includeDayName, periodBegin, periodEnd, clockFormat)
    {
      for n := 0 to |events|
        invariant items == old(items) + EventRows(events[..n], includeDayName, periodBegin, periodEnd, clockFormat)
      {
        assert events[..n + 1][..n] == events[..n];
        AppendAssoc(old(items), EventRows(events[..n], includeDayName, periodBegin, periodEnd, clockFormat),
                    [EventItem(EventDisplay(events[n], includeDayName, periodBegin, periodEnd, clockFormat))]);
        AddEvent(events[n], includeDayName, periodBegin, periodEnd);
      }
      assert events[..|events|] == events;
    }

    /**
      _addPeriod: the heading, the source's events of the window and, for an empty
      window, the placeholder; returns `index` advanced by one per row added.
    */
    method AddPeriod(header: PeriodHeader, index: int, periodBegin: int, periodEnd: int,
                     includeDayName: bool, showNothingScheduled: bool)
      returns (next: int)
      modifies this`items
      ensures items == old(items) + PeriodItems(Period(header, periodBegin, periodEnd, includeDayName, showNothingScheduled),
                                             EventsInWindow(Snapshot(eventSource), periodBegin, periodEnd),
                                             clockFormat)
      ensures next == index + |items| - |old(items)|
      ensures Snapshot(eventSource) == old(Snapshot(eventSource))
    {
      var p := Period(header, periodBegin, periodEnd, includeDayName, showNothingScheduled);
      var events := SourceGetEvents(eventSource, periodBegin, periodEnd);
      if |events| == 0 && !showNothingScheduled {
        assert items == old(items) + [];
        return index;
      }
      items := items + [HeaderItem(header)];
      AddEventRows(events, includeDayName, periodBegin, periodEnd);
      next := index + 1 + |events|;
      if |events| == 0 {
        AddEvent(NothingScheduled(periodBegin), false, periodBegin, periodEnd);
        next := next + 1;
      }
      PeriodItemsAppend(old(items), p, events, clockFormat);
    }

    /** _showOtherDay: the single period of `day`. */
    method ShowOtherDay(day: int, now: int)
      modifies this`items
      ensures items == old(items) + AgendaItems(OtherDayPeriods(day, now), Snapshot(eventSource), clockFormat)
    {
      var dayBegin := BeginningOfDay(day);
      var dayEnd := EndOfDay(day);
      var withYear := !SameYear(day, now);
      var heading := DayHeading(day, withYear);
      ghost var p := Period(heading, dayBegin, dayEnd, false, true);
      assert OtherDayPeriods(day, now) == [p];
      AgendaItemsOfOne(old(items), p, Snapshot(eventSource), clockFormat);
      var _ := AddPeriod(heading, 0, dayBegin, dayEnd, false, true);
    }

    /** _showToday: today, tomorrow and the week period, threading the row index. */
    method ShowToday(now: int)
      modifies this`items
      ensures items == old(items) + AgendaItems(TodayPeriods(now, weekStart), Snapshot(eventSource), clockFormat)
    {
      var dayBegin := BeginningOfDay(now);
      var dayEnd := EndOfDay(now);
      AddTodayPeriods(dayBegin, dayEnd, GetDay(dayEnd));
    }

    /** The three _addPeriod calls of _showToday, given today's bounds and the weekday its end falls on. */
    method AddTodayPeriods(dayBegin: int, dayEnd: int, endWeekDay: int)
      modifies this`items
      ensures items == old(items) + AgendaItems(PeriodsFrom(dayBegin, dayEnd, endWeekDay, weekStart),
                                                Snapshot(eventSource), clockFormat)
    {
      ghost var ps := PeriodsFrom(dayBegin, dayEnd, endWeekDay, weekStart);
      ghost var events := Snapshot(eventSource);
      AgendaItemsOfThree(old(items), ps, events, clockFormat);
      var index := 0;
      index := AddPeriod(Today, index, dayBegin, dayEnd, false, true);
      ghost var i1 := items;
      assert i1 == old(items) + PeriodItems(ps[0], EventsInWindow(events, ps[0].begin, ps[0].end), clockFormat);
      var tomorrowBegin := dayBegin + 86400 * 1000;
      var tomorrowEnd := dayEnd + 86400 * 1000;
      index := AddPeriod(Tomorrow, index, tomorrowBegin, tomorrowEnd, false, true);
      ghost var i2 := items;
      assert i2 == i1 + PeriodItems(ps[1], EventsInWindow(events, ps[1].begin, ps[1].end), clockFormat);
      var dayInWeek := (endWeekDay - weekStart + 7) % 7;
      if dayInWeek < 5 {
        var thisWeekBegin := dayBegin + 2 * 86400 * 1000;
        var thisWeekEnd := dayEnd + (6 - dayInWeek) * 86400 * 1000;
        assert ps[2] == Period(ThisWeek, thisWeekBegin, thisWeekEnd, true, false);
        index := AddPeriod(ThisWeek, index, thisWeekBegin, thisWeekEnd, true, false);
      } else {
        var nextWeekBegin := dayBegin + 2 * 86400 * 1000;
        var nextWeekEnd := dayEnd + (13 - dayInWeek) * 86400 * 1000;
        assert ps[2] == Period(NextWeek, nextWeekBegin, nextWeekEnd, true, false);
        index := AddPeriod(NextWeek, index, nextWeekBegin, nextWeekEnd, true, false);
      }
      assert items == i2 + PeriodItems(ps[2], EventsInWindow(events, ps[2].begin, ps[2].end), clockFormat);
    }

    /** setDate: nothing happens for the same calendar day; otherwise select it and update. */
    method SetDate(date: int, now: int)
      modifies this`date, this`items
      ensures SameDay(date, old(this.date)) ==> this.date == old(this.date) && items == old(items)
      ensures !SameDay(date, old(this.date)) ==> this.date == date
      ensures !SameDay(date, old(this.date)) && SourceIsLoading(eventSource) ==> items == old(items)
      ensures !SameDay(date, old(this.date)) && !SourceIsLoading(eventSource) ==>
        items == AgendaItems(AgendaPeriods(date, now, weekStart), Snapshot(eventSource), clockFormat)
    {
      if !SameDay(date, this.date) {
        this.date := date;
        Update(now);
      }
    }

    /**
      _update: while the source is loading the list is left as it is; otherwise it is
      emptied and refilled with today's periods or the selected day's.
    */
    method Update(now: int)
      modifies this`items
      ensures SourceIsLoading(eventSource) ==> items == old(items)
      ensures !SourceIsLoading(eventSource) ==>
        items == AgendaItems(AgendaPeriods(date, now, weekStart), Snapshot(eventSource), clockFormat)
    {
      if SourceIsLoading(eventSource) {
        return;
      }
      items := [];
      if SameDay(date, now) {
        ShowToday(now);
      } else {
        ShowOtherDay(date, now);
      }
    }
  }
}
