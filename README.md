# The GNOME Shell calendar, modelled in Dafny

This project models `js/ui/calendar.js` of GNOME Shell, the calendar in the top-bar
date menu. It covers five parts of that file:

- the date helpers (`_sameYear`, `_sameMonth`, `_sameDay`, `_isWorkDay`,
  `_getBeginningOfDay`, `_getEndOfDay`, `_datesEqual`, `_dateIntervalsOverlap`);
- the two event sources: `EmptyEventSource`, and `DBusEventSource`, which caches
  events fetched from the calendar server on the session bus;
- the month grid of `Calendar`: the weekday header, the 42 day buttons of
  `_rebuildCalendar`, the active day of `_update`, and month navigation with
  `setDate`;
- the events list of `EventsList`: the Today, Tomorrow, This week and Next week
  periods, the single period of another day, the "Nothing Scheduled" placeholder,
  and how each event row is shown.

Modules, one file each:

- `dates.dfy`, modules `Optional` and `Dates`. Instants are integer milliseconds of
  local wall-clock time. Day number 0 is 1970-01-01, a Thursday. The Date getters,
  setters and constructor follow the ECMAScript definitions (Day, TimeWithinDay,
  WeekDay, MakeTime, MakeDay, MakeDate). That includes the overflow of a day past
  the end of its month into the next month, which month navigation relies on.
  A Date-or-null is an `Option<int>`; null compares as 0.
- `sorting.dfy`, module `Sorting`. This is the sort by an integer key that stands
  in for `Array.prototype.sort` with a subtracting comparator. It is proved to
  order the elements by key and to be a permutation of its input.
- `events.dfy`, module `Events`.
  - `CalendarEvent` and the server's appointment tuples.
  - The queries `getEvents` and `hasEvents` on a snapshot of the cache.
  - The remote source's transitions as pure functions on a `SourceState` value.
  - The two source classes, whose methods are proved to make exactly those
    transitions.
  - The bus is an outbox: `_loadEvents` appends a `Fetch(begin, end, forceReload)`,
    and a reply arrives as a call of `OnEventsReceived`. Emitted signals are
    appended to `emitted`.
- `calendar_grid.dfy`, module `CalendarGrid`. Month navigation, the weekday
  header, the grid and the `Calendar` class. Day buttons, week-number labels and
  header labels are records carrying the flags and grid positions that the
  widgets' style classes and layout attachments encode. The grid part of a
  `Calendar`'s state is also a `GridView` value. `UpdatedView` is `_update` on it,
  and `FreshView` is `_rebuildCalendar(); _update();`. The class's methods are
  proved to make exactly those transitions.
- `agenda.dfy`, module `Agenda`. The periods and rows of the events list, and the
  `EventsList` class. The box of the list is the sequence of rows it holds.

The current time (`new Date()`), the locale's week start, the text direction and
the settings the source reads are parameters of the operations that use them.

Two details of the code differ from a plain reading of what it intends. The model
follows the code:

- After `_resetCache`, the last requested window is null, and null compares as
  instant 0. So requesting the same window again fetches it again, except the
  window [0, 0] (`Events.ResetCacheRefetches`).
- Month navigation clamps the day of month to the length of the target month.
  When it clamps, it builds the date with `new Date(y, m, day)`, so the time of day
  is reset to midnight. Only an unclamped date keeps its time of day
  (`CalendarGrid.PrevMonthSpec`).

## Model

| member | source | states |
|---|---|---|
| Dates.SameDayByFields | js/ui/calendar.js:25-35 | Two instants agree in year, month and day of month exactly when they have the same day number. |
| Dates.SameMonthIff | js/ui/calendar.js:25-31 | Two instants are in the same month of the same year exactly when the 1st of their months is the same day. |
| Dates.BeginningOfDayBySetters | js/ui/calendar.js:45-52 | Setting hours, minutes, seconds and milliseconds to 0 gives the first millisecond of the same day. |
| Dates.EndOfDayBySetters | js/ui/calendar.js:54-61 | Setting the clock to 23:59:59.999 gives the last millisecond of the same day. |
| Dates.DatesEqual | js/ui/calendar.js:208-214 | True exactly when neither instant is below the other, null counting as 0; for a non-null second argument, exactly when they are equal. |
| Dates.DateIntervalsOverlap | js/ui/calendar.js:216-224 | [a0, a1) and [b0, b1) overlap exactly when b0 < a1 and a0 < b1; intervals that only touch do not overlap. |
| Dates.OverlapSymmetric | js/ui/calendar.js:216-224 | The overlap test does not depend on the order of the two intervals. |
| Dates.OverlapMeaning | js/ui/calendar.js:216-224 | For non-empty intervals, overlapping means that some instant lies in both. |
| Dates.MakeDayOverflow | js/ui/calendar.js:530-531 | A day of month past the end of month m is the same day as the overflow into the following month (January of the next year after December). |
| Dates.AddDays | js/ui/calendar.js:679-682 | Adding k whole days of milliseconds moves the day number by k, keeps the time of day and moves the weekday by k mod 7. |
| Sorting.InsertByKeySpec | js/ui/calendar.js:324-326 | Inserting into a sequence ordered by key keeps it ordered, and adds exactly the inserted element to its multiset. |
| Sorting.SortByKeySpec | js/ui/calendar.js:367-372 | The sorted sequence is ordered non-decreasingly by the key and is a permutation of the input. |
| Sorting.SortByKeyMembers | js/ui/calendar.js:367-372 | Sorting keeps exactly the elements it was given. |
| Events.OverlappingMembers | js/ui/calendar.js:360-366 | The filter loop keeps exactly the cached events whose interval overlaps the window. |
| Events.EventsInWindowSpec | js/ui/calendar.js:359-374 | getEvents returns exactly the cached events overlapping the window, as a permutation of the filtered cache, ordered by the key: the end for an event that starts before the window and ends in it, else the start. |
| Events.EventsInWindowCount | js/ui/calendar.js:359-374 | Each cached event that overlaps the window is returned as often as it is cached; no other event is returned. |
| Events.OverlappingCount | js/ui/calendar.js:360-366 | The overlap filter keeps every overlapping event with its multiplicity and drops every other one. |
| Events.EventsInWindowOfNothing | js/ui/calendar.js:174-177 | An empty cache yields no events for any window. |
| Events.HasEventsOnSpec | js/ui/calendar.js:376-386 | A day has events exactly when some cached event overlaps the window from its first to its last millisecond. |
| Events.EventsOfAppointments | js/ui/calendar.js:315-323 | One event per appointment, in order, with start and end converted from seconds to milliseconds and summary and all-day flag taken over. |
| Events.ReceivedEventsSpec | js/ui/calendar.js:311-327 | A reply without result gives an empty cache. A reply with appointments gives one event per appointment, ordered by start, containing exactly the converted appointments. |
| Events.RequestRangeSpec | js/ui/calendar.js:348-357 | The last requested window changes nothing. Any other window sets loading, records the window as both last and current, keeps the cache, and issues exactly one fetch without forced reload, if and only if the proxy is initialised. |
| Events.RequestRangeTwice | js/ui/calendar.js:348-357 | A second request for the same window changes nothing, so two requests issue at most one fetch. |
| Events.NoFetchUninitialized | js/ui/calendar.js:334-337 | While the proxy is not initialised, neither requestRange, nor a Changed signal, nor _loadEvents issues a fetch. |
| Events.ResetCacheRefetches | js/ui/calendar.js:290-294 | Resetting empties the cache and forgets the last window; every other field, the current window included, is kept. Requesting the same window again then fetches it, marks the source loading and makes it the current window, with nothing else changed. The exception is [0, 0], which null is taken to equal: that request changes nothing. |
| Events.NameAppearedSpec | js/ui/calendar.js:296-300 | The source becomes initialised, drops cache and last window, keeps the rest, and fetches the current window (if any) with forced reload. |
| Events.NameVanishedSpec | js/ui/calendar.js:302-305 | Cache and last window are dropped, nothing is fetched, and `changed` is emitted. |
| Events.ChangedSpec | js/ui/calendar.js:307-309 | The server's Changed signal only re-fetches the current window, without forced reload, once initialised. |
| Events.EventsReceivedReplaces | js/ui/calendar.js:311-332 | A reply replaces the cache wholesale: after two replies getEvents sees only the second reply's events. Loading ends and `changed` is emitted each time. |
| Events.ProxyInitializedSpec | js/ui/calendar.js:237-276 | A failed initialisation changes nothing. A timed-out one leaves the source uninitialised. A successful one is initialised, emits notify::has-calendars, empties the cache, forgets the last window and fetches the current window (when there is one) with a forced reload; the current window, the loading flag and everything else are kept. |
| Events.EmptyEventSource.GetEvents | js/ui/calendar.js:174-177 | Returns no events, which is getEvents of an empty cache. |
| Events.EmptyEventSource.HasEvents | js/ui/calendar.js:179-181 | No day has events. |
| Events.DBusEventSource.constructor | js/ui/calendar.js:230-236 | Starts with an empty cache, no windows, not loading, uninitialised, nothing sent or emitted. |
| Events.DBusEventSource.HasCalendars | js/ui/calendar.js:283-288 | False until initialised, then the server's HasCalendars property. |
| Events.DBusEventSource.OnProxyInitialized | js/ui/calendar.js:237-276 | The new state is the proxy-initialised transition of the old one. |
| Events.DBusEventSource.OnNameOwnerChanged | js/ui/calendar.js:260-265 | The name appearing or vanishing, according to whether the name has an owner. |
| Events.DBusEventSource.OnPropertiesChanged | js/ui/calendar.js:267-269 | Emits notify::has-calendars and changes nothing else. |
| Events.DBusEventSource.ResetCache | js/ui/calendar.js:290-294 | The new state is the reset transition of the old one. |
| Events.DBusEventSource.OnNameAppeared | js/ui/calendar.js:296-300 | The new state is the name-appeared transition of the old one. |
| Events.DBusEventSource.OnNameVanished | js/ui/calendar.js:302-305 | The new state is the name-vanished transition of the old one. |
| Events.DBusEventSource.OnChanged | js/ui/calendar.js:307-309 | The new state is the Changed transition of the old one. |
| Events.DBusEventSource.OnEventsReceived | js/ui/calendar.js:311-332 | The conversion loop and sort leave the state of the events-received transition. |
| Events.DBusEventSource.LoadEvents | js/ui/calendar.js:334-346 | The new state is the load transition: one fetch of the current window when initialised and a window is set, else nothing. |
| Events.DBusEventSource.RequestRange | js/ui/calendar.js:348-357 | The new state is the request transition of the old one. |
| Events.DBusEventSource.GetEvents | js/ui/calendar.js:359-374 | The filter loop and sort return exactly the overlapping cached events, as a multiset the filtered ones, ordered by the window key. |
| Events.DBusEventSource.HasEvents | js/ui/calendar.js:376-386 | True exactly when some cached event overlaps the day. |
| Agenda.ClockFormatOf | js/ui/calendar.js:73-88 | "24h" selects the 24-hour clock, every other setting the 12-hour one. |
| Agenda.FormatEventTimeSpec | js/ui/calendar.js:63-91 | "All Day" exactly for a flagged event or one spanning the whole period. Otherwise the start is shown if it is in the period, else the end, on the chosen clock; for an overlapping event that instant lies in the period. |
| Agenda.EventDayAbbreviation | js/ui/calendar.js:117-140 | A weekday name of one or two letters. |
| Agenda.EventDayAbbreviationsDistinct | js/ui/calendar.js:117-140 | The list's weekday names tell every two weekdays apart. |
| Agenda.EventDisplaySpec | js/ui/calendar.js:734-792 | The leading ellipsis shows exactly for a timed event that begins before the period, the trailing one for one ending after it. With day names on, the day name is the weekday of the start when the event starts in the period, and of its end otherwise, all-day events included; for a clock time that is the weekday of the instant shown. It is empty when day names are off. The summary is kept. |
| Agenda.EventRowsAt | js/ui/calendar.js:804-807 | The i-th row of a period is the display of its i-th event. |
| Agenda.PeriodItemsSpec | js/ui/calendar.js:794-817 | A period adds nothing exactly when it is empty and no placeholder is wanted. Otherwise: its heading, one row per event in order, and for an empty period one all-day "Nothing Scheduled" row without day name or ellipses. |
| Agenda.PeriodItemsAppend | js/ui/calendar.js:797-814 | The rows of a shown period are its heading, then its event rows or the placeholder. |
| Agenda.AgendaItemsOfOne | js/ui/calendar.js:819-832 | The rows of a single period are appended after what the box holds. |
| Agenda.AgendaItemsOfThree | js/ui/calendar.js:834-865 | The rows of three periods, appended in order. |
| Agenda.WeekBucketEnd | js/ui/calendar.js:846-864 | The week period ends 2 to 8 days after today, on the last weekday of the week. It ends within 6 days exactly when today is one of the week's first five days. |
| Agenda.TodayPeriodsSpec | js/ui/calendar.js:834-865 | Today and Tomorrow, then This week up to the week's last day, or Next week up to the following week's last day when today is one of the last two days. The windows follow one another from the start of a day to the end of a day. Only the week period shows day names and is omitted when empty. |
| Agenda.OtherDayPeriodsSpec | js/ui/calendar.js:819-832 | One period covering exactly the instants of that day, headed with the year only when it differs from the current one, with a placeholder when empty. |
| Agenda.DayBounds | js/ui/calendar.js:45-61 | The instants from the first to the last millisecond of day n are exactly those of day number n. |
| Agenda.EventsList.constructor | js/ui/calendar.js:718-727 | The list starts on the current date, with the given week start and clock setting, and no rows. |
| Agenda.EventsList.SetClockFormat | js/ui/calendar.js:758 | Rows added later use the clock of the new setting. |
| Agenda.EventsList.SetEventSource | js/ui/calendar.js:729-732 | The list reads the new source. |
| Agenda.EventsList.AddEvent | js/ui/calendar.js:734-792 | Appends exactly one row, the display of the event in the period. |
| Agenda.EventsList.AddEventRows | js/ui/calendar.js:804-807 | Appends one row per event, in order. |
| Agenda.EventsList.AddPeriod | js/ui/calendar.js:794-817 | Appends the rows of the period for the source's events of its window, returns the index advanced by the number of rows added, and leaves the source's events alone. |
| Agenda.EventsList.ShowOtherDay | js/ui/calendar.js:819-832 | Appends the rows of the other-day period of that day. |
| Agenda.EventsList.ShowToday | js/ui/calendar.js:834-865 | Appends the rows of today's three periods. |
| Agenda.EventsList.AddTodayPeriods | js/ui/calendar.js:840-864 | The three _addPeriod calls, threading the index, append the rows of today's periods. |
| Agenda.EventsList.SetDate | js/ui/calendar.js:868-873 | The same calendar day changes nothing. Another day is selected, and the rows become those of its periods unless the source is loading. |
| Agenda.EventsList.Update | js/ui/calendar.js:875-903 | While the source is loading nothing changes. Otherwise the rows are exactly those of today's periods when the date is today, else those of the date's day. |
| CalendarGrid.SetMonthSpec | js/ui/calendar.js:529-535 | setMonth keeps year, day and time of day when the day exists in the target month; otherwise the day overflows into the month after. |
| CalendarGrid.SetFullYearSpec | js/ui/calendar.js:522-523 | setFullYear keeps month, day and time of day when the day exists in that month of the new year. |
| CalendarGrid.DaysInMonthVia32 | js/ui/calendar.js:532-533 | 32 minus the day of month of the 32nd of month m is the length of month m. |
| CalendarGrid.NewDateSpec | js/ui/calendar.js:533 | new Date(y, m, d) of a valid date is that date at midnight. |
| CalendarGrid.PrevMonthFromJanuary | js/ui/calendar.js:521-528 | From January the handler selects the same day and time in December of the year before. |
| CalendarGrid.PrevMonthKeepsDay | js/ui/calendar.js:529-535 | Within the year, a day that exists in the month before is kept with its time. |
| CalendarGrid.PrevMonthClamps | js/ui/calendar.js:529-535 | Within the year, a day past the end of the month before becomes that month's last day, at midnight. |
| CalendarGrid.PrevMonthSpec | js/ui/calendar.js:518-540 | The previous month, with year rollover from January, on the day min(d, days in the target month); the time of day is kept unless the day was clamped. |
| CalendarGrid.NextMonthFromDecember | js/ui/calendar.js:545-552 | From December the handler selects the same day and time in January of the year after. |
| CalendarGrid.NextMonthKeepsDay | js/ui/calendar.js:553-559 | Within the year, a day that exists in the month after is kept with its time. |
| CalendarGrid.NextMonthClamps | js/ui/calendar.js:553-559 | Within the year, a day past the end of the month after becomes that month's last day, at midnight. |
| CalendarGrid.NextMonthSpec | js/ui/calendar.js:542-564 | The next month, with year rollover from December, on the day min(d, days in the target month); the time of day is kept unless the day was clamped. |
| CalendarGrid.MonthNavigationMovesMonth | js/ui/calendar.js:518-564 | Either button always reaches another month, so setDate never ignores it as the same day. |
| CalendarGrid.PrevThenNextMonth | js/ui/calendar.js:518-564 | Back then forward returns to the same month, with the day clamped to the length of the previous month. |
| CalendarGrid.CalendarDayAbbreviation | js/ui/calendar.js:93-115 | A one-letter weekday name. |
| CalendarGrid.MonthAnchorBySetters | js/ui/calendar.js:600-603 | setDate(1), setSeconds(0), setHours(12) give the anchor: the 1st of the month at 12:MM:00. |
| CalendarGrid.MonthAnchorSpec | js/ui/calendar.js:600-605 | The anchor is the 1st of the selected month at noon, in the selected month. |
| CalendarGrid.GridBeginSpec | js/ui/calendar.js:610-614 | The grid begins on the week start, daysToWeekStart days before the 1st, or 7 days before when the month starts on the week start. So 1 to 7 days precede the 1st, and the time of day is kept. |
| CalendarGrid.GridCoversMonth | js/ui/calendar.js:583-614 | Every day of the selected month is among the 42 days of its grid (at index 1 or later, below 42). |
| CalendarGrid.GridIndexOfSameMonth | js/ui/calendar.js:610-614 | A day of the anchor's month lies at index 1..37 of the grid. |
| CalendarGrid.AnchorSameMonth | js/ui/calendar.js:698 | A date is in the month of its anchor, so a fresh grid passes the rebuild test. |
| CalendarGrid.AnchorGridIndex | js/ui/calendar.js:698-709 | A day in the month of a kept anchor lies at index 1..37 of that anchor's grid. |
| CalendarGrid.RowStep | js/ui/calendar.js:679-682 | Moving to the next day starts a new row exactly when the week start comes round, i.e. every seventh day. |
| CalendarGrid.ButtonLayout | js/ui/calendar.js:645-668 | A day k days after the week start has column offset + k (6 - k in RTL), is left-most exactly at k = 0 (k = 6 in RTL), and is top exactly in row 2. |
| CalendarGrid.ButtonFlags | js/ui/calendar.js:636-659 | A button is today on the current day, other-month only when not today, a work day from Monday to Friday, has events exactly when an event overlaps its day, reactive unless the source is the dummy one, and not active. |
| CalendarGrid.ColumnOfInjective | js/ui/calendar.js:663-668 | Different weekdays get different columns. |
| CalendarGrid.CellDay | js/ui/calendar.js:617-683 | Cell i is dated i days after the grid start, at the same time of day, in row 2 + i / 7. |
| CalendarGrid.CellLayout | js/ui/calendar.js:645-668 | Column, left-most flag and top flag of cell i of a grid starting on the week start. |
| CalendarGrid.CellFlags | js/ui/calendar.js:636-659 | The style flags of cell i, in terms of its date. |
| CalendarGrid.GridCellsDays | js/ui/calendar.js:617-683 | The grid shows 42 consecutive days from its first day. |
| CalendarGrid.GridCellsLayout | js/ui/calendar.js:617-683 | Six rows (2..7) of seven consecutive days, with LTR column offset + i mod 7 or its RTL mirror, left-most and top styles on the first column and first row. |
| CalendarGrid.GridCellsFlags | js/ui/calendar.js:636-661 | The flags of every one of the 42 cells. |
| CalendarGrid.WeekLabelsSpec | js/ui/calendar.js:673-677 | Week-number labels appear only when week numbers are on. Each is on a Thursday of the grid, in that day's row and the outer column. With week numbers on, every Thursday of the grid has its label. |
| CalendarGrid.HeaderLabels | js/ui/calendar.js:482-498 | Exactly seven header labels. |
| CalendarGrid.HeaderLabelsSpec | js/ui/calendar.js:485-498 | The i-th label shows the letter of the weekday i days after the start, in that weekday's column, and the seven labels take seven different columns. |
| CalendarGrid.ColumnsDistinct | js/ui/calendar.js:491-495 | Two different days of one week get different header columns. |
| CalendarGrid.HeaderRow | js/ui/calendar.js:482-498 | The label loop produces the header labels of the seven days from the start. |
| CalendarGrid.Calendar.constructor | js/ui/calendar.js:393-428 | Starts on the current date with no grid, no signal sent, and the header built. |
| CalendarGrid.Calendar.BuildHeader | js/ui/calendar.js:452-502 | The header labels of the week starting at the selected date, at noon. |
| CalendarGrid.Calendar.SetEventSource | js/ui/calendar.js:432-440 | Adopts the source. The whole grid state is then the selected month's fresh grid built from the new source's cache, with exactly the selected day active. The new source receives one request for the grid's days. |
| CalendarGrid.Calendar.RebuildAndUpdate | js/ui/calendar.js:434-439 | The grid state is the fresh grid of the selected month built at `now`: its anchor, today mark, week labels and month-label year choice. The buttons are its cells with exactly the selected day active. The source receives exactly one request, for the grid's days; the _update that follows does not rebuild again. |
| CalendarGrid.Calendar.OnSettingsChange | js/ui/calendar.js:566-571 | Adopts the show-weekdate value and rebuilds the header with the new column offset. The grid state becomes the fresh grid of the selected month under the new value, with exactly the selected day active, and the source receives one request for its days. |
| CalendarGrid.Calendar.SetDate | js/ui/calendar.js:443-450 | The same calendar day changes nothing: not the selection, the grid state or the source, and nothing is emitted. Another day is selected, the grid state becomes what _update makes of the old one for that day, the source gets _update's request if any, and selected-date-changed is emitted with the day, after which exactly that day's button is active. |
| CalendarGrid.Calendar.OnPrevMonthButtonClicked | js/ui/calendar.js:518-540 | Selects the handler's previous-month date, always emits selected-date-changed, and leaves the grid state _update makes for that date, with exactly its button active. |
| CalendarGrid.Calendar.OnNextMonthButtonClicked | js/ui/calendar.js:542-564 | Selects the handler's next-month date, always emits selected-date-changed, and leaves the grid state _update makes for that date, with exactly its button active. |
| CalendarGrid.Calendar.RebuildCalendar | js/ui/calendar.js:573-688 | The anchor and today mark are recorded. The buttons and week labels are those of the selected month's grid, and the month label is untouched. The source receives one request for [grid start, grid start + 42 days). |
| CalendarGrid.Calendar.Update | js/ui/calendar.js:690-710 | The new grid state is the pure _update of the old one. The source is sent a request exactly when the grid is rebuilt. Afterwards the grid is of the selected month and exactly its selected day is active. |
| CalendarGrid.Calendar.RebuildIfStale | js/ui/calendar.js:698-699 | Rebuilds exactly when there is no grid, the grid is of another month, or its today mark is another day; otherwise the grid state and the source are unchanged. |
| CalendarGrid.Calendar.MarkSelectedDay | js/ui/calendar.js:701-709 | Marks each button active exactly when it shows the selected day. On a grid of that day's month, exactly one button is active, the one showing that day. |
| CalendarGrid.RebuildGrid | js/ui/calendar.js:600-687 | The anchor, buttons and week labels of the selected month's grid, and one request for exactly the days shown. |
| CalendarGrid.GridStart | js/ui/calendar.js:600-614 | The anchor of the selected month and the grid's first day, which lies on the week start. |
| CalendarGrid.BuildGrid | js/ui/calendar.js:617-683 | The while (row < 8) loop produces the 42 grid buttons and the week labels, and ends one day past the last cell. |
| CalendarGrid.NewDayButton | js/ui/calendar.js:622-668 | The button built in the loop is the grid's cell k. |
| CalendarGrid.DayStep | js/ui/calendar.js:679-682 | After the step, the weekday advances by one and the row advances exactly when the week start is reached. |
| CalendarGrid.MarkSelected | js/ui/calendar.js:701-709 | Each button becomes active exactly when it shows the selected day; nothing else about the buttons changes. |
| CalendarGrid.RebuiltGridIsCurrent | js/ui/calendar.js:434-439 | A grid just rebuilt for the selected date at `now` passes _update's test, so the _update after _rebuildCalendar only marks. The result does not depend on the earlier grid. |
| CalendarGrid.UpdateSettles | js/ui/calendar.js:690-710 | A second _update at the same moment over the same cache changes nothing and sends no request. |
| CalendarGrid.MarkAllIdempotent | js/ui/calendar.js:701-709 | Marking the buttons twice for one day is marking them once. |
| CalendarGrid.UpdatedViewSteps | js/ui/calendar.js:690-710 | _update's three steps in source order compose to the pure _update. Setting the month label first does not affect the rebuild test. |
| CalendarGrid.MarkedGridSelectsOne | js/ui/calendar.js:698-709 | Marking a grid of the selected day's month keeps its days and activates exactly one button. |
| CalendarGrid.ActiveButtonUnique | js/ui/calendar.js:701-709 | In 42 consecutive days that contain the selected day, exactly one button shows it. |

## Left out

- Time zones and daylight saving: instants are local wall-clock milliseconds, so the noon normalisation (js/ui/calendar.js:602-603) and the fixed 86400000 ms steps are plain arithmetic here.
- The current time: `new Date()` is one `now` parameter, even where the source reads the clock twice (for example `_rebuildCalendar` and then `_update`).
- Settings and locale: the week start, the show-weekdate setting and the clock-format setting are parameters. The `changed` connections of the two Gio.Settings objects are not modelled; `EventsList.SetClockFormat` stands for a new clock-format value.
- Agenda.EventsList.AddEvent: the clock-format setting is read from the stored field, not re-read from the settings on each call, and the unused `index` parameter is dropped.
- Text: gettext strings, `toLocaleFormat` (month label and headings, `%H∶%M` and `%l∶%M %p` times, `%V` week numbers) and the GTK `calendar:MY` header-format choice. Times and headings are kept as values (`ClockTime`, `DayHeading`), and `monthLabelWithYear` records only which header format is chosen.
- Widgets: St/Clutter construction, style strings (kept as flags), focus grabbing, `_shouldDateGrabFocus`, scroll events (`_onScroll`), `destroy` and `destroy_all_children`.
- Signal connections: the `changed` handler, which `Calendar.setEventSource` and `EventsList.setEventSource` connect to the source, is not wired up. `CalendarGrid.Calendar.RebuildAndUpdate` and `Agenda.EventsList.Update` are the bodies it would run.
- Agenda.EventsList.constructor and CalendarGrid.Calendar.constructor: the event source is taken at construction, so fields are never unset. `setEventSource` is modelled separately.
- The D-Bus transport: `CalendarServer`, `init_async`, `connectSignal`, `GetEventsRemote` and `run_dispose`. `Fetch` records the window in milliseconds, whereas the call divides it by 1000. The server's HasCalendars property is a parameter of `HasCalendars`.
- Appointment tuples: the uid, the description and the trailing extras dictionary are carried or dropped unused.
- Sorting.SortByKeySpec: states ordering and permutation only, not the order of events with equal keys, which the engine's sort does not fix.
- The failed-initialisation path of the D-Bus source (js/ui/calendar.js:252-255) logs and returns before the signals are connected. In the model that outcome leaves the state as it was, and the name, property and event handlers still accept calls afterwards.
- ECMAScript TimeClip: instants beyond ±8.64e15 ms and NaN dates do not occur, because instants are unbounded integers.
- Dates.NewDate: `new Date(y, m, d)` maps a year y from 0 to 99 to 1900 + y. The model's `NewDate` keeps y as given. The clamped month-navigation branches (js/ui/calendar.js:531-534, 555-558) call it, so for those years they land in year y here, not in 1900 + y.
- Dates.YearStart: computed by recursion on the year, where ECMAScript gives a closed form (DayFromYear). The two agree on every year.
