/**
  Calendar events and the two event sources of the shell calendar: the empty
  source and the source backed by the calendar server on the session bus.

  The bus itself is not modelled. The remote source records each GetEvents call it
  issues in an outbox (`Fetch`), and each reply arrives as a call of
  OnEventsReceived with the appointments of that reply, or with None when the
  reply carried no result. Signals the source emits are appended to `emitted`.
*/
module Events {
  import opened Optional
  import opened Dates
  import opened Sorting

  /** An appointment (date/start, end, summary, all-day flag), instants in local milliseconds. */
  datatype CalendarEvent = CalendarEvent(date: int, end: int, summary: string, allDay: bool)

  /**
    One element of the server's reply, in the order of its D-Bus struct: uid, summary,
    description, all-day flag, start and end in seconds (the trailing extras dictionary is not modelled).
  */
  datatype Appointment = Appointment(uid: string, summary: string, description: string,
                                     allDay: bool, startSecs: int, endSecs: int)

  /** A GetEvents call issued to the calendar server, window bounds in milliseconds. */
  datatype Fetch = Fetch(begin: int, end: int, forceReload: bool)

  /** Signals an event source emits. */
  datatype SourceSignal = Changed | NotifyHasCalendars

  /** How the asynchronous proxy initialisation ended. */
  datatype InitOutcome = InitOk | InitTimedOut | InitFailed(message: string)

  // ---------------------------------------------------------------------------
  // Queries over a snapshot of events
  // ---------------------------------------------------------------------------

  /** The events of `events` whose interval [date, end) overlaps [begin, end), in cache order. */
  function Overlapping(events: seq<CalendarEvent>, begin: int, end: int): (r: seq<CalendarEvent>)
    ensures |r| <= |events|
  {
    if events == [] then []
    else
      var last := events[|events| - 1];
      Overlapping(events[..|events| - 1], begin, end)
        + (if DateIntervalsOverlap(last.date, last.end, begin, end) then [last] else [])
  }

  /** The filter keeps exactly the events whose interval overlaps the window. */
  lemma {:induction false} OverlappingMembers(events: seq<CalendarEvent>, begin: int, end: int, e: CalendarEvent)
    ensures e in Overlapping(events, begin, end) <==> e in events && DateIntervalsOverlap(e.date, e.end, begin, end)
    decreases |events|
  {
    if events != [] {
      var init := events[..|events| - 1];
      assert events == init + [events[|events| - 1]];
      OverlappingMembers(init, begin, end, e);
    }
  }

  /** The filter keeps each overlapping event as often as it occurs, and no other event. */
  lemma {:induction false} OverlappingCount(events: seq<CalendarEvent>, begin: int, end: int, e: CalendarEvent)
    ensures multiset(Overlapping(events, begin, end))[e]
         == if DateIntervalsOverlap(e.date, e.end, begin, end) then multiset(events)[e] else 0
    decreases |events|
  {
    if events != [] {
      var init := events[..|events| - 1];
      assert events == init + [events[|events| - 1]];
      OverlappingCount(init, begin, end, e);
    }
  }

  /**
    The presentation key of getEvents: an event that began before the window and ends
    inside it is placed by its end, every other event by its start.
  */
  function WindowKey(begin: int, end: int): CalendarEvent -> int {
    (e: CalendarEvent) => if e.date < begin && e.end <= end then e.end else e.date
  }

  /** getEvents(begin, end) on the snapshot `events`. */
  function EventsInWindow(events: seq<CalendarEvent>, begin: int, end: int): seq<CalendarEvent> {
    SortByKey(Overlapping(events, begin, end), WindowKey(begin, end))
  }

  /**
    getEvents returns exactly the cached events that overlap the window, each as
    often as it is cached, ordered by the window key.
  */
  lemma EventsInWindowSpec(events: seq<CalendarEvent>, begin: int, end: int)
    ensures forall e :: e in EventsInWindow(events, begin, end) <==>
              e in events && DateIntervalsOverlap(e.date, e.end, begin, end)
    ensures multiset(EventsInWindow(events, begin, end)) == multiset(Overlapping(events, begin, end))
    ensures SortedByKey(EventsInWindow(events, begin, end), WindowKey(begin, end))
  {
    var o := Overlapping(events, begin, end);
    SortByKeySpec(o, WindowKey(begin, end));
    forall e ensures e in EventsInWindow(events, begin, end) <==> e in events && DateIntervalsOverlap(e.date, e.end, begin, end) {
      SortByKeyMembers(o, WindowKey(begin, end), e);
      OverlappingMembers(events, begin, end, e);
    }
  }

  /**
    getEvents returns each cached event that overlaps the window exactly as often as
    it is cached, and no other event.
  */
  lemma EventsInWindowCount(events: seq<CalendarEvent>, begin: int, end: int, e: CalendarEvent)
    ensures multiset(EventsInWindow(events, begin, end))[e]
         == if DateIntervalsOverlap(e.date, e.end, begin, end) then multiset(events)[e] else 0
  {
    SortByKeySpec(Overlapping(events, begin, end), WindowKey(begin, end));
    OverlappingCount(events, begin, end, e);
  }

  lemma EventsInWindowOfNothing(begin: int, end: int)
    ensures EventsInWindow([], begin, end) == []
  {
  }

  /** hasEvents(day) on the snapshot `events`. */
  function HasEventsOn(events: seq<CalendarEvent>, day: int): bool {
    |EventsInWindow(events, BeginningOfDay(day), EndOfDay(day))| > 0
  }

  /** A day has events exactly when some cached event overlaps that day's window. */
  lemma HasEventsOnSpec(events: seq<CalendarEvent>, day: int)
    ensures HasEventsOn(events, day) <==>
      exists e :: e in events && DateIntervalsOverlap(e.date, e.end,
                                   DayNumber(day) * MSECS_IN_DAY, DayNumber(day) * MSECS_IN_DAY + MSECS_IN_DAY - 1)
  {
    var r := EventsInWindow(events, BeginningOfDay(day), EndOfDay(day));
    EventsInWindowSpec(events, BeginningOfDay(day), EndOfDay(day));
    if |r| > 0 {
      assert r[0] in r;
    }
  }

  // ---------------------------------------------------------------------------
  // Parsing a reply of the calendar server
  // ---------------------------------------------------------------------------

  /** The event built from one appointment: start and end seconds become milliseconds. */
  function EventOfAppointment(a: Appointment): CalendarEvent {
    CalendarEvent(a.startSecs * 1000, a.endSecs * 1000, a.summary, a.allDay)
  }

  function EventsOfAppointments(appointments: seq<Appointment>): (r: seq<CalendarEvent>)
    ensures |r| == |appointments|
    ensures forall i :: 0 <= i < |appointments| ==> r[i] == EventOfAppointment(appointments[i])
  {
    if appointments == [] then []
    else
      EventsOfAppointments(appointments[..|appointments| - 1])
        + [EventOfAppointment(appointments[|appointments| - 1])]
  }

  function EventStart(e: CalendarEvent): int {
    e.date
  }

  /** The new cache after a reply: its appointments as events sorted by start, or nothing. */
  function ReceivedEvents(results: Option<seq<Appointment>>): seq<CalendarEvent> {
    if results.None? then [] else SortByKey(EventsOfAppointments(results.value), EventStart)
  }

  /**
    A reply replaces the cache by one event per appointment, converted from seconds,
    in ascending order of start; a reply without result leaves the cache empty.
  */
  lemma ReceivedEventsSpec(results: Option<seq<Appointment>>)
    ensures results.None? ==> ReceivedEvents(results) == []
    ensures results.Some? ==>
      && |ReceivedEvents(results)| == |results.value|
      && multiset(ReceivedEvents(results)) == multiset(EventsOfAppointments(results.value))
      && SortedByKey(ReceivedEvents(results), EventStart)
      && forall e :: e in ReceivedEvents(results) <==>
           exists i :: 0 <= i < |results.value| && e == EventOfAppointment(results.value[i])
  {
    if results.Some? {
      var evs := EventsOfAppointments(results.value);
      SortByKeySpec(evs, EventStart);
      forall e ensures e in ReceivedEvents(results) <==> e in evs {
        SortByKeyMembers(evs, EventStart, e);
      }
      forall e | e in evs ensures exists i :: 0 <= i < |results.value| && e == EventOfAppointment(results.value[i]) {
        var i :| 0 <= i < |evs| && evs[i] == e;
        assert e == EventOfAppointment(results.value[i]);
      }
    }
  }

  // ---------------------------------------------------------------------------
  // The state machine of the remote source, as pure transitions
  // ---------------------------------------------------------------------------

  /** Everything a DBusEventSource holds, as one value. */
  datatype SourceState = SourceState(
    events: seq<CalendarEvent>,
    lastRequestBegin: Option<int>, lastRequestEnd: Option<int>,
    curRequestBegin: Option<int>, curRequestEnd: Option<int>,
    isLoading: bool, initialized: bool,
    outbox: seq<Fetch>, emitted: seq<SourceSignal>)

  function InitialState(): SourceState {
    SourceState([], None, None, None, None, false, false, [], [])
  }

  /** _resetCache: forget the cached events and the last requested window. */
  function ResetCacheNext(s: SourceState): SourceState {
    s.(events := [], lastRequestBegin := None, lastRequestEnd := None)
  }

  /** The fetch _loadEvents issues: the current window, once the proxy is initialised. */
  function LoadEventsNext(s: SourceState, forceReload: bool): SourceState {
    if !s.initialized then s
    else if s.curRequestBegin.Some? && s.curRequestEnd.Some? then
      s.(outbox := s.outbox + [Fetch(s.curRequestBegin.value, s.curRequestEnd.value, forceReload)])
    else s
  }

  function RequestRangeNext(s: SourceState, begin: int, end: int): SourceState {
    if DatesEqual(begin, s.lastRequestBegin) && DatesEqual(end, s.lastRequestEnd) then s
    else
      LoadEventsNext(s.(isLoading := true,
                        lastRequestBegin := Some(begin), lastRequestEnd := Some(end),
                        curRequestBegin := Some(begin), curRequestEnd := Some(end)), false)
  }

  function NameAppearedNext(s: SourceState): SourceState {
    LoadEventsNext(ResetCacheNext(s.(initialized := true)), true)
  }

  function NameVanishedNext(s: SourceState): SourceState {
    ResetCacheNext(s).(emitted := s.emitted + [Changed])
  }

  function ChangedNext(s: SourceState): SourceState {
    LoadEventsNext(s, false)
  }

  function EventsReceivedNext(s: SourceState, results: Option<seq<Appointment>>): SourceState {
    s.(events := ReceivedEvents(results), isLoading := false, emitted := s.emitted + [Changed])
  }

  function ProxyInitializedNext(s: SourceState, outcome: InitOutcome): SourceState {
    match outcome
    case InitFailed(_) => s
    case InitTimedOut => s.(initialized := false)
    case InitOk => NameAppearedNext(s.(initialized := true, emitted := s.emitted + [NotifyHasCalendars]))
  }

  function NameOwnerChangedNext(s: SourceState, hasOwner: bool): SourceState {
    if hasOwner then NameAppearedNext(s) else NameVanishedNext(s)
  }

  /**
    requestRange is a no-op for the last requested window. For any other window it
    marks the source loading, records the window as both the last and the current
    one, keeps the cache, and issues exactly one fetch, without forced reload, if and
    only if the proxy is initialised.
  */
  lemma RequestRangeSpec(s: SourceState, begin: int, end: int)
    ensures s.lastRequestBegin == Some(begin) && s.lastRequestEnd == Some(end) ==>
              RequestRangeNext(s, begin, end) == s
    ensures !(DatesEqual(begin, s.lastRequestBegin) && DatesEqual(end, s.lastRequestEnd)) ==>
      var t := RequestRangeNext(s, begin, end);
      && t.isLoading
      && t.lastRequestBegin == Some(begin) && t.lastRequestEnd == Some(end)
      && t.curRequestBegin == Some(begin) && t.curRequestEnd == Some(end)
      && t.events == s.events && t.initialized == s.initialized && t.emitted == s.emitted
      && t.outbox == s.outbox + (if s.initialized then [Fetch(begin, end, false)] else [])
  {
  }

  /** Requesting the same window twice issues at most one fetch, and the second request changes nothing. */
  lemma RequestRangeTwice(s: SourceState, begin: int, end: int)
    ensures RequestRangeNext(RequestRangeNext(s, begin, end), begin, end) == RequestRangeNext(s, begin, end)
    ensures |RequestRangeNext(RequestRangeNext(s, begin, end), begin, end).outbox| <= |s.outbox| + 1
  {
    var t := RequestRangeNext(s, begin, end);
    if !(DatesEqual(begin, s.lastRequestBegin) && DatesEqual(end, s.lastRequestEnd)) {
      assert t.lastRequestBegin == Some(begin) && t.lastRequestEnd == Some(end);
    }
  }

  /** Nothing is fetched while the proxy is not initialised. */
  lemma NoFetchUninitialized(s: SourceState, begin: int, end: int, forceReload: bool)
    requires !s.initialized
    ensures RequestRangeNext(s, begin, end).outbox == s.outbox
    ensures ChangedNext(s).outbox == s.outbox
    ensures LoadEventsNext(s, forceReload).outbox == s.outbox
  {
  }

  /**
    After the cache is reset, requesting the window that was last requested fetches it
    again. (The reset window is null, and null compares as instant 0, so the one
    window that is not fetched again is [0, 0].)
  */
  lemma ResetCacheRefetches(s: SourceState, begin: int, end: int)
    requires s.initialized
    requires s.lastRequestBegin == Some(begin) && s.lastRequestEnd == Some(end)
    ensures ResetCacheNext(s).events == []
    ensures ResetCacheNext(s).lastRequestBegin == None && ResetCacheNext(s).lastRequestEnd == None
    ensures ResetCacheNext(s).(events := s.events, lastRequestBegin := s.lastRequestBegin,
                               lastRequestEnd := s.lastRequestEnd) == s
    ensures begin != 0 || end != 0 ==>
      RequestRangeNext(ResetCacheNext(s), begin, end).outbox == s.outbox + [Fetch(begin, end, false)]
    ensures begin != 0 || end != 0 ==>
      RequestRangeNext(ResetCacheNext(s), begin, end)
        == s.(events := [], isLoading := true, curRequestBegin := Some(begin), curRequestEnd := Some(end),
              outbox := s.outbox + [Fetch(begin, end, false)])
    ensures begin == 0 && end == 0 ==>
      RequestRangeNext(ResetCacheNext(s), begin, end) == ResetCacheNext(s)
  {
  }

  /**
    When the server appears the source becomes initialised, drops its cache and last
    window, and fetches the current window (if one was ever requested) with forced reload.
  */
  lemma NameAppearedSpec(s: SourceState)
    ensures var t := NameAppearedNext(s);
      && t.initialized && t.events == []
      && t.lastRequestBegin == None && t.lastRequestEnd == None
      && t.curRequestBegin == s.curRequestBegin && t.curRequestEnd == s.curRequestEnd
      && t.isLoading == s.isLoading && t.emitted == s.emitted
      && t.outbox == s.outbox + (if s.curRequestBegin.Some? && s.curRequestEnd.Some?
                                 then [Fetch(s.curRequestBegin.value, s.curRequestEnd.value, true)] else [])
  {
  }

  /** When the server vanishes the cache and last window are dropped and `changed` is emitted. */
  lemma NameVanishedSpec(s: SourceState)
    ensures var t := NameVanishedNext(s);
      && t.events == [] && t.lastRequestBegin == None && t.lastRequestEnd == None
      && t.curRequestBegin == s.curRequestBegin && t.curRequestEnd == s.curRequestEnd
      && t.isLoading == s.isLoading && t.initialized == s.initialized
      && t.outbox == s.outbox && t.emitted == s.emitted + [Changed]
  {
  }

  /** A `Changed` signal from the server re-fetches the current window without forced reload. */
  lemma ChangedSpec(s: SourceState)
    ensures var t := ChangedNext(s);
      && t.(outbox := s.outbox) == s
      && t.outbox == s.outbox + (if s.initialized && s.curRequestBegin.Some? && s.curRequestEnd.Some?
                                 then [Fetch(s.curRequestBegin.value, s.curRequestEnd.value, false)] else [])
  {
  }

  /**
    A reply replaces the cache wholesale: after two replies, getEvents sees only the
    events of the second, whatever the first held. Loading ends and `changed` is emitted each time.
  */
  lemma EventsReceivedReplaces(s: SourceState, first: Option<seq<Appointment>>,
                               second: seq<Appointment>, begin: int, end: int)
    ensures var t := EventsReceivedNext(EventsReceivedNext(s, first), Some(second));
      && !t.isLoading
      && t.emitted == s.emitted + [Changed, Changed]
      && forall e :: e in EventsInWindow(t.events, begin, end) <==>
           (exists i :: 0 <= i < |second| && e == EventOfAppointment(second[i]))
           && DateIntervalsOverlap(e.date, e.end, begin, end)
  {
    var t := EventsReceivedNext(EventsReceivedNext(s, first), Some(second));
    ReceivedEventsSpec(Some(second));
    EventsInWindowSpec(t.events, begin, end);
  }

  /** A failed initialisation changes nothing; a timed-out one leaves the source uninitialised. */
  lemma ProxyInitializedSpec(s: SourceState, outcome: InitOutcome)
    ensures outcome.InitFailed? ==> ProxyInitializedNext(s, outcome) == s
    ensures outcome.InitTimedOut? ==> ProxyInitializedNext(s, outcome) == s.(initialized := false)
    ensures outcome.InitOk? ==>
      var t := ProxyInitializedNext(s, outcome);
      && t.initialized && t.events == []
      && t.emitted == s.emitted + [NotifyHasCalendars]
      && t.outbox == s.outbox + (if s.curRequestBegin.Some? && s.curRequestEnd.Some?
                                 then [Fetch(s.curRequestBegin.value, s.curRequestEnd.value, true)] else [])
    ensures outcome.InitOk? ==>
      ProxyInitializedNext(s, outcome)
        == s.(initialized := true, events := [], lastRequestBegin := None, lastRequestEnd := None,
              emitted := s.emitted + [NotifyHasCalendars],
              outbox := s.outbox + (if s.curRequestBegin.Some? && s.curRequestEnd.Some?
                                    then [Fetch(s.curRequestBegin.value, s.curRequestEnd.value, true)] else []))
  {
  }

  // ---------------------------------------------------------------------------
  // The two event sources
  // ---------------------------------------------------------------------------

  /** The event source with no events: never loading, no calendars, nothing to request. */
  class EmptyEventSource {
    const isLoading: bool := false
    const isDummy: bool := true
    const hasCalendars: bool := false

    constructor ()
    {
    }

    method RequestRange(begin: int, end: int)
    {
    }

    method GetEvents(begin: int, end: int) returns (result: seq<CalendarEvent>)
      ensures result == []
      ensures result == EventsInWindow([], begin, end)
    {
      result := [];
    }

    method HasEvents(day: int) returns (b: bool)
      ensures !b
      ensures b == HasEventsOn([], day)
    {
      b := false;
    }
  }

  /** The event source backed by the calendar server. */
  class DBusEventSource {
    var events: seq<CalendarEvent>
    var lastRequestBegin: Option<int>
    var lastRequestEnd: Option<int>
    var curRequestBegin: Option<int>
    var curRequestEnd: Option<int>
    var isLoading: bool
    var initialized: bool
    const isDummy: bool := false
    /** GetEvents calls issued to the server, oldest first. */
    var outbox: seq<Fetch>
    /** Signals emitted, oldest first. */
    var emitted: seq<SourceSignal>

    function State(): SourceState
      reads this
    {
      SourceState(events, lastRequestBegin, lastRequestEnd, curRequestBegin, curRequestEnd,
                  isLoading, initialized, outbox, emitted)
    }

    /** _init, up to the asynchronous proxy initialisation (completed by OnProxyInitialized). */
    constructor ()
      ensures State() == InitialState()
    {
      events := [];
      lastRequestBegin := None;
      lastRequestEnd := None;
      curRequestBegin := None;
      curRequestEnd := None;
      isLoading := false;
      initialized := false;
      outbox := [];
      emitted := [];
    }

    /** The hasCalendars getter; `proxyHasCalendars` is the server's HasCalendars property. */
    function HasCalendars(proxyHasCalendars: bool): (r: bool)
      reads this
      ensures !initialized ==> !r
      ensures initialized ==> r == proxyHasCalendars
    {
      if initialized then proxyHasCalendars else false
    }

    /** Completion of init_async: `outcome` says whether it succeeded, timed out or failed. */
    method OnProxyInitialized(outcome: InitOutcome)
      modifies this
      ensures State() == ProxyInitializedNext(old(State()), outcome)
    {
      if outcome.InitFailed? {
        return;
      }
      var loaded := outcome.InitOk?;
      initialized := loaded;
      if loaded {
        emitted := emitted + [NotifyHasCalendars];
        OnNameAppeared();
      }
    }

    /** The notify::g-name-owner handler. */
    method OnNameOwnerChanged(hasOwner: bool)
      modifies this
      ensures State() == NameOwnerChangedNext(old(State()), hasOwner)
    {
      if hasOwner {
        OnNameAppeared();
      } else {
        OnNameVanished();
      }
    }

    /** The g-properties-changed handler. */
    method OnPropertiesChanged()
      modifies this
      ensures State() == old(State()).(emitted := old(emitted) + [NotifyHasCalendars])
    {
      emitted := emitted + [NotifyHasCalendars];
    }

    method ResetCache()
      modifies this
      ensures State() == ResetCacheNext(old(State()))
    {
      events := [];
      lastRequestBegin := None;
      lastRequestEnd := None;
    }

    method OnNameAppeared()
      modifies this
      ensures State() == NameAppearedNext(old(State()))
    {
      initialized := true;
      ResetCache();
      LoadEvents(true);
    }

    method OnNameVanished()
      modifies this
      ensures State() == NameVanishedNext(old(State()))
    {
      ResetCache();
      emitted := emitted + [Changed];
    }

    method OnChanged()
      modifies this
      ensures State() == ChangedNext(old(State()))
    {
      LoadEvents(false);
    }

    /** The GetEventsRemote reply handler; `results` is None when the reply carried no result. */
    method OnEventsReceived(results: Option<seq<Appointment>>)
      modifies this
      ensures State() == EventsReceivedNext(old(State()), results)
    {
      var newEvents: seq<CalendarEvent> := [];
      if results.Some? {
        var appointments := results.value;
        var n := 0;
        while n < |appointments|
          invariant 0 <= n <= |appointments|
          invariant newEvents == EventsOfAppointments(appointments[..n])
        {
          var a := appointments[n];
          newEvents := newEvents + [EventOfAppointment(a)];
          assert appointments[..n + 1][..n] == appointments[..n];
          n := n + 1;
        }
        assert appointments[..n] == appointments;
        newEvents := SortByKey(newEvents, EventStart);
      }
      events := newEvents;
      isLoading := false;
      emitted := emitted + [Changed];
    }

    method LoadEvents(forceReload: bool)
      modifies this
      ensures State() == LoadEventsNext(old(State()), forceReload)
    {
      if !initialized {
        return;
      }
      if curRequestBegin.Some? && curRequestEnd.Some? {
        outbox := outbox + [Fetch(curRequestBegin.value, curRequestEnd.value, forceReload)];
      }
    }

    method RequestRange(begin: int, end: int)
      modifies this
      ensures State() == RequestRangeNext(old(State()), begin, end)
    {
      if !(DatesEqual(begin, lastRequestBegin) && DatesEqual(end, lastRequestEnd)) {
        isLoading := true;
        lastRequestBegin := Some(begin);
        lastRequestEnd := Some(end);
        curRequestBegin := Some(begin);
        curRequestEnd := Some(end);
        LoadEvents(false);
      }
    }

    /**
      getEvents: the cached events overlapping the window, ordered by the window key.
    */
    method GetEvents(begin: int, end: int) returns (result: seq<CalendarEvent>)
      ensures result == EventsInWindow(events, begin, end)
      ensures forall e :: e in result <==> e in events && DateIntervalsOverlap(e.date, e.end, begin, end)
      ensures multiset(result) == multiset(Overlapping(events, begin, end))
      ensures SortedByKey(result, WindowKey(begin, end))
    {
      result := [];
      var n := 0;
      while n < |events|
        invariant 0 <= n <= |events|
        invariant result == Overlapping(events[..n], begin, end)
      {
        var event := events[n];
        if DateIntervalsOverlap(event.date, event.end, begin, end) {
          result := result + [event];
        }
        assert events[..n + 1][..n] == events[..n];
        n := n + 1;
      }
      assert events[..n] == events;
      result := SortByKey(result, WindowKey(begin, end));
      EventsInWindowSpec(events, begin, end);
    }

    /** hasEvents: whether getEvents over the day's first to last millisecond is non-empty. */
    method HasEvents(day: int) returns (b: bool)
      ensures b == HasEventsOn(events, day)
      ensures b <==> exists e :: e in events && DateIntervalsOverlap(e.date, e.end,
                       DayNumber(day) * MSECS_IN_DAY, DayNumber(day) * MSECS_IN_DAY + MSECS_IN_DAY - 1)
    {
      var dayBegin := BeginningOfDay(day);
      var dayEnd := EndOfDay(day);
      var found := GetEvents(dayBegin, dayEnd);
      HasEventsOnSpec(events, day);
      if |found| == 0 {
        return false;
      }
      return true;
    }
  }

  // ---------------------------------------------------------------------------
  // Either source, as the calendar and the event list hold it
  // ---------------------------------------------------------------------------

  datatype EventSourceRef = Empty(empty: EmptyEventSource) | Remote(remote: DBusEventSource)

  function Footprint(src: EventSourceRef): set<object> {
    if src.Remote? then {src.remote} else {}
  }

  /** The events a source answers queries from. */
  function Snapshot(src: EventSourceRef): seq<CalendarEvent>
    reads Footprint(src)
  {
    if src.Remote? then src.remote.events else []
  }

  function SourceIsLoading(src: EventSourceRef): bool
    reads Footprint(src)
  {
    if src.Remote? then src.remote.isLoading else src.empty.isLoading
  }

  function SourceIsDummy(src: EventSourceRef): bool {
    if src.Remote? then src.remote.isDummy else src.empty.isDummy
  }

  method SourceRequestRange(src: EventSourceRef, begin: int, end: int)
    modifies Footprint(src)
    ensures src.Remote? ==> src.remote.State() == RequestRangeNext(old(src.remote.State()), begin, end)
  {
    if src.Remote? {
      src.remote.RequestRange(begin, end);
    } else {
      src.empty.RequestRange(begin, end);
    }
  }

  method SourceGetEvents(src: EventSourceRef, begin: int, end: int) returns (result: seq<CalendarEvent>)
    ensures result == EventsInWindow(Snapshot(src), begin, end)
  {
    if src.Remote? {
      result := src.remote.GetEvents(begin, end);
    } else {
      result := src.empty.GetEvents(begin, end);
    }
  }

  method SourceHasEvents(src: EventSourceRef, day: int) returns (b: bool)
    ensures b == HasEventsOn(Snapshot(src), day)
  {
    if src.Remote? {
      b := src.remote.HasEvents(day);
    } else {
      b := src.empty.HasEvents(day);
    }
  }
}
