/**
 What one VEVENT contributes to the busy set, shared by both copies of
 `get_busy_dates`: the start normalisation, the day-by-day `while` loop,
 and the specification of the whole extraction as a union of per-event
 day sets, with the properties that union has.
 */
module Events {
  import opened Calendar
  import opened DateTimes
  import opened IsoDates

  datatype Option<T> = None | Some(value: T)

  /** A VEVENT as the loop sees it: the `.dt` of DTSTART and of DTEND, when present. */
  datatype Event = Event(dtstart: Option<Value>, dtend: Option<Value>)

  /**
   The two copies of `get_busy_dates`: `Corrected` turns a plain-date end
   into midnight of that date before comparing; `Original` compares with
   the end as decoded.
   */
  datatype Variant = Corrected | Original

  /**
   What became of one event: `continue`d for a missing DTSTART or DTEND,
   expanded without error, or stopped by an exception that the per-event
   `except Exception` caught (the days added before it stay added).
   */
  datatype Outcome = Skipped | Expanded | Raised(error: PyError)

  /** What the HTTP fetch gave: the feed's decoded events, or a failure (`return []`). */
  datatype Feed = FetchFailed | Fetched(events: seq<Event>)

  /** Values a Python `date`/`datetime` can hold; a start's year has four digits. */
  predicate WellFormed(e: Event) {
    (e.dtstart.Some? ==> ValidValue(e.dtstart.value) && 1000 <= WallDate(e.dtstart.value).year) &&
    (e.dtend.Some? ==> ValidValue(e.dtend.value))
  }

  /** The corrected copy's end normalisation: a plain date becomes midnight of that date. */
  function NormalizeEnd(dtend: Value): (r: Value)
    ensures r.NaiveValue? <==> !dtend.AwareValue?
    ensures WallDate(r) == WallDate(dtend)
    ensures ValidValue(dtend) ==> ValidValue(r)
    ensures !dtend.DateValue? ==> r == dtend
  {
    match dtend
    case DateValue(d) => NaiveValue(AtMidnight(d))
    case _ => dtend
  }

  /** The right-hand side of the loop's `current_date < ...` in each copy. */
  function EndOperand(variant: Variant, dtend: Value): (r: Value)
    ensures r.NaiveValue? <==> dtend.NaiveValue? || (variant == Corrected && dtend.DateValue?)
    ensures WallDate(r) == WallDate(dtend)
  {
    if variant == Corrected then NormalizeEnd(dtend) else dtend
  }

  ghost function AllDates(): (days: set<Date>)
    ensures forall d :: d in days <==> ValidDate(d)
  {
    var days := set y, m, dd | MinYear <= y <= MaxYear && 1 <= m <= 12 && 1 <= dd <= 31 && ValidDate(Date(y, m, dd)) :: Date(y, m, dd);
    assert forall d :: ValidDate(d) ==> d in days by {
      forall d | ValidDate(d) ensures d in days {
        assert d == Date(d.year, d.month, d.day);
      }
    }
    days
  }

  /** The valid days `lo <= d < hi`. */
  ghost function DaysBetween(lo: Date, hi: Date): (days: set<Date>)
    ensures forall d :: d in days <==> ValidDate(d) && !DateLess(d, lo) && DateLess(d, hi)
  {
    set d | d in AllDates() && !DateLess(d, lo) && DateLess(d, hi)
  }

  /**
   The days an event from `startDay` to `end` occupies: from `startDay` on,
   every day whose midnight comes before `end`. Only a naive end compares.
   */
  ghost function DaysCovered(startDay: Date, end: Value): (days: set<Date>)
    ensures forall d :: d in days <==>
      ValidDate(d) && end.NaiveValue? && !DateLess(d, startDay) && DateTimeLess(AtMidnight(d), end.dt)
  {
    if end.NaiveValue? then
      set d | d in AllDates() && !DateLess(d, startDay) && DateTimeLess(AtMidnight(d), end.dt)
    else {}
  }

  /**
   How the loop ends: the first comparison raises unless the end is naive;
   a naive end past midnight of 9999-12-31 makes the step after that day
   overflow.
   */
  function ExpansionOutcome(end: Value): Outcome {
    if !end.NaiveValue? then Raised(TypeError)
    else if DateTimeLess(AtMidnight(MaxDate), end.dt) then Raised(OverflowError)
    else Expanded
  }

  /** One pass of the loop body: the covered day `current` joins the days done, and the walk moves on. */
  lemma Advance(startDay: Date, current: Date, end: Value, done: set<Date>)
    requires ValidDate(current) && current != MaxDate && !DateLess(current, startDay)
    requires done == DaysBetween(startDay, current) && done <= DaysCovered(startDay, end)
    requires current in DaysCovered(startDay, end)
    ensures ValidDate(NextDay(current)) && !DateLess(NextDay(current), startDay)
    ensures done + {current} == DaysBetween(startDay, NextDay(current))
    ensures done + {current} <= DaysCovered(startDay, end)
  {
    forall d | ValidDate(d)
      ensures d in DaysBetween(startDay, NextDay(current)) <==> d in done + {current}
    {
      NextDayIsSuccessor(current, d);
    }
  }

  /** Once midnight of `current` is not before the end, no later day is covered either. */
  lemma CoveredStopsAt(startDay: Date, current: Date, end: Value)
    requires end.NaiveValue? && ValidDate(current) && !DateLess(current, startDay)
    requires !DateTimeLess(AtMidnight(current), end.dt)
    requires DaysBetween(startDay, current) <= DaysCovered(startDay, end)
    ensures DaysCovered(startDay, end) == DaysBetween(startDay, current)
    ensures ExpansionOutcome(end) == Expanded
  {
    MaxDateIsLast(current);
  }

  /** When midnight of the last day is still before the end, every day from the start is covered. */
  lemma CoveredToTheLastDay(startDay: Date, end: Value)
    requires end.NaiveValue? && ValidDate(startDay)
    requires DateTimeLess(AtMidnight(MaxDate), end.dt)
    requires DaysBetween(startDay, MaxDate) <= DaysCovered(startDay, end)
    requires !DateLess(MaxDate, startDay)
    ensures DaysCovered(startDay, end) == DaysBetween(startDay, MaxDate) + {MaxDate}
  {
    forall d | d in DaysCovered(startDay, end)
      ensures d == MaxDate || DateLess(d, MaxDate)
    {
      MaxDateIsLast(d);
    }
  }

  lemma FormatAllAdd(days: set<Date>, d: Date)
    requires forall x :: x in days ==> Formattable(x)
    requires Formattable(d)
    ensures FormatAll(days + {d}) == FormatAll(days) + {Format(d)}
  {
  }

  /**
   The shared `while current_date < end` loop. Its first comparison raises
   TypeError exactly when the end is not a naive datetime, and then no day
   is added; otherwise no comparison raises and the walk runs.
   */
  method ExpandDays(busy: set<string>, startDay: Date, end: Value) returns (busy': set<string>, outcome: Outcome)
    requires Formattable(startDay) && ValidValue(end)
    ensures busy' == busy + FormatAll(DaysCovered(startDay, end))
    ensures outcome == ExpansionOutcome(end)
  {
    var lt := NaiveLess(AtMidnight(startDay), end);
    if lt.Raises? {
      assert DaysCovered(startDay, end) == {};
      return busy, Raised(lt.error);
    }
    busy', outcome := WalkDays(busy, startDay, end.dt);
  }

  /**
   The loop for a naive end: add the current day's string and step one
   day while midnight of the current day is before `end`, until the
   comparison is false or the step past 9999-12-31 overflows.
   */
  method WalkDays(busy: set<string>, startDay: Date, end: DateTime) returns (busy': set<string>, outcome: Outcome)
    requires Formattable(startDay) && ValidDateTime(end)
    ensures busy' == busy + FormatAll(DaysCovered(startDay, NaiveValue(end)))
    ensures outcome == ExpansionOutcome(NaiveValue(end))
  {
    busy' := busy;
    outcome := Expanded;
    var current := startDay;
    ghost var done: set<Date> := {};
    while DateTimeLess(AtMidnight(current), end)
      invariant ValidDate(current) && !DateLess(current, startDay)
      invariant done == DaysBetween(startDay, current)
      invariant done <= DaysCovered(startDay, NaiveValue(end))
      invariant busy' == busy + FormatAll(done)
      decreases MaxOrdinal - Ordinal(current)
    {
      MaxDateIsLast(current);
      assert current in DaysCovered(startDay, NaiveValue(end));
      FormatAllAdd(done, current);
      busy' := busy' + {Format(current)};
      if current == MaxDate {
        CoveredToTheLastDay(startDay, NaiveValue(end));
        return busy', Raised(OverflowError);
      }
      Advance(startDay, current, NaiveValue(end), done);
      done := done + {current};
      current := NextDay(current);
    }
    CoveredStopsAt(startDay, current, NaiveValue(end));
  }

  /** What became of an event: skipped when a field is missing, else how its loop ended. */
  function EventOutcome(variant: Variant, e: Event): Outcome {
    if e.dtstart.None? || e.dtend.None? then Skipped
    else ExpansionOutcome(EndOperand(variant, e.dtend.value))
  }

  /** The days an event adds to the busy set, exception or not. */
  ghost function EventDays(variant: Variant, e: Event): set<Date> {
    if e.dtstart.None? || e.dtend.None? then {}
    else DaysCovered(WallDate(e.dtstart.value), EndOperand(variant, e.dtend.value))
  }

  /** The busy set after the `for` loop has seen `events`: the union of their day sets. */
  ghost function BusyDays(variant: Variant, events: seq<Event>): set<Date>
    decreases |events|
  {
    if events == [] then {}
    else BusyDays(variant, events[..|events| - 1]) + EventDays(variant, events[|events| - 1])
  }

  /** One more pass of the `for` loop adds the next event's days. */
  lemma BusyDaysStep(variant: Variant, events: seq<Event>, i: int)
    requires 0 <= i < |events|
    ensures BusyDays(variant, events[..i + 1]) == BusyDays(variant, events[..i]) + EventDays(variant, events[i])
    ensures FormatAll(BusyDays(variant, events[..i + 1])) ==
            FormatAll(BusyDays(variant, events[..i])) + FormatAll(EventDays(variant, events[i]))
  {
    assert events[..i + 1][..i] == events[..i];
    FormatAllUnion(BusyDays(variant, events[..i]), EventDays(variant, events[i]));
  }

  /** A day is busy exactly when some event of the sequence covers it. */
  lemma {:induction false} BusyDaysMember(variant: Variant, events: seq<Event>, d: Date)
    ensures d in BusyDays(variant, events) <==> exists i :: 0 <= i < |events| && d in EventDays(variant, events[i])
    decreases |events|
  {
    if events != [] {
      var init, last := events[..|events| - 1], events[|events| - 1];
      BusyDaysMember(variant, init, d);
      assert forall i :: 0 <= i < |init| ==> init[i] == events[i];
      assert events[|init|] == last;
    }
  }

  /** Processing `a` then `b` gives the union of what each gives alone. */
  lemma {:induction false} BusyDaysConcat(variant: Variant, a: seq<Event>, b: seq<Event>)
    ensures BusyDays(variant, a + b) == BusyDays(variant, a) + BusyDays(variant, b)
    decreases |b|
  {
    if b == [] {
      assert a + b == a;
    } else {
      var init := b[..|b| - 1];
      assert (a + b)[..|a + b| - 1] == a + init;
      BusyDaysConcat(variant, a, init);
    }
  }

  /** Adding events never removes a busy day. */
  lemma AddingEventsKeepsDays(variant: Variant, a: seq<Event>, b: seq<Event>)
    ensures BusyDays(variant, a) <= BusyDays(variant, a + b)
    ensures BusyDays(variant, b) <= BusyDays(variant, a + b)
  {
    BusyDaysConcat(variant, a, b);
  }

  /** Reordering or repeating events leaves the busy set as it was. */
  lemma BusyDaysSameEvents(variant: Variant, a: seq<Event>, b: seq<Event>)
    requires forall e :: e in a <==> e in b
    ensures BusyDays(variant, a) == BusyDays(variant, b)
  {
    forall d | true
      ensures d in BusyDays(variant, a) <==> d in BusyDays(variant, b)
    {
      BusyDaysMember(variant, a, d);
      BusyDaysMember(variant, b, d);
      if exists i :: 0 <= i < |a| && d in EventDays(variant, a[i]) {
        var i :| 0 <= i < |a| && d in EventDays(variant, a[i]);
        assert a[i] in b;
        var j :| 0 <= j < |b| && b[j] == a[i];
      }
      if exists j :: 0 <= j < |b| && d in EventDays(variant, b[j]) {
        var j :| 0 <= j < |b| && d in EventDays(variant, b[j]);
        assert b[j] in a;
        var i :| 0 <= i < |a| && a[i] == b[j];
      }
    }
  }

  /** Running over the events twice in a row gives what running once gives. */
  lemma BusyDaysIdempotent(variant: Variant, a: seq<Event>)
    ensures BusyDays(variant, a + a) == BusyDays(variant, a)
  {
    BusyDaysConcat(variant, a, a);
  }

  /** An event without DTSTART or DTEND is skipped, and the events around it count as if it were absent. */
  lemma MissingFieldIsSkipped(variant: Variant, a: seq<Event>, e: Event, b: seq<Event>)
    requires e.dtstart.None? || e.dtend.None?
    ensures EventOutcome(variant, e) == Skipped
    ensures BusyDays(variant, a + [e] + b) == BusyDays(variant, a + b)
  {
    BusyDaysConcat(variant, a + [e], b);
    BusyDaysConcat(variant, a, [e]);
    BusyDaysConcat(variant, a, b);
    assert BusyDays(variant, [e]) == {} by {
      assert [e][..0] == [];
    }
  }

  /**
   The start is cut to its own wall-clock date: its time of day and its
   zone are dropped, with no conversion between zones.
   */
  lemma StartKeepsWallDate(variant: Variant, d: Date, t: TimeOfDay, zone: string, dtend: Option<Value>)
    ensures EventDays(variant, Event(Some(NaiveValue(DateTime(d, t))), dtend)) == EventDays(variant, Event(Some(DateValue(d)), dtend))
    ensures EventDays(variant, Event(Some(AwareValue(DateTime(d, t), zone)), dtend)) == EventDays(variant, Event(Some(DateValue(d)), dtend))
  {
  }

  /**
   With a naive date-time end both copies agree: from the start's date on,
   a day is busy when it is before the end's date, or is the end's date
   and the end is past midnight.
   */
  lemma NaiveEndDays(variant: Variant, dtstart: Value, e: DateTime, d: Date)
    requires ValidTime(e.time)
    ensures var ev := Event(Some(dtstart), Some(NaiveValue(e)));
      d in EventDays(variant, ev) <==>
        ValidDate(d) && !DateLess(d, WallDate(dtstart)) && (DateLess(d, e.date) || (d == e.date && e.time != Midnight))
    ensures EventOutcome(variant, Event(Some(dtstart), Some(NaiveValue(e)))) != Raised(TypeError)
  {
    MidnightBefore(d, e);
  }

  /** A zone-aware end cannot be compared with the naive start: the event raises TypeError and adds nothing. */
  lemma AwareEndAddsNothing(variant: Variant, dtstart: Value, e: DateTime, zone: string)
    ensures EventDays(variant, Event(Some(dtstart), Some(AwareValue(e, zone)))) == {}
    ensures EventOutcome(variant, Event(Some(dtstart), Some(AwareValue(e, zone)))) == Raised(TypeError)
  {
  }

  /**
   The corrected copy only ever adds days: it differs from the original
   just for a plain-date end, which the original cannot compare.
   */
  lemma OriginalWithinCorrected(e: Event)
    ensures EventDays(Original, e) <= EventDays(Corrected, e)
    ensures e.dtend.Some? && !e.dtend.value.DateValue? ==> EventDays(Original, e) == EventDays(Corrected, e)
    ensures e.dtstart.Some? && e.dtend.Some? && e.dtend.value.DateValue? ==> EventDays(Original, e) == {}
  {
  }

  lemma {:induction false} OriginalBusyWithinCorrected(events: seq<Event>)
    ensures BusyDays(Original, events) <= BusyDays(Corrected, events)
    decreases |events|
  {
    if events != [] {
      OriginalBusyWithinCorrected(events[..|events| - 1]);
      OriginalWithinCorrected(events[|events| - 1]);
    }
  }
}
