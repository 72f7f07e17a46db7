/**
 The original `get_busy_dates` (update_data.py): the day loop compares the
 naive start-of-day `datetime` with DTEND as decoded, so a plain-date
 (all-day) end raises TypeError and the event adds nothing.
 */
module UpdateData {
  import opened Calendar
  import opened DateTimes
  import opened IsoDates
  import opened Events

  /**
   The busy days of a feed, as sorted `YYYY-MM-DD` strings, and what
   became of each event. A failed fetch gives no days.
   */
  method GetBusyDates(feed: Feed) returns (busyList: seq<string>, log: seq<Outcome>)
    requires feed.Fetched? ==> forall i :: 0 <= i < |feed.events| ==> WellFormed(feed.events[i])
    ensures StrictlyAscending(busyList)
    ensures feed.FetchFailed? ==> busyList == [] && log == []
    ensures feed.Fetched? ==> Elements(busyList) == FormatAll(BusyDays(Original, feed.events))
    ensures feed.Fetched? ==> forall d :: Formattable(d) ==> (Format(d) in busyList <==> d in BusyDays(Original, feed.events))
    ensures feed.Fetched? ==> |log| == |feed.events|
    ensures feed.Fetched? ==> forall i :: 0 <= i < |log| ==> log[i] == EventOutcome(Original, feed.events[i])
  {
    if feed.FetchFailed? {
      return [], [];
    }
    var events := feed.events;
    var busyDates: set<string> := {};
    log := [];
    for i := 0 to |events|
      invariant busyDates == FormatAll(BusyDays(Original, events[..i]))
      invariant |log| == i && forall k :: 0 <= k < i ==> log[k] == EventOutcome(Original, events[k])
    {
      BusyDaysStep(Original, events, i);
      var outcome;
      busyDates, outcome := AddEvent(busyDates, events[i]);
      log := log + [outcome];
    }
    assert events[..|events|] == events;
    busyList := SortedList(busyDates);
    ListedDays(busyList, BusyDays(Original, events));
  }

  /**
   One pass of the loop over the calendar's events: an event missing
   DTSTART or DTEND is skipped; otherwise its days are added to the busy
   set until the day loop stops or raises.
   */
  method AddEvent(busy: set<string>, component: Event) returns (busy': set<string>, outcome: Outcome)
    requires WellFormed(component)
    ensures busy' == busy + FormatAll(EventDays(Original, component))
    ensures outcome == EventOutcome(Original, component)
  {
    if component.dtstart.None? || component.dtend.None? {
      return busy, Skipped;
    }
    var dtstart, dtend := component.dtstart.value, component.dtend.value;
    var startDate := AtMidnight(WallDate(dtstart));
    busy', outcome := ExpandDays(busy, startDate.date, dtend);
  }

  /**
   A plain-date DTEND cannot be compared with the start's `datetime`: the
   event raises TypeError on the first comparison and adds no day, whatever
   its start.
   */
  lemma PlainDateEndAddsNothing(dtstart: Value, e: Date)
    ensures EventDays(Original, Event(Some(dtstart), Some(DateValue(e)))) == {}
    ensures EventOutcome(Original, Event(Some(dtstart), Some(DateValue(e)))) == Raised(TypeError)
  {
  }

  /**
   The all-day event of 1 and 2 March 2024 marks no day here, while the
   corrected copy marks both.
   */
  lemma AllDayExample()
    ensures EventDays(Original, Event(Some(DateValue(Date(2024, 3, 1))), Some(DateValue(Date(2024, 3, 3))))) == {}
    ensures EventDays(Corrected, Event(Some(DateValue(Date(2024, 3, 1))), Some(DateValue(Date(2024, 3, 3)))))
         == {Date(2024, 3, 1), Date(2024, 3, 2)}
  {
    PlainDateEndAddsNothing(DateValue(Date(2024, 3, 1)), Date(2024, 3, 3));
    var ev := Event(Some(DateValue(Date(2024, 3, 1))), Some(DateValue(Date(2024, 3, 3))));
    forall d | true
      ensures d in EventDays(Corrected, ev) <==> d in {Date(2024, 3, 1), Date(2024, 3, 2)}
    {
      MidnightBefore(d, AtMidnight(Date(2024, 3, 3)));
    }
  }

  /** A 09:00 to 17:00 event with naive times marks its own day here too. */
  lemma SameDayExample()
    ensures EventDays(Original, Event(Some(NaiveValue(DateTime(Date(2024, 3, 1), TimeOfDay(9, 0, 0, 0)))),
                                      Some(NaiveValue(DateTime(Date(2024, 3, 1), TimeOfDay(17, 0, 0, 0))))))
         == {Date(2024, 3, 1)}
  {
    var ev := Event(Some(NaiveValue(DateTime(Date(2024, 3, 1), TimeOfDay(9, 0, 0, 0)))),
                    Some(NaiveValue(DateTime(Date(2024, 3, 1), TimeOfDay(17, 0, 0, 0)))));
    forall d | true
      ensures d in EventDays(Original, ev) <==> d in {Date(2024, 3, 1)}
    {
      NaiveEndDays(Original, ev.dtstart.value, ev.dtend.value.dt, d);
    }
  }

  /** A start with a zone and an end in UTC: the end is aware, so the event raises and marks nothing. */
  lemma AwareEventExample()
    ensures EventDays(Original, Event(Some(AwareValue(DateTime(Date(2024, 3, 1), TimeOfDay(9, 0, 0, 0)), "Europe/Oslo")),
                                      Some(AwareValue(DateTime(Date(2024, 3, 1), TimeOfDay(17, 0, 0, 0)), "UTC")))) == {}
    ensures EventOutcome(Original, Event(Some(AwareValue(DateTime(Date(2024, 3, 1), TimeOfDay(9, 0, 0, 0)), "Europe/Oslo")),
                                         Some(AwareValue(DateTime(Date(2024, 3, 1), TimeOfDay(17, 0, 0, 0)), "UTC")))) == Raised(TypeError)
  {
  }
}
