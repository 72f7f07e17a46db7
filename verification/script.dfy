/**
 The corrected `get_busy_dates` (script.js, a Python file despite its
 name): a plain-date DTEND is turned into midnight of that date before the
 day loop compares with it, so all-day events mark their days.
 */
module Script {
  import opened Calendar
  import opened DateTimes
  import opened IsoDates
  import opened Events

  /**
   The busy days of a feed, as sorted `YYYY-MM-DD` strings, and what
   became of each event. A failed fetch gives no days.
   */
  method GetBusyDates(feed: Feed) returns (busyList: seq<string>, log: seq<Outcome>)
    requires feed.Fetched? ==> forall i :: 0 <= i < |feed.events| ==> WellFormed(feed.events[i])
    ensures StrictlyAscending(busyList)
    ensures feed.FetchFailed? ==> busyList == [] && log == []
    ensures feed.Fetched? ==> Elements(busyList) == FormatAll(BusyDays(Corrected, feed.events))
    ensures feed.Fetched? ==> forall d :: Formattable(d) ==> (Format(d) in busyList <==> d in BusyDays(Corrected, feed.events))
    ensures feed.Fetched? ==> |log| == |feed.events|
    ensures feed.Fetched? ==> forall i :: 0 <= i < |log| ==> log[i] == EventOutcome(Corrected, feed.events[i])
  {
    if feed.FetchFailed? {
      return [], [];
    }
    var events := feed.events;
    var busyDates: set<string> := {};
    log := [];
    for i := 0 to |events|
      invariant busyDates == FormatAll(BusyDays(Corrected, events[..i]))
      invariant |log| == i && forall k :: 0 <= k < i ==> log[k] == EventOutcome(Corrected, events[k])
    {
      BusyDaysStep(Corrected, events, i);
      var outcome;
      busyDates, outcome := AddEvent(busyDates, events[i]);
      log := log + [outcome];
    }
    assert events[..|events|] == events;
    busyList := SortedList(busyDates);
    ListedDays(busyList, BusyDays(Corrected, events));
  }

  /**
   One pass of the loop over the calendar's events: an event missing
   DTSTART or DTEND is skipped; otherwise its days are added to the busy
   set until the day loop stops or raises.
   */
  method AddEvent(busy: set<string>, component: Event) returns (busy': set<string>, outcome: Outcome)
    requires WellFormed(component)
    ensures busy' == busy + FormatAll(EventDays(Corrected, component))
    ensures outcome == EventOutcome(Corrected, component)
  {
    if component.dtstart.None? || component.dtend.None? {
      return busy, Skipped;
    }
    var dtstart, dtend := component.dtstart.value, component.dtend.value;
    var endTimeComparison := NormalizeEnd(dtend);
    var startDateNormalized := AtMidnight(WallDate(dtstart));
    busy', outcome := ExpandDays(busy, startDateNormalized.date, endTimeComparison);
  }

  /**
   An all-day event (plain-date DTSTART and DTEND) occupies exactly the
   days from its start up to, not including, its end date.
   */
  lemma AllDayEventDays(s: Date, e: Date)
    ensures EventDays(Corrected, Event(Some(DateValue(s)), Some(DateValue(e)))) == DaysBetween(s, e)
    ensures ValidDate(e) ==> EventOutcome(Corrected, Event(Some(DateValue(s)), Some(DateValue(e)))) == Expanded
  {
    if ValidDate(e) {
      MaxDateIsLast(e);
    }
    forall d | true
      ensures d in EventDays(Corrected, Event(Some(DateValue(s)), Some(DateValue(e)))) <==> d in DaysBetween(s, e)
    {
      MidnightBefore(d, AtMidnight(e));
    }
  }

  /** DTSTART;VALUE=DATE:20240301 and DTEND;VALUE=DATE:20240303 mark 1 and 2 March 2024. */
  lemma AllDayExample()
    ensures EventDays(Corrected, Event(Some(DateValue(Date(2024, 3, 1))), Some(DateValue(Date(2024, 3, 3)))))
         == {Date(2024, 3, 1), Date(2024, 3, 2)}
  {
    AllDayEventDays(Date(2024, 3, 1), Date(2024, 3, 3));
  }

  /** A 23:00 to 01:00 event marks both the day it starts and the day it ends. */
  lemma OvernightExample()
    ensures EventDays(Corrected, Event(Some(NaiveValue(DateTime(Date(2024, 3, 1), TimeOfDay(23, 0, 0, 0)))),
                                       Some(NaiveValue(DateTime(Date(2024, 3, 2), TimeOfDay(1, 0, 0, 0))))))
         == {Date(2024, 3, 1), Date(2024, 3, 2)}
  {
    var ev := Event(Some(NaiveValue(DateTime(Date(2024, 3, 1), TimeOfDay(23, 0, 0, 0)))),
                    Some(NaiveValue(DateTime(Date(2024, 3, 2), TimeOfDay(1, 0, 0, 0)))));
    forall d | true
      ensures d in EventDays(Corrected, ev) <==> d in {Date(2024, 3, 1), Date(2024, 3, 2)}
    {
      NaiveEndDays(Corrected, ev.dtstart.value, ev.dtend.value.dt, d);
    }
  }

  /** A 09:00 to 17:00 event marks its own day: the end is never cut back to its date. */
  lemma SameDayExample()
    ensures EventDays(Corrected, Event(Some(NaiveValue(DateTime(Date(2024, 3, 1), TimeOfDay(9, 0, 0, 0)))),
                                       Some(NaiveValue(DateTime(Date(2024, 3, 1), TimeOfDay(17, 0, 0, 0))))))
         == {Date(2024, 3, 1)}
  {
    var ev := Event(Some(NaiveValue(DateTime(Date(2024, 3, 1), TimeOfDay(9, 0, 0, 0)))),
                    Some(NaiveValue(DateTime(Date(2024, 3, 1), TimeOfDay(17, 0, 0, 0)))));
    forall d | true
      ensures d in EventDays(Corrected, ev) <==> d in {Date(2024, 3, 1)}
    {
      NaiveEndDays(Corrected, ev.dtstart.value, ev.dtend.value.dt, d);
    }
  }

  /** An event ending at exactly 00:00 does not mark the day it ends on. */
  lemma MidnightEndExample()
    ensures EventDays(Corrected, Event(Some(NaiveValue(DateTime(Date(2024, 2, 28), TimeOfDay(22, 0, 0, 0)))),
                                       Some(NaiveValue(DateTime(Date(2024, 3, 1), Midnight)))))
         == {Date(2024, 2, 28), Date(2024, 2, 29)}
  {
    var ev := Event(Some(NaiveValue(DateTime(Date(2024, 2, 28), TimeOfDay(22, 0, 0, 0)))),
                    Some(NaiveValue(DateTime(Date(2024, 3, 1), Midnight))));
    forall d | true
      ensures d in EventDays(Corrected, ev) <==> d in {Date(2024, 2, 28), Date(2024, 2, 29)}
    {
      NaiveEndDays(Corrected, ev.dtstart.value, ev.dtend.value.dt, d);
    }
  }
}
