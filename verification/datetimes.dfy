/**
 The decoded DTSTART/DTEND values of an iCalendar VEVENT (section 3.3.4 and
 3.3.5 of RFC 5545) as Python's `datetime` module represents them, and the
 one comparison the extractor performs: `naive_datetime < value`.
 */
module DateTimes {
  import opened Calendar

  /** Wall-clock time of day, to the microsecond. */
  datatype TimeOfDay = TimeOfDay(hour: int, minute: int, second: int, microsecond: int)

  /** `datetime.min.time()`. */
  const Midnight := TimeOfDay(0, 0, 0, 0)

  predicate ValidTime(t: TimeOfDay) {
    0 <= t.hour < 24 && 0 <= t.minute < 60 && 0 <= t.second < 60 && 0 <= t.microsecond < 1000000
  }

  /** The fields of a `datetime`, without its `tzinfo`. */
  datatype DateTime = DateTime(date: Date, time: TimeOfDay)

  predicate ValidDateTime(dt: DateTime) {
    ValidDate(dt.date) && ValidTime(dt.time)
  }

  /**
   What `.dt` of a DTSTART or DTEND property holds: a `date` (VALUE=DATE,
   all-day), a naive `datetime` (floating local time) or an aware
   `datetime` (a UTC or TZID time). The zone is kept only by name: the
   extractor never converts between zones.
   */
  datatype Value =
    | DateValue(date: Date)
    | NaiveValue(dt: DateTime)
    | AwareValue(dt: DateTime, zone: string)

  predicate ValidValue(v: Value) {
    match v
    case DateValue(d) => ValidDate(d)
    case NaiveValue(dt) => ValidDateTime(dt)
    case AwareValue(dt, _) => ValidDateTime(dt)
  }

  /** The calendar date of a value's own wall-clock fields. */
  function WallDate(v: Value): (d: Date)
    ensures ValidValue(v) ==> ValidDate(d)
    ensures ValidValue(v) && !v.DateValue? ==> !DateTimeLess(v.dt, AtMidnight(d))
  {
    match v
    case DateValue(d) => d
    case NaiveValue(dt) => dt.date
    case AwareValue(dt, _) => dt.date
  }

  /** `datetime.combine(d, datetime.min.time())`, also `datetime(d.year, d.month, d.day)`. */
  function AtMidnight(d: Date): (t: DateTime)
    ensures t.date == d && ValidTime(t.time)
  {
    DateTime(d, Midnight)
  }

  predicate TimeLess(a: TimeOfDay, b: TimeOfDay) {
    a.hour < b.hour || (a.hour == b.hour && (a.minute < b.minute ||
    (a.minute == b.minute && (a.second < b.second || (a.second == b.second && a.microsecond < b.microsecond)))))
  }

  /** Two naive datetimes compare as (year, month, day, hour, minute, second, microsecond). */
  predicate DateTimeLess(a: DateTime, b: DateTime) {
    DateLess(a.date, b.date) || (a.date == b.date && TimeLess(a.time, b.time))
  }

  /** The exceptions the extractor's per-event `try` can catch. */
  datatype PyError = TypeError | OverflowError

  /** The value of a Python comparison, or the exception it raises. */
  datatype Compared = Answer(less: bool) | Raises(error: PyError)

  /**
   `a < b` for a naive datetime `a`: a `datetime` never compares with a
   plain `date` by `<`, nor a naive datetime with an aware one; both
   raise TypeError.
   */
  function NaiveLess(a: DateTime, b: Value): (c: Compared)
    ensures c.Raises? <==> !b.NaiveValue?
    ensures c.Raises? ==> c.error == TypeError
  {
    match b
    case NaiveValue(e) => Answer(DateTimeLess(a, e))
    case _ => Raises(TypeError)
  }

  /**
   Midnight of day `d` comes before `e` exactly when `d` is an earlier
   day, or is `e`'s own day and `e` is past 00:00:00.000000.
   */
  lemma MidnightBefore(d: Date, e: DateTime)
    requires ValidTime(e.time)
    ensures DateTimeLess(AtMidnight(d), e) <==> DateLess(d, e.date) || (d == e.date && e.time != Midnight)
  {
  }
}
