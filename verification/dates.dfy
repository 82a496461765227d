/**
 Timestamps as the controller sees them. A stored or requested date is an
 instant: a UTC calendar day (days since the epoch) plus the milliseconds that
 have elapsed since that day's midnight. Truncating an instant to "date only"
 keeps the day, which is what formatting it as an ISO string and cutting at
 "T" does.
 */
module Dates {

  /** Milliseconds in one UTC calendar day. */
  const MsPerDay: int := 86_400_000

  /** Milliseconds since midnight; always less than one day. */
  type TimeOfDay = ms: int | 0 <= ms < MsPerDay

  datatype Instant = Instant(day: int, offset: TimeOfDay)

  /** The instant as milliseconds since the epoch, the value the store compares. */
  function EpochMs(t: Instant): int {
    t.day * MsPerDay + t.offset
  }

  /** Midnight (UTC) at the start of `day`: what `new Date("YYYY-MM-DD")` yields. */
  function Midnight(day: int): Instant {
    Instant(day, 0)
  }

  /** The calendar day of an instant, with the time of day dropped. */
  function Truncate(t: Instant): int {
    t.day
  }

  /** The half-open window [midnight of `day`, midnight of the next day) the booking query uses. */
  predicate InDayWindow(t: Instant, day: int) {
    EpochMs(Midnight(day)) <= EpochMs(t) < EpochMs(Midnight(day + 1))
  }

  /** An instant lies in a day's window exactly when that day is its truncation. */
  lemma WindowIsDay(t: Instant, day: int)
    ensures InDayWindow(t, day) <==> Truncate(t) == day
  {
  }

  /** Two instants that denote the same millisecond are the same instant, so an
      exact date match is a match on day and offset together. */
  lemma EpochMsInjective(a: Instant, b: Instant)
    requires EpochMs(a) == EpochMs(b)
    ensures a == b
  {
  }
}
