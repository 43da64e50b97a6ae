/**
 * The availability rules of a slot for one concrete date: whether the date is
 * an occurrence of the weekly slot, how many seats remain (`rimasti`) and
 * whether it is full (`pieno`). Both seat figures are derived from the booked
 * count every time; none is stored.
 */
module Availability {
  import opened Wrappers
  import opened Calendar
  import opened Models

  /** The date falls on the slot's weekday (`d.weekday() + 1 == giorno_settimana`). */
  predicate OccursOn(s: Slot, d: Date)
    requires ValidDate(d)
  {
    IsoWeekday(d) == s.weekday
  }

  /** `rimasti`: `None` for an unlimited slot, otherwise `max(capienza - booked, 0)`. */
  function Remaining(capacity: Option<int>, booked: nat): (r: Option<int>)
    ensures capacity.None? <==> r.None?
    ensures r.Some? ==> r.value >= 0 && r.value >= capacity.value - booked
    ensures r.Some? ==> r.value == 0 || r.value == capacity.value - booked
  {
    match capacity
    case None => None
    case Some(c) => Some(if c - booked > 0 then c - booked else 0)
  }

  /** `pieno`: never for an unlimited slot, otherwise `booked >= capienza`. */
  function IsFull(capacity: Option<int>, booked: nat): (full: bool)
    ensures capacity.None? ==> !full
  {
    match capacity
    case None => false
    case Some(c) => booked >= c
  }

  /** For a finite capacity, `pieno` holds exactly when no seat remains. */
  lemma FullIffNoSeatLeft(c: int, booked: nat)
    ensures IsFull(Some(c), booked) <==> Remaining(Some(c), booked) == Some(0)
  {
  }

  /** Booking one more seat uses one remaining seat, until none is left. */
  lemma OneMoreBooking(c: int, booked: nat)
    requires !IsFull(Some(c), booked)
    ensures Remaining(Some(c), booked + 1) == Some(Remaining(Some(c), booked).value - 1)
  {
  }

  /** Whether a date is an occurrence depends on its weekday alone. */
  lemma OccursOnWeekdayOnly(s: Slot, d: Date, e: Date)
    requires ValidDate(d) && ValidDate(e) && IsoWeekday(d) == IsoWeekday(e)
    ensures OccursOn(s, d) == OccursOn(s, e)
  {
  }

  /** A slot occurs on a date exactly when it occurs a week later. */
  lemma OccursWeekly(s: Slot, d: Date, e: Date)
    requires ValidDate(d) && ValidDate(e) && Ordinal(e) == Ordinal(d) + 7
    ensures OccursOn(s, d) == OccursOn(s, e)
  {
    SameWeekday(d, e, 1);
  }
}
