# Appointment slot reservation, modelled in Dafny

This project models the appointment controller of a doctor-scheduling backend.
Doctors publish slots; a slot has a date, a time label such as `"10:00"` and a
status, either available or confirmed. Patients book a slot, cancel a booking,
list a doctor's slots for one day, and list their own appointments.

Every controller operation is a pure function over an immutable state. The
state holds a map from doctor id to that doctor's slot sequence, plus the
appointment ledger. An operation returns an outcome value and the new state;
HTTP status codes are not modelled.

- `wrappers.dfy`: `Option`.
- `seqs.dfy`: two sequence helpers. `FirstMatch` finds the element a
  positional `$` update writes to. `Filter` keeps the matching elements in
  order.
- `dates.dfy`: dates. An instant is a UTC day plus milliseconds since
  midnight. Truncation keeps the day. The booking query's millisecond window
  and the cancel query's exact midnight match are both defined here.
- `calendar.dfy`: slots. It has the conditional flip from available to
  confirmed used by booking, and the unconditional release used by cancel.
- `ledger.dfy`: appointments. It has the duplicate query, the append, the
  lookup by id and owner, and the status change to cancelled.
- `listing.dfy`: the (date, time label) order, and an insertion sort that
  produces it.
- `appointments.dfy`: the four controller operations.
- `properties.dfy`: lemmas that relate several operations. They cover
  exclusivity, idempotent cancel, cancel then rebook, and the date-match
  asymmetry.

Modelling choices:
- A missing field is modelled like this: an absent or empty doctor id or
  time label is `""`, and an absent date is `None`. These are the absent or
  empty values the validation rejects.
- Positional updates assume one slot element meets every condition of the
  query. This is the `$elemMatch` reading. The store's own multi-condition
  match on array fields can let different elements meet different
  conditions.
- The code assumes, and never checks, that a doctor has at most one slot per
  (day, time label). Slots are written by an admin controller that is not
  part of this model. The exclusivity results take this as the hypothesis
  `UniqueSlotKeys`, which every operation preserves. Without it two bookings
  of one key can both be confirmed (`DuplicateSlotDoubleBooks`).
- Appointment ids are issued as the next ledger position. Such an id is
  fresh, as a store-issued id is. The invariant `IdsAreIndices` records this.
- A booking for an unknown doctor whose id is well formed gives
  `SlotUnavailable`, because the conditional update matches no document.
  A doctor id that is not a well-formed store id is not modelled (see
  "Left out").

Behaviours of the code that the model keeps:
- The duplicate check ignores status. A cancelled appointment still blocks
  its owner from rebooking the same slot (`CancelThenRebook`).
- Because the duplicate query ignores status, the ledger never holds two
  appointments, in any status, for one doctor, user, day and time.
  Booking and cancelling both keep this (`NoDuplicateBookings`).
- Cancel has no separate "forbidden" result. It does not check the
  appointment's current status.
- Release matches the slot dated exactly at midnight of the appointment's
  day. Booking matches any slot whose date falls on that day
  (`OffsetSlotStaysTaken`).
- Because cancel ignores status, the owner can cancel an already cancelled
  appointment again. That second cancel releases the slot even when another
  user has booked it meanwhile, so a third user can then book it. Two active
  appointments then hold one slot (`RepeatedCancelDoubleBooks`).

## Model

| member | source | states |
|---|---|---|
| Dates.WindowIsDay | controller/doctor/appointmentController.js:17-20 | a slot date lies in the booking window [midnight of the requested day, next midnight) exactly when its calendar day is the requested day |
| Dates.EpochMsInjective | controller/doctor/appointmentController.js:121 | an exact date match between two instants is a match on both day and time of day |
| Calendar.TryConfirm | controller/doctor/appointmentController.js:34-50 | reports no match exactly when the doctor has no available slot on that day with that time label; otherwise the first such slot, and only it, becomes confirmed |
| Calendar.Release | controller/doctor/appointmentController.js:117-127 | if no slot of the doctor is dated exactly midnight of the day with that label, nothing changes; otherwise the first such slot becomes available, whatever its status, and nothing else changes |
| Calendar.ReleaseIdempotent | controller/doctor/appointmentController.js:117-127 | releasing the same slot twice leaves the same slots as releasing it once |
| Calendar.ReleaseMakesBookable | controller/doctor/appointmentController.js:117-127 | if a slot for the key is dated exactly midnight, some slot for that key is bookable after the release |
| Calendar.TryConfirmKeepsKeys | controller/doctor/appointmentController.js:42-44 | confirming a slot keeps every doctor's (day, time) slot keys unique |
| Calendar.ReleaseKeepsKeys | controller/doctor/appointmentController.js:124-126 | releasing a slot keeps every doctor's (day, time) slot keys unique |
| Ledger.Record | controller/doctor/appointmentController.js:52-60 | saving appends exactly one active appointment with the given doctor, user, day and time and a fresh id; earlier appointments are unchanged |
| Ledger.FindOwned | controller/doctor/appointmentController.js:108-115 | finds the first appointment with that id that belongs to that user, or none; with distinct ids it finds one exactly when the id exists and the user owns it |
| Ledger.MarkCancelled | controller/doctor/appointmentController.js:129-130 | only the status of the chosen appointment changes, and it becomes cancelled |
| Listing.TextLeTotal | controller/doctor/appointmentController.js:99 | any two time labels are ordered one way or the other |
| Listing.TextLeTransitive | controller/doctor/appointmentController.js:99 | the time-label order is transitive |
| Listing.SortByDateTime | controller/doctor/appointmentController.js:99 | the result is ascending by date, then time label, and is a permutation of the input |
| AppointmentController.Book | controller/doctor/appointmentController.js:7-66 | a missing field gives MissingFields; an existing appointment of any status for the same doctor, user, day and time gives Duplicate; no available slot gives SlotUnavailable; each rejection leaves the state unchanged; a confirmation happens exactly when none of these applies, flips exactly the first matching slot to confirmed and appends exactly one appointment with the truncated day |
| AppointmentController.Cancel | controller/doctor/appointmentController.js:106-136 | NotFound exactly when no appointment has both the id and the requester as owner, with nothing changed; otherwise that appointment becomes cancelled and its midnight slot is released, whatever either status was |
| AppointmentController.SlotsOn | controller/doctor/appointmentController.js:79-81 | the result holds exactly the doctor's slots whose calendar day is the requested day, each as often as it is stored |
| AppointmentController.SlotsOnKeepsOrder | controller/doctor/appointmentController.js:79-81 | the day filter keeps stored order: filtering two concatenated parts gives the two filtered parts concatenated |
| AppointmentController.GetDoctorSlots | controller/doctor/appointmentController.js:67-90 | unknown doctor gives DoctorNotFound; otherwise exactly the doctor's slots on the requested day, with multiplicity |
| AppointmentController.GetMyAppointments | controller/doctor/appointmentController.js:95-104 | exactly the requester's appointments, in every status and with multiplicity, ascending by date and then time label |
| BookingProperties.BookPreservesValid | controller/doctor/appointmentController.js:34-60 | booking keeps appointment ids distinct and slot keys unique |
| BookingProperties.CancelPreservesValid | controller/doctor/appointmentController.js:117-130 | cancelling keeps appointment ids distinct and slot keys unique |
| BookingProperties.BookKeepsNoDuplicates | controller/doctor/appointmentController.js:22-60 | if no two appointments of any status share doctor, user, day and time, the same holds after any booking |
| BookingProperties.CancelKeepsNoDuplicates | controller/doctor/appointmentController.js:106-130 | if no two appointments of any status share doctor, user, day and time, the same holds after any cancel |
| BookingProperties.BookKeepsNoneBookable | controller/doctor/appointmentController.js:35-46 | if no slot is bookable for a key, none is bookable for that key after any booking |
| BookingProperties.ConfirmedSlotIsTaken | controller/doctor/appointmentController.js:35-49 | with unique slot keys, after a confirmed booking no slot is bookable for that doctor, day and time |
| BookingProperties.NoBookingWhileTaken | controller/doctor/appointmentController.js:35-50 | while no slot is bookable for a key, in any run of bookings and cancels where no cancel finds an appointment for that key, no booking of the key is confirmed and the key stays taken |
| BookingProperties.OnlyBookingsMissKey | controller/doctor/appointmentController.js:106-127 | a run with no cancels never releases a key, so runs of bookings alone meet the hypothesis of the exclusivity lemmas |
| BookingProperties.BookedSlotIsExclusive | controller/doctor/appointmentController.js:38-49 | with unique slot keys, after a confirmed booking, every later booking of the same doctor, day and time by any user is not confirmed, in any run of bookings alone and in any mixed run where no cancel finds an appointment for that key |
| BookingProperties.CancelOtherKeyKeepsNoneBookable | controller/doctor/appointmentController.js:117-127 | cancelling an appointment for a different doctor, day or time does not make a taken key bookable |
| BookingProperties.CancelIdempotent | controller/doctor/appointmentController.js:106-132 | cancelling the same appointment twice gives the same outcome and final state as cancelling once |
| BookingProperties.CancelNotFoundExactly | controller/doctor/appointmentController.js:108-115 | with distinct ids, cancel fails exactly when the id is unknown or another user owns it; both cases give the same NotFound and change nothing |
| Calendar.ConfirmThenReleaseRoundTrip | controller/doctor/appointmentController.js:117-127 | with unique slot keys and slots stored at midnight, releasing the slot a confirmation just took gives back exactly the doctors' slots from before the confirmation |
| Calendar.FirstReleasableAfterConfirm | controller/doctor/appointmentController.js:117-127 | with unique slot keys and slots stored at midnight, the slot a confirmation took is the first one the release of that key matches |
| Calendar.ReleaseAt | controller/doctor/appointmentController.js:117-127 | when a slot is the first one dated exactly midnight of the day with that label, the release sets exactly that slot available |
| BookingProperties.CancelAt | controller/doctor/appointmentController.js:108-130 | when an appointment is the first with that id and owner, cancel releases that appointment's slot and marks exactly that appointment cancelled |
| BookingProperties.BookThenCancel | controller/doctor/appointmentController.js:117-130 | with slots stored at midnight, a booking cancelled by its owner leaves the appointment in the ledger as cancelled and the key bookable again |
| BookingProperties.BookCancelRoundTrip | controller/doctor/appointmentController.js:7-132 | with valid state and slots stored at midnight, the owner's cancel of a confirmed booking succeeds, gives back exactly the doctors' slots from before the booking, and leaves the ledger as before plus that appointment, cancelled |
| BookingProperties.CancelThenRebook | controller/doctor/appointmentController.js:22-62 | with slots stored at midnight: book, then cancel, then a different user's booking of the same key is confirmed, while the original owner's rebooking is rejected as Duplicate |
| BookingProperties.BookOneSlot | controller/doctor/appointmentController.js:22-62 | with one available slot and no earlier appointment of this user for it, booking confirms that slot and appends this user's active appointment |
| BookingProperties.CancelOneSlot | controller/doctor/appointmentController.js:106-132 | the owner's cancel of appointment 0 releases the midnight slot whatever its status, and marks the appointment cancelled whatever its status |
| BookingProperties.RepeatedCancelDoubleBooks | controller/doctor/appointmentController.js:106-132 | A books, A cancels, B books, A cancels again (still succeeds and releases the slot), C books: B's and C's appointments are both active on the same doctor, day and time |
| BookingProperties.DuplicateSlotDoubleBooks | controller/doctor/appointmentController.js:35-50 | when a doctor holds two available slots with the same day and time label, two users' bookings of that key are both confirmed and both slots end confirmed |
| BookingProperties.OffsetSlotStaysTaken | controller/doctor/appointmentController.js:117-127 | with unique slot keys, when the requested key's slots are stored with a non-zero time of day, the slot can be booked, but the owner's cancel reports success without releasing it, and the key stays taken |

## Left out

- Express and Mongoose plumbing is not modelled. That covers request and
  response objects, status codes, JSON bodies, the `populate` of doctor
  details (:98), and the route wiring.
- The error handlers that answer "Server error" (:63-65, :87-89, :101-103,
  :133-135) are not modelled. These catch storage failures, an unparseable
  date (`toISOString` throws on an invalid date), a malformed appointment
  id, and a malformed doctor id. A malformed doctor id fails to cast in the
  duplicate query (:23), the conditional update (:35) and the doctor lookup
  (:72). So the model takes already-parsed dates, numeric appointment ids,
  and doctor ids that are well formed. A malformed doctor id names no doctor
  in the model, so there it answers `SlotUnavailable` or `DoctorNotFound`
  where the code answers a server error.
- A failed save after the slot was confirmed leaves a confirmed slot with
  no appointment. The code neither detects nor reports this, so there is
  nothing to model beyond the generic error.
- Concurrency is not modelled. Each operation is one atomic step. The race
  between the duplicate check (:23) and the conditional update (:35) is not
  modelled, and neither is the store's atomicity guarantee.
- Real date parsing and time zones are not modelled. The end of the window
  is computed with local-time `setDate` (:19-20), which can give a 23- or
  25-hour day. The model uses UTC days.
- The store's multi-condition matching on array fields is not modelled; the
  single-element match is assumed, as described above.
- The commented-out transaction-based controller (:142-234) is dead code.
- Creation timestamps are not modelled, because they come from a clock.
  The appointment and doctor schemas (models/Appointment.js, models/Doctor.js)
  are not part of this model. A new appointment's default status is taken
  to be the active one.
- The identity `req.user?.id` is taken as a given string.
- A date sent as the number 0 is rejected by the missing-field check (:12)
  but cannot be represented: the model's date is either absent or an
  already-parsed instant.
- BookingProperties.BookedSlotIsExclusive: stated only for doctors with at
  most one slot per (day, time label), which the code assumes but never
  checks (DuplicateSlotDoubleBooks shows two confirmed bookings of one key
  otherwise), and only for runs of bookings and cancels in which no cancel finds an appointment for the booked key. Runs
  of bookings alone always qualify. No stronger exclusivity holds. A cancel
  that finds any appointment for the key releases the slot, even if that
  appointment was already cancelled and the slot now belongs to someone
  else. RepeatedCancelDoubleBooks shows such a run ending with two active
  appointments on one slot.
- AppointmentController.GetMyAppointments: the order among appointments
  with equal date and time is not stated, because the store does not
  specify it. The model's sort happens to keep ledger order.
- Listing.SortByDateTime: time labels are compared character by character,
  by code point. This matches the store's default binary string order for
  these labels. Collation settings are not modelled.
