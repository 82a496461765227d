/**
 The appointment controller as pure transitions over the two collections it
 touches: booking, cancelling, and the two read-only queries. Each operation is
 one atomic step; the request plumbing, status codes and response bodies are
 replaced by outcome values.
 */
module AppointmentController {
  import opened Wrappers
  import opened Dates
  import opened Calendar
  import opened Ledger
  import Listing
  import Seqs

  datatype State = State(doctors: Doctors, appointments: Appointments)

  /** The body of a booking request. An absent or empty doctor id or time label
      is "", an absent date is None; the requested date has already been parsed. */
  datatype BookRequest = BookRequest(doctorId: DoctorId, date: Option<Instant>, time: TimeLabel)

  datatype BookOutcome =
    | MissingFields
    | Duplicate
    | SlotUnavailable
    | BookingConfirmed(appointment: Appointment)

  datatype BookStep = BookStep(outcome: BookOutcome, state: State)

  datatype CancelOutcome = NotFound | AppointmentCancelled

  datatype CancelStep = CancelStep(outcome: CancelOutcome, state: State)

  datatype SlotsOutcome = DoctorNotFound | DaySlots(slots: seq<Slot>)

  /** Ids are distinct and no doctor has two slots with the same day and time label. */
  predicate Valid(st: State) {
    IdsAreIndices(st.appointments) && UniqueSlotKeys(st.doctors)
  }

  /** One of the three required fields is absent or empty. */
  predicate MissingField(req: BookRequest) {
    req.doctorId == "" || req.date.None? || req.time == ""
  }

  /** The requested date with its time of day dropped. */
  function RequestedDay(req: BookRequest): int
    requires req.date.Some?
  {
    Truncate(req.date.value)
  }

  /** `req` is a complete request for (`doc`, `day`, `time`). */
  predicate Targets(req: BookRequest, doc: DoctorId, day: int, time: TimeLabel) {
    !MissingField(req) && req.doctorId == doc && RequestedDay(req) == day && req.time == time
  }

  /**
   Booking, in the order the controller runs its steps: field validation, the
   duplicate query (which ignores the status of earlier appointments), the
   conditional confirmation of a slot, and the appended appointment. Every
   rejection leaves both collections as they were.
   */
  function Book(st: State, user: UserId, req: BookRequest): (r: BookStep)
    ensures MissingField(req) ==> r == BookStep(MissingFields, st)
    ensures !MissingField(req) && HasBooking(st.appointments, req.doctorId, user, RequestedDay(req), req.time) ==>
      r == BookStep(Duplicate, st)
    ensures (&& !MissingField(req)
             && !HasBooking(st.appointments, req.doctorId, user, RequestedDay(req), req.time)
             && NoneBookable(st.doctors, req.doctorId, RequestedDay(req), req.time)) ==>
      r == BookStep(SlotUnavailable, st)
    ensures r.outcome.BookingConfirmed? <==>
      && !MissingField(req)
      && !HasBooking(st.appointments, req.doctorId, user, RequestedDay(req), req.time)
      && !NoneBookable(st.doctors, req.doctorId, RequestedDay(req), req.time)
    ensures r.outcome.BookingConfirmed? ==>
      && var a := r.outcome.appointment;
      && SameBooking(a, req.doctorId, user, RequestedDay(req), req.time)
      && a.status == Active
      && a.id == |st.appointments|
      && r.state.appointments == st.appointments + [a]
      && exists i :: FirstBookable(st.doctors[req.doctorId], i, RequestedDay(req), req.time)
                  && UpdatedAt(st.doctors, r.state.doctors, req.doctorId, i, Confirmed)
  {
    if MissingField(req) then BookStep(MissingFields, st)
    else
      var day := RequestedDay(req);
      if HasBooking(st.appointments, req.doctorId, user, day, req.time) then BookStep(Duplicate, st)
      else
        match TryConfirm(st.doctors, req.doctorId, day, req.time)
        case None => BookStep(SlotUnavailable, st)
        case Some(doctors) =>
          var appts := Record(st.appointments, req.doctorId, user, day, req.time);
          BookStep(BookingConfirmed(appts[|st.appointments|]), State(doctors, appts))
  }

  /**
   Cancelling: the appointment is looked up by id and owner together, so a
   missing id and another user's appointment both give NotFound. The slot
   dated exactly midnight of the appointment's day with its time label is
   released whatever its status, and the appointment is marked cancelled
   whatever its status was.
   */
  function Cancel(st: State, user: UserId, id: nat): (r: CancelStep)
    ensures r.outcome.NotFound? <==>
      forall j :: 0 <= j < |st.appointments| ==> !(st.appointments[j].id == id && st.appointments[j].userId == user)
    ensures r.outcome.NotFound? ==> r.state == st
    ensures r.outcome.AppointmentCancelled? ==>
      exists i :: 0 <= i < |st.appointments|
        && st.appointments[i].id == id && st.appointments[i].userId == user
        && (forall j :: 0 <= j < i ==> !(st.appointments[j].id == id && st.appointments[j].userId == user))
        && (IdsAreIndices(st.appointments) ==> i == id)
        && r.state.appointments == st.appointments[i := st.appointments[i].(status := Cancelled)]
        && r.state.doctors == Release(st.doctors, st.appointments[i].doctorId, st.appointments[i].day, st.appointments[i].time)
  {
    match FindOwned(st.appointments, id, user)
    case None => CancelStep(NotFound, st)
    case Some(i) =>
      var a := st.appointments[i];
      CancelStep(AppointmentCancelled, State(Release(st.doctors, a.doctorId, a.day, a.time), MarkCancelled(st.appointments, i)))
  }

  /** The slots of one doctor on one calendar day, in their stored order. */
  function SlotsOn(slots: seq<Slot>, day: int): (r: seq<Slot>)
    ensures forall s :: s in r <==> s in slots && Truncate(s.date) == day
    ensures forall s :: multiset(r)[s] == if Truncate(s.date) == day then multiset(slots)[s] else 0
  {
    Seqs.Filter(slots, (s: Slot) => Truncate(s.date) == day)
  }

  /** The day filter keeps stored order: filtering a split list is filtering each part. */
  lemma SlotsOnKeepsOrder(a: seq<Slot>, b: seq<Slot>, day: int)
    ensures SlotsOn(a + b, day) == SlotsOn(a, day) + SlotsOn(b, day)
  {
    Seqs.FilterAppend(a, b, (s: Slot) => Truncate(s.date) == day);
  }

  /** The slot query: an unknown doctor is reported; otherwise every slot of the
      doctor on the requested day, whatever its status. */
  function GetDoctorSlots(doctors: Doctors, doc: DoctorId, date: Instant): (r: SlotsOutcome)
    ensures r.DoctorNotFound? <==> doc !in doctors
    ensures r.DaySlots? ==> forall s :: s in r.slots <==> s in doctors[doc] && Truncate(s.date) == Truncate(date)
    ensures r.DaySlots? ==> forall s :: multiset(r.slots)[s] == if Truncate(s.date) == Truncate(date) then multiset(doctors[doc])[s] else 0
  {
    if doc !in doctors then DoctorNotFound else DaySlots(SlotsOn(doctors[doc], Truncate(date)))
  }

  /** The patient's own list: exactly the appointments of `user`, in every status,
      ascending by date and then by time label. */
  function GetMyAppointments(appts: Appointments, user: UserId): (r: seq<Appointment>)
    ensures Listing.SortedByDateTime(r)
    ensures forall a :: a in r <==> a in appts && a.userId == user
    ensures forall a :: multiset(r)[a] == if a.userId == user then multiset(appts)[a] else 0
  {
    var mine := Seqs.Filter(appts, (a: Appointment) => a.userId == user);
    Listing.SortByDateTime(mine)
  }
}
