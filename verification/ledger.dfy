/**
 The appointment collection. Records are appended by a successful booking and
 only ever change status afterwards; nothing deletes them. Ids are issued by
 the store; the model issues the next position in the ledger, which is fresh.
 */
module Ledger {
  import opened Wrappers
  import opened Calendar
  import Seqs

  type UserId = string

  /** `Active` is the status a freshly saved appointment carries. */
  datatype AppointmentStatus = Active | Cancelled

  datatype Appointment = Appointment(
    id: nat,
    doctorId: DoctorId,
    userId: UserId,
    day: int,
    time: TimeLabel,
    status: AppointmentStatus)

  type Appointments = seq<Appointment>

  /** Every appointment's id is its position, so ids are distinct. */
  predicate IdsAreIndices(appts: Appointments) {
    forall i :: 0 <= i < |appts| ==> appts[i].id == i
  }

  /** `a` is for this doctor, this user, this calendar day and this time label. */
  predicate SameBooking(a: Appointment, doc: DoctorId, user: UserId, day: int, time: TimeLabel) {
    a.doctorId == doc && a.userId == user && a.day == day && a.time == time
  }

  /** The duplicate query: some appointment, in any status, has the same doctor, user, day and time. */
  predicate HasBooking(appts: Appointments, doc: DoctorId, user: UserId, day: int, time: TimeLabel) {
    exists i :: 0 <= i < |appts| && SameBooking(appts[i], doc, user, day, time)
  }

  /**
   No two appointments, in any status, share a doctor, user, day and time.
   The duplicate query is what keeps this.
   */
  predicate NoDuplicateBookings(appts: Appointments) {
    forall i, j :: 0 <= i < j < |appts| ==> !SameBooking(appts[j], appts[i].doctorId, appts[i].userId, appts[i].day, appts[i].time)
  }

  /** Saving a new appointment: it is appended with a fresh id and the active status. */
  function Record(appts: Appointments, doc: DoctorId, user: UserId, day: int, time: TimeLabel): (r: Appointments)
    ensures |r| == |appts| + 1 && r[..|appts|] == appts
    ensures SameBooking(r[|appts|], doc, user, day, time) && r[|appts|].status == Active
    ensures forall i :: 0 <= i < |appts| ==> r[|appts|].id != appts[i].id || !IdsAreIndices(appts)
    ensures IdsAreIndices(appts) ==> IdsAreIndices(r)
  {
    appts + [Appointment(|appts|, doc, user, day, time, Active)]
  }

  /** The cancellation lookup: the first appointment with this id that belongs to `user`. */
  function FindOwned(appts: Appointments, id: nat, user: UserId): (r: Option<nat>)
    ensures r.None? <==> forall j :: 0 <= j < |appts| ==> !(appts[j].id == id && appts[j].userId == user)
    ensures r.Some? ==> r.value < |appts| && appts[r.value].id == id && appts[r.value].userId == user
    ensures r.Some? ==> forall j :: 0 <= j < r.value ==> !(appts[j].id == id && appts[j].userId == user)
    ensures IdsAreIndices(appts) ==> (r.Some? <==> id < |appts| && appts[id].userId == user)
    ensures IdsAreIndices(appts) && r.Some? ==> r.value == id
  {
    Seqs.FirstMatch(appts, (a: Appointment) => a.id == id && a.userId == user)
  }

  /** Setting one appointment's status to cancelled; every field but the status is kept. */
  function MarkCancelled(appts: Appointments, i: nat): (r: Appointments)
    requires i < |appts|
    ensures |r| == |appts| && r[i].status == Cancelled
    ensures r[i] == appts[i].(status := Cancelled)
    ensures forall j :: 0 <= j < |appts| && j != i ==> r[j] == appts[j]
    ensures IdsAreIndices(appts) ==> IdsAreIndices(r)
  {
    appts[i := appts[i].(status := Cancelled)]
  }
}
