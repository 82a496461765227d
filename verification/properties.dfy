/**
 Properties that relate several controller steps: the invariant both writes
 keep, slot exclusivity across any run of later bookings, the idempotence of
 cancelling, and what cancelling does and does not give back.
 */
module BookingProperties {
  import opened Wrappers
  import opened Dates
  import opened Calendar
  import opened Ledger
  import opened AppointmentController

  /** Booking keeps ids distinct and slot keys unique. */
  lemma BookPreservesValid(st: State, user: UserId, req: BookRequest)
    requires Valid(st)
    ensures Valid(Book(st, user, req).state)
  {
  }

  /** Cancelling keeps ids distinct and slot keys unique. */
  lemma CancelPreservesValid(st: State, user: UserId, id: nat)
    requires Valid(st)
    ensures Valid(Cancel(st, user, id).state)
  {
  }

  /** Booking keeps the ledger free of two appointments for one doctor, user, day and time. */
  lemma BookKeepsNoDuplicates(st: State, user: UserId, req: BookRequest)
    requires NoDuplicateBookings(st.appointments)
    ensures NoDuplicateBookings(Book(st, user, req).state.appointments)
  {
  }

  /** Cancelling changes only a status, so the ledger stays free of duplicates. */
  lemma CancelKeepsNoDuplicates(st: State, user: UserId, id: nat)
    requires NoDuplicateBookings(st.appointments)
    ensures NoDuplicateBookings(Cancel(st, user, id).state.appointments)
  {
  }

  /** A booking never makes a slot bookable: it only turns available slots into confirmed ones. */
  lemma BookKeepsNoneBookable(st: State, user: UserId, req: BookRequest, doc: DoctorId, day: int, time: TimeLabel)
    requires NoneBookable(st.doctors, doc, day, time)
    ensures NoneBookable(Book(st, user, req).state.doctors, doc, day, time)
  {
  }

  /** Once a booking confirms a slot, no slot of that doctor is bookable for that day and time. */
  lemma ConfirmedSlotIsTaken(st: State, user: UserId, req: BookRequest)
    requires UniqueSlotKeys(st.doctors)
    requires Book(st, user, req).outcome.BookingConfirmed?
    ensures NoneBookable(Book(st, user, req).state.doctors, req.doctorId, RequestedDay(req), req.time)
  {
  }

  /** One controller call in a run: a booking or a cancel, with the requester. */
  datatype Op =
    | BookOp(user: UserId, request: BookRequest)
    | CancelOp(user: UserId, id: nat)

  datatype OpOutcome = BookResult(book: BookOutcome) | CancelResult(cancel: CancelOutcome)

  datatype Run = Run(outcomes: seq<OpOutcome>, state: State)

  /** The call was a booking and it was confirmed. */
  predicate Confirms(o: OpOutcome) {
    o.BookResult? && o.book.BookingConfirmed?
  }

  /** The state one call leaves. */
  function Apply(st: State, op: Op): State {
    match op
    case BookOp(user, req) => Book(st, user, req).state
    case CancelOp(user, id) => Cancel(st, user, id).state
  }

  /** Processing calls one after the other; one outcome per call. */
  function RunOps(st: State, ops: seq<Op>): (r: Run)
    ensures |r.outcomes| == |ops|
    decreases |ops|
  {
    if |ops| == 0 then Run([], st)
    else
      var outcome := match ops[0]
        case BookOp(user, req) => BookResult(Book(st, user, req).outcome)
        case CancelOp(user, id) => CancelResult(Cancel(st, user, id).outcome);
      var rest := RunOps(Apply(st, ops[0]), ops[1..]);
      Run([outcome] + rest.outcomes, rest.state)
  }

  /** No cancel in the run, at the point it runs, finds an appointment for (`doc`, `day`, `time`). */
  ghost predicate CancelsMissKey(st: State, ops: seq<Op>, doc: DoctorId, day: int, time: TimeLabel)
    decreases |ops|
  {
    if |ops| == 0 then true
    else
      && (ops[0].CancelOp? ==>
            forall j :: 0 <= j < |st.appointments| && st.appointments[j].id == ops[0].id && st.appointments[j].userId == ops[0].user ==>
              !(st.appointments[j].doctorId == doc && st.appointments[j].day == day && st.appointments[j].time == time))
      && CancelsMissKey(Apply(st, ops[0]), ops[1..], doc, day, time)
  }

  /** A run that contains only bookings. */
  predicate OnlyBookings(ops: seq<Op>) {
    forall k :: 0 <= k < |ops| ==> ops[k].BookOp?
  }

  lemma {:induction false} OnlyBookingsMissKey(st: State, ops: seq<Op>, doc: DoctorId, day: int, time: TimeLabel)
    requires OnlyBookings(ops)
    ensures CancelsMissKey(st, ops, doc, day, time)
    decreases |ops|
  {
    if |ops| > 0 {
      assert forall k :: 0 <= k < |ops[1..]| ==> ops[1..][k] == ops[k + 1];
      OnlyBookingsMissKey(Apply(st, ops[0]), ops[1..], doc, day, time);
    }
  }

  /** While no slot is bookable for a key, and no cancel in the run finds an appointment for that
      key, no booking of the key in the run succeeds, and the key stays taken. */
  lemma {:induction false} NoBookingWhileTaken(st: State, ops: seq<Op>, doc: DoctorId, day: int, time: TimeLabel)
    requires NoneBookable(st.doctors, doc, day, time)
    requires CancelsMissKey(st, ops, doc, day, time)
    ensures forall k :: 0 <= k < |ops| && ops[k].BookOp? && Targets(ops[k].request, doc, day, time) ==>
      !Confirms(RunOps(st, ops).outcomes[k])
    ensures NoneBookable(RunOps(st, ops).state.doctors, doc, day, time)
    decreases |ops|
  {
    if |ops| > 0 {
      var next := Apply(st, ops[0]);
      match ops[0] {
        case BookOp(user, req) => BookKeepsNoneBookable(st, user, req, doc, day, time);
        case CancelOp(user, id) => CancelOtherKeyKeepsNoneBookable(st, user, id, doc, day, time);
      }
      NoBookingWhileTaken(next, ops[1..], doc, day, time);
      var r := RunOps(st, ops);
      forall k | 0 <= k < |ops| && ops[k].BookOp? && Targets(ops[k].request, doc, day, time)
        ensures !Confirms(r.outcomes[k])
      {
        if k > 0 {
          assert ops[1..][k - 1] == ops[k];
          assert r.outcomes[k] == RunOps(next, ops[1..]).outcomes[k - 1];
        }
      }
    }
  }

  /** After a booking confirms a slot, every later booking of the same doctor, day and time, by
      any user, fails, for as long as no cancel finds an appointment for that key; in particular
      throughout any run of bookings alone. */
  lemma BookedSlotIsExclusive(st: State, user: UserId, req: BookRequest, ops: seq<Op>)
    requires UniqueSlotKeys(st.doctors)
    requires Book(st, user, req).outcome.BookingConfirmed?
    requires CancelsMissKey(Book(st, user, req).state, ops, req.doctorId, RequestedDay(req), req.time)
      || OnlyBookings(ops)
    ensures forall k :: 0 <= k < |ops| && ops[k].BookOp? && Targets(ops[k].request, req.doctorId, RequestedDay(req), req.time) ==>
      !Confirms(RunOps(Book(st, user, req).state, ops).outcomes[k])
  {
    var after := Book(st, user, req).state;
    ConfirmedSlotIsTaken(st, user, req);
    if OnlyBookings(ops) {
      OnlyBookingsMissKey(after, ops, req.doctorId, RequestedDay(req), req.time);
    }
    NoBookingWhileTaken(after, ops, req.doctorId, RequestedDay(req), req.time);
  }

  /** Cancelling an appointment for another doctor, day or time does not make this key bookable. */
  lemma CancelOtherKeyKeepsNoneBookable(st: State, user: UserId, id: nat, doc: DoctorId, day: int, time: TimeLabel)
    requires NoneBookable(st.doctors, doc, day, time)
    requires forall j :: 0 <= j < |st.appointments| && st.appointments[j].id == id && st.appointments[j].userId == user ==>
      !(st.appointments[j].doctorId == doc && st.appointments[j].day == day && st.appointments[j].time == time)
    ensures NoneBookable(Cancel(st, user, id).state.doctors, doc, day, time)
  {
  }

  /** The cancel writes the first appointment it finds and that appointment's slot. */
  lemma CancelAt(st: State, user: UserId, id: nat, i: nat)
    requires i < |st.appointments| && st.appointments[i].id == id && st.appointments[i].userId == user
    requires forall j :: 0 <= j < i ==> !(st.appointments[j].id == id && st.appointments[j].userId == user)
    ensures
      var a := st.appointments[i];
      Cancel(st, user, id)
        == CancelStep(AppointmentCancelled, State(Release(st.doctors, a.doctorId, a.day, a.time), MarkCancelled(st.appointments, i)))
  {
    var f := FindOwned(st.appointments, id, user);
    assert f.Some?;
    assert !(f.value < i) && !(i < f.value);
  }

  /** Cancelling twice ends where cancelling once does. */
  lemma CancelIdempotent(st: State, user: UserId, id: nat)
    ensures Cancel(Cancel(st, user, id).state, user, id) == Cancel(st, user, id)
  {
    var appts := st.appointments;
    var f := FindOwned(appts, id, user);
    if f.Some? {
      var i := f.value;
      var a := appts[i];
      CancelAt(st, user, id, i);
      var once := Cancel(st, user, id).state;
      assert forall j :: 0 <= j < |appts| ==>
        once.appointments[j].id == appts[j].id && once.appointments[j].userId == appts[j].userId;
      CancelAt(once, user, id, i);
      assert once.appointments[i] == a.(status := Cancelled);
      ReleaseIdempotent(st.doctors, a.doctorId, a.day, a.time);
      assert MarkCancelled(once.appointments, i) == once.appointments;
    }
  }

  /** With distinct ids, a cancel fails exactly when the id is unknown or the appointment is someone else's;
      the two cases are not told apart. */
  lemma CancelNotFoundExactly(st: State, user: UserId, id: nat)
    requires IdsAreIndices(st.appointments)
    ensures Cancel(st, user, id).outcome.NotFound? <==> id >= |st.appointments| || st.appointments[id].userId != user
    ensures Cancel(st, user, id).outcome.NotFound? ==> Cancel(st, user, id).state == st
  {
  }

  /** The state a booking followed by its owner's cancel leaves: the ledger gains the
      appointment in cancelled form, and the key is bookable again. */
  lemma BookThenCancel(st: State, owner: UserId, req: BookRequest)
    requires IdsAreIndices(st.appointments)
    requires AtMidnight(st.doctors, req.doctorId)
    requires Book(st, owner, req).outcome.BookingConfirmed?
    ensures
      var booked := Book(st, owner, req);
      var cancelled := Cancel(booked.state, owner, booked.outcome.appointment.id);
      && cancelled.outcome.AppointmentCancelled?
      && cancelled.state.appointments == st.appointments + [booked.outcome.appointment.(status := Cancelled)]
      && !NoneBookable(cancelled.state.doctors, req.doctorId, RequestedDay(req), req.time)
  {
    var doc, day, time := req.doctorId, RequestedDay(req), req.time;
    var booked := Book(st, owner, req);
    var a := booked.outcome.appointment;
    var n := |st.appointments|;
    assert booked.state.appointments[n] == a;
    assert IdsAreIndices(booked.state.appointments);
    var cancelled := Cancel(booked.state, owner, a.id);
    assert cancelled.outcome.AppointmentCancelled?;
    var i: nat :| FirstBookable(st.doctors[doc], i, day, time) && UpdatedAt(st.doctors, booked.state.doctors, doc, i, Confirmed);
    assert Releasable(booked.state.doctors[doc][i], day, time);
    assert cancelled.state.doctors == Release(booked.state.doctors, doc, day, time);
    ReleaseMakesBookable(booked.state.doctors, doc, day, time, i);
  }

  /**
   Book and cancel are inverse on the calendar. With unique slot keys and the
   doctor's slots dated at midnight, the owner's cancel of a fresh booking
   gives back exactly the slots before the booking. The ledger keeps the
   appointment, now cancelled.
   */
  lemma BookCancelRoundTrip(st: State, owner: UserId, req: BookRequest)
    requires Valid(st)
    requires AtMidnight(st.doctors, req.doctorId)
    requires Book(st, owner, req).outcome.BookingConfirmed?
    ensures
      var booked := Book(st, owner, req);
      var cancelled := Cancel(booked.state, owner, booked.outcome.appointment.id);
      && cancelled.outcome.AppointmentCancelled?
      && cancelled.state.doctors == st.doctors
      && cancelled.state.appointments == st.appointments + [booked.outcome.appointment.(status := Cancelled)]
  {
    var doc, day, time := req.doctorId, RequestedDay(req), req.time;
    var booked := Book(st, owner, req);
    BookThenCancel(st, owner, req);
    var cancelled := Cancel(booked.state, owner, booked.outcome.appointment.id);
    assert booked.state.doctors == TryConfirm(st.doctors, doc, day, time).value;
    assert cancelled.state.doctors == Release(booked.state.doctors, doc, day, time);
    ConfirmThenReleaseRoundTrip(st.doctors, doc, day, time);
  }

  /**
   Book, cancel, rebook. When the doctor's slots are stored at midnight, a
   booking that is then cancelled by its owner frees the slot for another
   user. The owner cannot rebook it: the cancelled appointment still counts
   as a duplicate.
   */
  lemma CancelThenRebook(st: State, owner: UserId, other: UserId, req: BookRequest)
    requires IdsAreIndices(st.appointments)
    requires !MissingField(req) && owner != other
    requires AtMidnight(st.doctors, req.doctorId)
    requires !NoneBookable(st.doctors, req.doctorId, RequestedDay(req), req.time)
    requires !HasBooking(st.appointments, req.doctorId, owner, RequestedDay(req), req.time)
    requires !HasBooking(st.appointments, req.doctorId, other, RequestedDay(req), req.time)
    ensures Book(st, owner, req).outcome.BookingConfirmed?
    ensures
      var booked := Book(st, owner, req);
      var cancelled := Cancel(booked.state, owner, booked.outcome.appointment.id);
      && cancelled.outcome.AppointmentCancelled?
      && Book(cancelled.state, other, req).outcome.BookingConfirmed?
      && Book(cancelled.state, owner, req).outcome == Duplicate
  {
    var doc, day, time := req.doctorId, RequestedDay(req), req.time;
    var booked := Book(st, owner, req);
    BookThenCancel(st, owner, req);
    var cancelled := Cancel(booked.state, owner, booked.outcome.appointment.id);
    var appts := cancelled.state.appointments;
    var n := |st.appointments|;
    assert SameBooking(appts[n], doc, owner, day, time);
    assert forall k :: 0 <= k < n ==> appts[k] == st.appointments[k];
    assert !HasBooking(appts, doc, other, day, time);
  }

  /**
   The asymmetry between the two date matches. Booking matches any slot on the
   requested day, but cancelling matches only a slot dated exactly midnight. A
   slot stored with a time of day can therefore be booked, and the cancel
   still reports success, but the slot stays confirmed: no later booking of
   that doctor, day and time can succeed.
   */
  lemma OffsetSlotStaysTaken(st: State, user: UserId, req: BookRequest)
    requires Valid(st)
    requires Book(st, user, req).outcome.BookingConfirmed?
    requires
      var slots := st.doctors[req.doctorId];
      forall j :: 0 <= j < |slots| && Truncate(slots[j].date) == RequestedDay(req) && slots[j].time == req.time ==>
        slots[j].date.offset != 0
    ensures
      var booked := Book(st, user, req);
      var cancelled := Cancel(booked.state, user, booked.outcome.appointment.id);
      && cancelled.outcome.AppointmentCancelled?
      && cancelled.state.doctors == booked.state.doctors
      && NoneBookable(cancelled.state.doctors, req.doctorId, RequestedDay(req), req.time)
  {
  }

  /** A booking request for doctor "d" at 10:00 on day 0. */
  const TenOClock: BookRequest := BookRequest("d", Some(Instant(0, 0)), "10:00")

  /** Doctor "d" with a single slot, at midnight of day 0 and labelled 10:00. */
  function OneSlot(status: SlotStatus): Doctors {
    map["d" := [Slot(Instant(0, 0), "10:00", status)]]
  }

  function Booking(id: nat, user: UserId, status: AppointmentStatus): Appointment {
    Appointment(id, "d", user, 0, "10:00", status)
  }

  /** Booking the single available slot of `OneSlot` confirms it and appends one appointment. */
  lemma BookOneSlot(appts: Appointments, user: UserId)
    requires !HasBooking(appts, "d", user, 0, "10:00")
    ensures Book(State(OneSlot(Available), appts), user, TenOClock)
         == BookStep(BookingConfirmed(Booking(|appts|, user, Active)), State(OneSlot(Confirmed), appts + [Booking(|appts|, user, Active)]))
  {
    var st := State(OneSlot(Available), appts);
    assert Bookable(st.doctors["d"][0], 0, "10:00");
    var r := Book(st, user, TenOClock);
    var i: nat :| FirstBookable(st.doctors["d"], i, 0, "10:00") && UpdatedAt(st.doctors, r.state.doctors, "d", i, Confirmed);
    assert i == 0;
    var slots := st.doctors["d"];
    assert slots[0 := slots[0].(status := Confirmed)] == OneSlot(Confirmed)["d"];
    assert r.state.doctors == st.doctors["d" := OneSlot(Confirmed)["d"]];
  }

  /** Cancelling appointment 0 as its owner releases the slot of `OneSlot`, whatever its status. */
  lemma CancelOneSlot(appts: Appointments, status: SlotStatus)
    requires |appts| > 0 && appts[0] == Booking(0, "A", appts[0].status)
    ensures Cancel(State(OneSlot(status), appts), "A", 0)
         == CancelStep(AppointmentCancelled, State(OneSlot(Available), appts[0 := Booking(0, "A", Cancelled)]))
  {
    var st := State(OneSlot(status), appts);
    var r := Cancel(st, "A", 0);
    assert r.outcome.AppointmentCancelled?;
    var i: nat :| i < |appts| && appts[i].id == 0 && appts[i].userId == "A"
      && (forall j :: 0 <= j < i ==> !(appts[j].id == 0 && appts[j].userId == "A"))
      && r.state.appointments == appts[i := appts[i].(status := Cancelled)]
      && r.state.doctors == Release(st.doctors, appts[i].doctorId, appts[i].day, appts[i].time);
    assert i == 0;
    assert Releasable(st.doctors["d"][0], 0, "10:00");
    var m: nat :| FirstReleasable(st.doctors["d"], m, 0, "10:00") && UpdatedAt(st.doctors, r.state.doctors, "d", m, Available);
    assert m == 0;
    var slots := st.doctors["d"];
    assert slots[0 := slots[0].(status := Available)] == OneSlot(Available)["d"];
    assert r.state.doctors == st.doctors["d" := OneSlot(Available)["d"]];
  }

  /**
   Cancel does not look at the appointment's status, so a second cancel of an
   already cancelled appointment releases the slot again, even after someone
   else has booked it. The run below starts from one available slot: A books,
   A cancels, B books, A cancels the same appointment again, and C books. Both
   B's and C's appointments are then active for the same doctor, day and time.
   */
  lemma RepeatedCancelDoubleBooks()
    ensures
      var b1 := Book(State(OneSlot(Available), []), "A", TenOClock);
      var c1 := Cancel(b1.state, "A", 0);
      var b2 := Book(c1.state, "B", TenOClock);
      var c2 := Cancel(b2.state, "A", 0);
      var b3 := Book(c2.state, "C", TenOClock);
      && b1.outcome.BookingConfirmed?
      && c1.outcome.AppointmentCancelled?
      && b2.outcome.BookingConfirmed?
      && c2.outcome.AppointmentCancelled?
      && b3.outcome.BookingConfirmed?
      && |b3.state.appointments| == 3
      && SameBooking(b3.state.appointments[1], "d", "B", 0, "10:00") && b3.state.appointments[1].status == Active
      && SameBooking(b3.state.appointments[2], "d", "C", 0, "10:00") && b3.state.appointments[2].status == Active
  {
    var a := Booking(0, "A", Active);
    var ac := Booking(0, "A", Cancelled);
    var b := Booking(1, "B", Active);
    BookOneSlot([], "A");
    assert [] + [a] == [a];
    CancelOneSlot([a], Confirmed);
    assert [a][0 := ac] == [ac];
    assert !SameBooking(ac, "d", "B", 0, "10:00");
    BookOneSlot([ac], "B");
    CancelOneSlot([ac, b], Confirmed);
    assert [ac, b][0 := ac] == [ac, b];
    assert !SameBooking(ac, "d", "C", 0, "10:00") && !SameBooking(b, "d", "C", 0, "10:00");
    BookOneSlot([ac, b], "C");
  }

  /**
   The code assumes, without checking, that a doctor has at most one slot per
   day and time label. Two available slots with the same key let two users
   book the same doctor, day and time one after the other.
   */
  lemma DuplicateSlotDoubleBooks()
    ensures
      var slot := Slot(Instant(0, 0), "10:00", Available);
      var st0 := State(map["d" := [slot, slot]], []);
      var b1 := Book(st0, "A", TenOClock);
      var b2 := Book(b1.state, "B", TenOClock);
      && b1.outcome.BookingConfirmed?
      && b2.outcome.BookingConfirmed?
      && b2.state.doctors["d"] == [slot.(status := Confirmed), slot.(status := Confirmed)]
  {
    var slot := Slot(Instant(0, 0), "10:00", Available);
    var st0 := State(map["d" := [slot, slot]], []);
    assert Bookable(st0.doctors["d"][0], 0, "10:00");
    var b1 := Book(st0, "A", TenOClock);
    var i: nat :| FirstBookable(st0.doctors["d"], i, 0, "10:00") && UpdatedAt(st0.doctors, b1.state.doctors, "d", i, Confirmed);
    assert i == 0;
    assert b1.state.doctors["d"] == [slot.(status := Confirmed), slot];
    assert Bookable(b1.state.doctors["d"][1], 0, "10:00");
    assert !SameBooking(b1.state.appointments[0], "d", "B", 0, "10:00");
    var b2 := Book(b1.state, "B", TenOClock);
    var k: nat :| FirstBookable(b1.state.doctors["d"], k, 0, "10:00") && UpdatedAt(b1.state.doctors, b2.state.doctors, "d", k, Confirmed);
    assert k == 1;
  }
}
