/**
 The doctors' published availability: each doctor owns a sequence of slots, and
 a slot is a date, a time label and a status. The two writes the controller
 issues against this collection are modelled here: the conditional flip of a
 bookable slot to confirmed, and the unconditional release of a slot.

 Both writes use the positional `$` operator, which rewrites the first array
 element the query matched. The model assumes that one element meets every
 condition of the query (the effect an `$elemMatch` query would have); without
 it the store may let different elements meet different conditions.
 */
module Calendar {
  import opened Wrappers
  import opened Dates
  import Seqs

  type DoctorId = string
  type TimeLabel = string

  datatype SlotStatus = Available | Confirmed

  datatype Slot = Slot(date: Instant, time: TimeLabel, status: SlotStatus)

  /** Every doctor's slot array, keyed by the doctor's id. */
  type Doctors = map<DoctorId, seq<Slot>>

  /** The booking query's condition on one slot: its date falls in the requested
      day's window (see Dates.WindowIsDay), its time label matches, and it is free. */
  predicate Bookable(s: Slot, day: int, time: TimeLabel) {
    Truncate(s.date) == day && s.time == time && s.status == Available
  }

  /** The release query's condition on one slot: its date is exactly midnight of
      the day, and its time label matches; the status is not consulted. */
  predicate Releasable(s: Slot, day: int, time: TimeLabel) {
    s.date == Midnight(day) && s.time == time
  }

  /** No slot of `doc` can be booked for (`day`, `time`); vacuous for an unknown doctor. */
  predicate NoneBookable(doctors: Doctors, doc: DoctorId, day: int, time: TimeLabel) {
    doc in doctors ==> forall j :: 0 <= j < |doctors[doc]| ==> !Bookable(doctors[doc][j], day, time)
  }

  /** Within one doctor, no two slots share a calendar day and a time label. */
  predicate UniqueSlotKeys(doctors: Doctors) {
    forall doc, i, j :: doc in doctors && 0 <= i < j < |doctors[doc]| ==>
      !(Truncate(doctors[doc][i].date) == Truncate(doctors[doc][j].date) && doctors[doc][i].time == doctors[doc][j].time)
  }

  /** `after` is `before` with the status of slot `i` of `doc` set to `status`, and nothing else changed. */
  ghost predicate UpdatedAt(before: Doctors, after: Doctors, doc: DoctorId, i: nat, status: SlotStatus) {
    && doc in before
    && i < |before[doc]|
    && after == before[doc := before[doc][i := before[doc][i].(status := status)]]
  }

  /** `i` is the first slot of `slots` the booking query matches. */
  ghost predicate FirstBookable(slots: seq<Slot>, i: nat, day: int, time: TimeLabel) {
    && i < |slots|
    && Bookable(slots[i], day, time)
    && forall j :: 0 <= j < i ==> !Bookable(slots[j], day, time)
  }

  /** `i` is the first slot of `slots` the release query matches. */
  ghost predicate FirstReleasable(slots: seq<Slot>, i: nat, day: int, time: TimeLabel) {
    && i < |slots|
    && Releasable(slots[i], day, time)
    && forall j :: 0 <= j < i ==> !Releasable(slots[j], day, time)
  }

  function SetStatus(slots: seq<Slot>, i: nat, status: SlotStatus): seq<Slot>
    requires i < |slots|
  {
    slots[i := slots[i].(status := status)]
  }

  /**
   The atomic find-and-update of the booking: for doctor `doc`, the first slot
   on `day` with label `time` whose status is available becomes confirmed. When
   the doctor is unknown or no slot qualifies, the store reports no match and
   nothing is written.
   */
  function TryConfirm(doctors: Doctors, doc: DoctorId, day: int, time: TimeLabel): (r: Option<Doctors>)
    ensures r.None? <==> NoneBookable(doctors, doc, day, time)
    ensures r.Some? ==> exists i :: FirstBookable(doctors[doc], i, day, time) && UpdatedAt(doctors, r.value, doc, i, Confirmed)
  {
    if doc !in doctors then None
    else
      match Seqs.FirstMatch(doctors[doc], s => Bookable(s, day, time))
      case None => None
      case Some(i) =>
        assert FirstBookable(doctors[doc], i, day, time);
        Some(doctors[doc := SetStatus(doctors[doc], i, Confirmed)])
  }

  /**
   The unconditional update of a cancellation: for doctor `doc`, the first slot
   dated exactly midnight of `day` with label `time` becomes available, whatever
   its status was. A query that matches nothing writes nothing and is not an error.
   */
  function Release(doctors: Doctors, doc: DoctorId, day: int, time: TimeLabel): (r: Doctors)
    ensures (doc !in doctors || forall j :: 0 <= j < |doctors[doc]| ==> !Releasable(doctors[doc][j], day, time)) ==> r == doctors
    ensures doc in doctors && (exists j :: 0 <= j < |doctors[doc]| && Releasable(doctors[doc][j], day, time)) ==>
      exists i :: FirstReleasable(doctors[doc], i, day, time) && UpdatedAt(doctors, r, doc, i, Available)
  {
    if doc !in doctors then doctors
    else
      match Seqs.FirstMatch(doctors[doc], s => Releasable(s, day, time))
      case None => doctors
      case Some(i) =>
        assert FirstReleasable(doctors[doc], i, day, time);
        doctors[doc := SetStatus(doctors[doc], i, Available)]
  }

  /** Releasing the same slot twice leaves the calendar as releasing it once. */
  lemma ReleaseIdempotent(doctors: Doctors, doc: DoctorId, day: int, time: TimeLabel)
    ensures Release(Release(doctors, doc, day, time), doc, day, time) == Release(doctors, doc, day, time)
  {
    var once := Release(doctors, doc, day, time);
    if doc in doctors && exists j :: 0 <= j < |doctors[doc]| && Releasable(doctors[doc][j], day, time) {
      var i: nat :| FirstReleasable(doctors[doc], i, day, time) && UpdatedAt(doctors, once, doc, i, Available);
      assert forall j :: 0 <= j < |doctors[doc]| ==> (Releasable(once[doc][j], day, time) <==> Releasable(doctors[doc][j], day, time));
      assert FirstReleasable(once[doc], i, day, time);
      var twice := Release(once, doc, day, time);
      var k: nat :| FirstReleasable(once[doc], k, day, time) && UpdatedAt(once, twice, doc, k, Available);
      assert k == i;
      assert once[doc][i] == once[doc][i].(status := Available);
      assert once[doc][i := once[doc][i].(status := Available)] == once[doc];
    }
  }

  /** Releasing a key for which some slot is dated exactly midnight leaves a bookable slot for that key. */
  lemma ReleaseMakesBookable(doctors: Doctors, doc: DoctorId, day: int, time: TimeLabel, i: nat)
    requires doc in doctors && i < |doctors[doc]| && Releasable(doctors[doc][i], day, time)
    ensures !NoneBookable(Release(doctors, doc, day, time), doc, day, time)
  {
    var r := Release(doctors, doc, day, time);
    var m: nat :| FirstReleasable(doctors[doc], m, day, time) && UpdatedAt(doctors, r, doc, m, Available);
    assert Bookable(r[doc][m], day, time);
  }

  /** Every slot of `doc` is dated at midnight of its day. */
  predicate AtMidnight(doctors: Doctors, doc: DoctorId) {
    doc in doctors ==> forall j :: 0 <= j < |doctors[doc]| ==> doctors[doc][j].date.offset == 0
  }

  /**
   Release undoes a confirmation: when the doctor's slots are dated at midnight
   and keys are unique, releasing the key just confirmed gives back exactly the
   calendar before the confirmation.
   */
  lemma ConfirmThenReleaseRoundTrip(doctors: Doctors, doc: DoctorId, day: int, time: TimeLabel)
    requires UniqueSlotKeys(doctors) && AtMidnight(doctors, doc)
    requires TryConfirm(doctors, doc, day, time).Some?
    ensures Release(TryConfirm(doctors, doc, day, time).value, doc, day, time) == doctors
  {
    var slots := doctors[doc];
    var i := Seqs.FirstMatch(slots, s => Bookable(s, day, time)).value;
    var confirmed := SetStatus(slots, i, Confirmed);
    assert TryConfirm(doctors, doc, day, time).value == doctors[doc := confirmed];
    FirstReleasableAfterConfirm(doctors, doc, i, day, time);
    ReleaseAt(doctors[doc := confirmed], doc, day, time, i);
    assert SetStatus(confirmed, i, Available) == slots;
  }

  /** With unique keys and midnight dates, the slot a booking confirmed is the first one its release matches. */
  lemma FirstReleasableAfterConfirm(doctors: Doctors, doc: DoctorId, i: nat, day: int, time: TimeLabel)
    requires UniqueSlotKeys(doctors) && AtMidnight(doctors, doc)
    requires doc in doctors && FirstBookable(doctors[doc], i, day, time)
    ensures FirstReleasable(SetStatus(doctors[doc], i, Confirmed), i, day, time)
  {
    var confirmed := SetStatus(doctors[doc], i, Confirmed);
    forall j | 0 <= j < i
      ensures !Releasable(confirmed[j], day, time)
    {
      assert confirmed[j] == doctors[doc][j];
    }
  }

  /** The release writes the first slot it matches. */
  lemma ReleaseAt(doctors: Doctors, doc: DoctorId, day: int, time: TimeLabel, i: nat)
    requires doc in doctors && FirstReleasable(doctors[doc], i, day, time)
    ensures Release(doctors, doc, day, time) == doctors[doc := SetStatus(doctors[doc], i, Available)]
  {
    var f := Seqs.FirstMatch(doctors[doc], s => Releasable(s, day, time));
    assert f.Some?;
    assert !(f.value < i) && !(i < f.value);
  }

  /** Neither write changes a slot's date or time label, so keys stay unique. */
  lemma TryConfirmKeepsKeys(doctors: Doctors, doc: DoctorId, day: int, time: TimeLabel)
    requires UniqueSlotKeys(doctors)
    ensures TryConfirm(doctors, doc, day, time).Some? ==> UniqueSlotKeys(TryConfirm(doctors, doc, day, time).value)
  {
  }

  lemma ReleaseKeepsKeys(doctors: Doctors, doc: DoctorId, day: int, time: TimeLabel)
    requires UniqueSlotKeys(doctors)
    ensures UniqueSlotKeys(Release(doctors, doc, day, time))
  {
  }
}
