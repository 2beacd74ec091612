/** The reservations collection and the rule that guards it: a room cannot be
    booked twice for overlapping times on the same date.

    Times and dates are the strings the booking form submits; the store
    compares them as strings, so `LexOrder.Less` is the comparison here
    (module `FixedWidth` shows it is time and calendar order on well-formed
    values). Intervals are half-open, `[startTime, endTime)`. */
module ReservationLedger {
  import opened Wrappers
  import opened LexOrder
  import opened Documents

  /** What a booking occupies: one room, on one date, between two times. */
  datatype Slot = Slot(roomId: Id, date: string, startTime: string, endTime: string)

  /** A stored reservation document. */
  datatype Reservation = Reservation(
    id: Id,
    roomId: Id,
    userId: Id,
    date: string,
    startTime: string,
    endTime: string)
  {
    function Occupies(): (s: Slot)
    {
      Slot(roomId, date, startTime, endTime)
    }
  }

  /** The JSON body of a booking request. */
  datatype BookingRequest = BookingRequest(
    roomId: Id,
    userId: Id,
    date: string,
    startTime: string,
    endTime: string)
  {
    function Occupies(): (s: Slot)
    {
      Slot(roomId, date, startTime, endTime)
    }

    /** The document the request becomes once stored under `id`. */
    function Book(id: Id): (r: Reservation)
    {
      Reservation(id, roomId, userId, date, startTime, endTime)
    }
  }

  type Ledger = seq<Reservation>

  /** The store's conflict query, for a stored slot `held` and a requested
      slot `wanted`: same room, same date, `held.startTime < wanted.endTime`
      and `held.endTime > wanted.startTime`. No check that a start precedes
      its end is made anywhere. */
  predicate Overlap(held: Slot, wanted: Slot)
  {
    && held.roomId == wanted.roomId
    && held.date == wanted.date
    && Less(held.startTime, wanted.endTime)
    && Less(wanted.startTime, held.endTime)
  }

  /** Some stored reservation overlaps `wanted`. */
  predicate Conflicting(ledger: Ledger, wanted: Slot)
  {
    exists i :: 0 <= i < |ledger| && Overlap(ledger[i].Occupies(), wanted)
  }

  /** No two distinct stored reservations overlap. */
  predicate NoDoubleBooking(ledger: Ledger)
  {
    forall i, j :: 0 <= i < |ledger| && 0 <= j < |ledger| && i != j ==>
      !Overlap(ledger[i].Occupies(), ledger[j].Occupies())
  }

  /** The conflict query: the position of an overlapping reservation, if
      there is one. The store's `findOne` promises no particular match; the
      model scans in ledger order and reports the first, a choice that does
      not matter because only whether a match exists decides the reply. */
  function FirstConflict(ledger: Ledger, wanted: Slot): (r: Option<nat>)
    ensures r.Some? ==> r.value < |ledger| && Overlap(ledger[r.value].Occupies(), wanted)
    ensures r.Some? ==> forall j :: 0 <= j < r.value ==> !Overlap(ledger[j].Occupies(), wanted)
    ensures r.None? <==> !Conflicting(ledger, wanted)
  {
    if |ledger| == 0 then None
    else if Overlap(ledger[0].Occupies(), wanted) then Some(0)
    else
      match FirstConflict(ledger[1..], wanted)
      case None => None
      case Some(k) => Some(k + 1)
  }

  /** The overlap test is symmetric: whichever of two bookings came first,
      they clash or they do not. */
  lemma OverlapSymmetric(a: Slot, b: Slot)
    ensures Overlap(a, b) <==> Overlap(b, a)
  {
  }

  /** Intervals that only touch do not overlap: both comparisons are strict. */
  lemma TouchingSlotsDoNotOverlap(a: Slot, b: Slot)
    requires a.endTime == b.startTime
    ensures !Overlap(a, b) && !Overlap(b, a)
  {
    LessIrreflexive(a.endTime);
  }

  /** Only a reservation for the same room and the same date can overlap. */
  lemma OverlapNeedsSameRoomAndDate(a: Slot, b: Slot)
    requires a.roomId != b.roomId || a.date != b.date
    ensures !Overlap(a, b)
  {
  }
}
