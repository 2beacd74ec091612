/** What the reservations route guarantees across requests. */
module ReservationProperties {
  import opened Wrappers
  import opened Http
  import opened LexOrder
  import opened Documents
  import opened FixedWidth
  import opened ReservationLedger
  import opened ReservationOrder
  import opened ReservationsRoute

  /** Every booking request, whatever its outcome and even with an end
      before its start, leaves a ledger without double bookings if it found
      one. */
  lemma PostPreservesNoDoubleBooking(ledger: Ledger, request: BookingRequest, freshId: Id, fault: Fault)
    requires NoDoubleBooking(ledger)
    ensures NoDoubleBooking(Post(ledger, request, freshId, fault).store)
  {
  }

  /** Reservations for another room or another date never decide the outcome:
      appending any number of them to the ledger changes no reply. */
  lemma UnrelatedBookingsAreIgnored(ledger: Ledger, others: Ledger, request: BookingRequest, freshId: Id, fault: Fault)
    requires forall k :: 0 <= k < |others| ==>
      others[k].roomId != request.roomId || others[k].date != request.date
    ensures Post(ledger + others, request, freshId, fault).reply == Post(ledger, request, freshId, fault).reply
  {
    var wanted := request.Occupies();
    var all := ledger + others;
    if Conflicting(all, wanted) {
      var i :| 0 <= i < |all| && Overlap(all[i].Occupies(), wanted);
      assert ledger[i] == all[i];
    }
    if Conflicting(ledger, wanted) {
      var i :| 0 <= i < |ledger| && Overlap(ledger[i].Occupies(), wanted);
      assert all[i] == ledger[i];
    }
  }

  /** Two bookings of one room on one date: the second is refused exactly
      when the intervals `[a, b)` and `[c, d)` satisfy `a < d` and `c < b`. */
  lemma SecondBookingRefusedIffOverlap(first: BookingRequest, second: BookingRequest, firstId: Id, secondId: Id)
    requires first.roomId == second.roomId && first.date == second.date
    ensures Post([], first, firstId, NoFault).reply.status == CREATED
    ensures Post(Post([], first, firstId, NoFault).store, second, secondId, NoFault).reply.status == CONFLICT
      <==> Less(first.startTime, second.endTime) && Less(second.startTime, first.endTime)
  {
  }

  /** For "HH:MM" times the string comparison of the conflict query is the
      overlap of the two time-of-day intervals, in minutes. */
  lemma OverlapIsTimeOverlap(held: Slot, wanted: Slot)
    requires IsClock(held.startTime) && IsClock(held.endTime)
    requires IsClock(wanted.startTime) && IsClock(wanted.endTime)
    ensures Overlap(held, wanted) <==>
      && held.roomId == wanted.roomId
      && held.date == wanted.date
      && Minutes(held.startTime) < Minutes(wanted.endTime)
      && Minutes(wanted.startTime) < Minutes(held.endTime)
  {
    ClockOrderIsTimeOrder(held.startTime, wanted.endTime);
    ClockOrderIsTimeOrder(wanted.startTime, held.endTime);
  }

  /** Booking one hour, then the next hour, of the same room succeeds; a
      booking straddling the two is then refused. */
  lemma TouchingBookingsScenario()
    ensures
      var nine := BookingRequest("sala-a", "ana", "2024-01-10", "09:00", "10:00");
      var ten := BookingRequest("sala-a", "bia", "2024-01-10", "10:00", "11:00");
      var half := BookingRequest("sala-a", "caio", "2024-01-10", "09:30", "10:30");
      var first := Post([], nine, "r1", NoFault);
      var second := Post(first.store, ten, "r2", NoFault);
      var third := Post(second.store, half, "r3", NoFault);
      && first.reply.status == CREATED
      && second.reply.status == CREATED
      && third.reply.status == CONFLICT
      && third.store == [nine.Book("r1"), ten.Book("r2")]
  {
  }

  /** A booking whose reply was lost to a failure after the insert is
      nevertheless stored, and it is the only trace the request leaves. */
  lemma FailureAfterInsertStillBooks(ledger: Ledger, request: BookingRequest, freshId: Id)
    requires !Conflicting(ledger, request.Occupies())
    ensures Post(ledger, request, freshId, FailsAfterInsert).reply.status == INTERNAL_ERROR
    ensures Post(ledger, request, freshId, FailsAfterInsert).store == Post(ledger, request, freshId, NoFault).store
  {
  }

  /** A listing for one date holds exactly that date's reservations, each as
      many times as it is stored, ordered by start time. */
  lemma ListingForDate(ledger: Ledger, date: string)
    requires date != ""
    ensures
      var listing := Get(ledger, Some(date), false).reply.body.value;
      && (forall x :: multiset(listing)[x] == if x.date == date then multiset(ledger)[x] else 0)
      && (forall i, j :: 0 <= i < j < |listing| ==> LessOrEqual(listing[i].startTime, listing[j].startTime))
  {
    var listing := Get(ledger, Some(date), false).reply.body.value;
    forall i, j | 0 <= i < j < |listing|
      ensures LessOrEqual(listing[i].startTime, listing[j].startTime)
    {
      assert listing[i] in multiset(listing) && listing[j] in multiset(listing);
      assert KeyLe(listing[i], listing[j]);
      assert listing[i].date == date == listing[j].date;
      LessIrreflexive(date);
    }
  }

  /** Without a date, or with an empty one, the listing is every stored
      reservation, in `(date, startTime)` order. */
  lemma ListingWithoutDate(ledger: Ledger, date: Option<string>)
    requires date.None? || date.value == ""
    ensures multiset(Get(ledger, date, false).reply.body.value) == multiset(ledger)
  {
  }

  /** A successful booking shows up in the listing for its date. */
  lemma BookingIsListed(ledger: Ledger, request: BookingRequest, freshId: Id)
    requires request.date != ""
    requires Post(ledger, request, freshId, NoFault).reply.status == CREATED
    ensures request.Book(freshId) in Get(Post(ledger, request, freshId, NoFault).store, Some(request.date), false).reply.body.value
  {
  }
}
