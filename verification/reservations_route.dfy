/** The `/api/reservations` route: `POST` books a room after the conflict
    check, `GET` lists bookings, optionally for one date, in
    `(date, startTime)` order. Each request is one atomic step from a
    ledger to a reply and a new ledger. */
module ReservationsRoute {
  import opened Wrappers
  import opened Http
  import opened Documents
  import opened ReservationLedger
  import opened ReservationOrder

  /** The error message of a rejected booking. */
  const SLOT_TAKEN: string := "Horário já ocupado"

  /** `POST /api/reservations`. `freshId` is the identifier the store
      generates for a new document; `fault` says which awaited call, if
      any, throws. */
  function Post(ledger: Ledger, request: BookingRequest, freshId: Id, fault: Fault)
    : (out: Step<Reservation, Ledger>)
    ensures fault == FailsOnConnect ==> out.reply == InternalError() && out.store == ledger
    ensures fault != FailsOnConnect ==>
      (out.reply.status == CONFLICT <==> Conflicting(ledger, request.Occupies()))
    ensures out.reply.status == CONFLICT ==>
      out.reply.body == Error(SLOT_TAKEN) && out.store == ledger
    ensures out.reply.status == CREATED <==>
      fault == NoFault && !Conflicting(ledger, request.Occupies())
    ensures out.reply.status == CREATED ==>
      && out.store == ledger + [request.Book(freshId)]
      && out.reply.body == Json(request.Book(freshId))
    ensures out.reply.status in {CREATED, CONFLICT, INTERNAL_ERROR}
    ensures out.reply.status == INTERNAL_ERROR ==> out.reply.body == Error(INTERNAL_ERROR_MESSAGE)
    ensures out.store == ledger || out.store == ledger + [request.Book(freshId)]
    ensures fault == FailsOnInsert ==> out.store == ledger
    ensures fault == FailsAfterInsert && !Conflicting(ledger, request.Occupies()) ==>
      out.reply.status == INTERNAL_ERROR && out.store == ledger + [request.Book(freshId)]
  {
    if fault == FailsOnConnect then
      Step(InternalError(), ledger)
    else if FirstConflict(ledger, request.Occupies()).Some? then
      Step(Reply(CONFLICT, Error(SLOT_TAKEN)), ledger)
    else if fault == FailsOnInsert then
      Step(InternalError(), ledger)
    else
      var stored := ledger + [request.Book(freshId)];
      if fault == FailsAfterInsert then
        Step(InternalError(), stored)
      else
        assert fault == NoFault;
        Step(Reply(CREATED, Json(request.Book(freshId))), stored)
  }

  /** The reservations a listing draws from: those on `date` when the query
      parameter is present and non-empty, every reservation otherwise. */
  function Selected(ledger: Ledger, date: Option<string>): (r: Ledger)
    ensures date.Some? && date.value != "" ==>
      forall x :: multiset(r)[x] == if x.date == date.value then multiset(ledger)[x] else 0
    ensures date.None? || date.value == "" ==> r == ledger
  {
    if date.Some? && date.value != "" then OnDate(ledger, date.value) else ledger
  }

  /** The reservations on `date`, in ledger order. */
  function OnDate(ledger: Ledger, date: string): (r: Ledger)
    ensures forall x :: multiset(r)[x] == if x.date == date then multiset(ledger)[x] else 0
  {
    if |ledger| == 0 then []
    else
      assert ledger == [ledger[0]] + ledger[1..];
      if ledger[0].date == date then [ledger[0]] + OnDate(ledger[1..], date)
      else OnDate(ledger[1..], date)
  }

  /** `GET /api/reservations[?date=...]`. The store never changes; when it
      is reachable the reply lists exactly the selected reservations,
      sorted by `(date, startTime)`. */
  function Get(ledger: Ledger, date: Option<string>, storeFails: bool)
    : (out: Step<seq<Reservation>, Ledger>)
    ensures out.store == ledger
    ensures storeFails ==> out.reply == InternalError()
    ensures !storeFails ==>
      && out.reply.status == OK
      && out.reply.body.Json?
      && Sorted(out.reply.body.value)
      && multiset(out.reply.body.value) == multiset(Selected(ledger, date))
  {
    if storeFails then
      Step(InternalError(), ledger)
    else
      var listing := SortByKey(Selected(ledger, date));
      SortByKeySorted(Selected(ledger, date));
      Step(Reply(OK, Json(listing)), ledger)
  }
}
