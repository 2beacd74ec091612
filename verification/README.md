# Coworking room booking: a Dafny model of the booking rules

This project models the server side of a coworking-space booking application.
It has three collections, each guarded by a check-then-insert rule:

- **Reservations** (`/api/reservations`). `POST` books a room for a date and a
  time interval. It answers 409 ("Horário já ocupado") when a stored
  reservation for the same room and date overlaps the request. Otherwise it
  stores the reservation and answers 201. `GET` lists the reservations,
  optionally for one date, sorted by `(date, startTime)`.
- **Rooms** (`/api/rooms`). `GET` lists every room. `POST` creates a room
  after the schema's field rules: `name` and `capacity` are required, and
  `resources` defaults to `''`.
- **Users** (`/api/auth/register`). `POST` refuses an email that is already
  registered (400, "Usuário já existe"). Otherwise it stores the user with a
  hashed password and a role that defaults to `'user'`. It answers with a
  signed token and a summary of the user.

Every request is one atomic step. It is a pure function from the store and
the request to a `Step` holding the reply (status and JSON body) and the new
store. Stores are immutable sequences of record datatypes.

**Times and dates.** The booking form writes zero-padded `"HH:MM"` times and
`"YYYY-MM-DD"` dates. The store compares them as strings. The model keeps them
as strings under `LexOrder.Less`, which is lexicographic order by code point.
Because UTF-8 byte order is code-point order, this is the order the store uses.
Module `FixedWidth` proves that on strings of one fixed-width shape this order
is numeric order. So for `"HH:MM"` it is time-of-day order, and for
`"YYYY-MM-DD"` it is calendar order.

**External calls become parameters.**

- The generated document id is a `freshId` argument.
- `parseInt` is a partial function `string -> Option<int>`. `None` stands for `NaN`.
- The bcrypt hash is a function `string -> string`. The salt's randomness is folded into it.
- The JWT signer is a function of the user's id, email and role. The secret, the expiry and the clock reading that stamps the issue time are folded into it, so it stands for one request's signer.
- A thrown exception is described by the `Http.Fault` argument. Its values are:
  - `FailsOnConnect`: the throw happens before the business check decides anything: in the connection, the request parsing, or the check's own query.
  - `FailsOnInsert`: the business check runs, then the insert throws.
  - `FailsAfterInsert`: the record is stored, then a later call throws.

  The `GET` handlers and the room `POST` take a boolean instead, because they
  have no business check or nothing after the insert.

**Behaviour worth noting:**

- A room's capacity only has to be present and numeric. Nothing requires it
  to be positive (`RoomProperties.AnyCapacityIsAccepted`).
- A successful registration answers 200: the handler sets no status, so the
  default applies.
- Nothing checks that `startTime < endTime`. The no-double-booking invariant
  is proved without that assumption.
- A failure after the insert answers 500 even though the record is already
  stored. This happens when the re-read of a new reservation throws, or when
  token signing throws for a new user.

## Model

| member | source | states |
|---|---|---|
| `LexOrder.LessIrreflexive` | src/app/api/reservations/route.ts:43-44 | no string is strictly below itself under the store's string order |
| `LexOrder.LessAsymmetric` | src/app/api/reservations/route.ts:43-44 | two strings are never each strictly below the other |
| `LexOrder.LessTransitive` | src/app/api/reservations/route.ts:43-44 | the string order is transitive |
| `LexOrder.LessTrichotomous` | src/app/api/reservations/route.ts:43-44 | any two strings are equal or ordered one way: the order is total |
| `LexOrder.NotLessIsGreaterOrEqual` | src/app/api/reservations/route.ts:43-44 | "not `a < b`" is exactly "`b <= a`" |
| `LexOrder.LessOrEqualTransitive` | src/app/api/reservations/route.ts:19 | non-strict string order is transitive |
| `FixedWidth.ValueBound` | src/app/user/page.tsx:259-286 | a string of n decimal digits denotes a number below 10^n |
| `FixedWidth.LessIsNumericOrder` | src/app/user/page.tsx:259-286 | two strings with digits in the same positions and equal separators compare as strings exactly as the numbers their digits spell |
| `FixedWidth.ClockOrderIsTimeOrder` | src/app/user/page.tsx:268-286 | on "HH:MM" values the string order is the order of minutes since midnight |
| `FixedWidth.DateOrderIsCalendarOrder` | src/app/user/page.tsx:259-266 | on "YYYY-MM-DD" values the string order is by year, then month, then day |
| `ReservationLedger.FirstConflict` | src/app/api/reservations/route.ts:37-48 | the conflict query finds a stored reservation of the same room and date with `r.startTime < endTime` and `r.endTime > startTime` exactly when one exists; which match it reports (the first in ledger order) is a modelling choice, since only whether one exists is used |
| `ReservationLedger.OverlapSymmetric` | src/app/api/reservations/route.ts:43-44 | the overlap test does not depend on which booking came first |
| `ReservationLedger.TouchingSlotsDoNotOverlap` | src/app/api/reservations/route.ts:43-44 | intervals that only touch (one ends where the other starts) do not overlap, since both comparisons are strict |
| `ReservationLedger.OverlapNeedsSameRoomAndDate` | src/app/api/reservations/route.ts:37-39 | a reservation for another room or another date never overlaps |
| `ReservationsRoute.Post` | src/app/api/reservations/route.ts:31-77 | status 409 iff some stored reservation overlaps; on 409 the body is the error message and the ledger is unchanged; status 201 iff no fault and no overlap, with exactly the submitted reservation appended and returned; a thrown failure answers 500, and only one after the insert leaves the reservation stored |
| `ReservationsRoute.OnDate` | src/app/api/reservations/route.ts:11-16 | keeps every reservation of the given date, with its multiplicity, and nothing else |
| `ReservationsRoute.Selected` | src/app/api/reservations/route.ts:9-16 | a present, non-empty `date` restricts the listing to that date; an absent or empty one selects everything |
| `ReservationsRoute.Get` | src/app/api/reservations/route.ts:5-29 | the store is never changed; without a fault the reply is 200 with a permutation of the selected reservations in `(date, startTime)` order; with one, the generic 500 |
| `ReservationOrder.KeyLeTotal` | src/app/api/reservations/route.ts:19 | any two reservations are comparable by `(date, startTime)` |
| `ReservationOrder.KeyLeTransitive` | src/app/api/reservations/route.ts:19 | the `(date, startTime)` order is transitive |
| `ReservationOrder.Insert` | src/app/api/reservations/route.ts:19 | inserting into the listing adds exactly the one reservation |
| `ReservationOrder.SortByKey` | src/app/api/reservations/route.ts:16-19 | sorting returns a permutation of its input |
| `ReservationOrder.InsertSorted` | src/app/api/reservations/route.ts:19 | inserting into a sorted listing keeps it sorted |
| `ReservationOrder.SortByKeySorted` | src/app/api/reservations/route.ts:19 | the sorted listing is in non-decreasing `(date, startTime)` order |
| `ReservationProperties.PostPreservesNoDoubleBooking` | src/app/api/reservations/route.ts:37-63 | if no two stored reservations overlap before a booking request, none do after it, whatever its outcome and even for inverted intervals |
| `ReservationProperties.UnrelatedBookingsAreIgnored` | src/app/api/reservations/route.ts:37-39 | adding reservations for other rooms or dates to the ledger changes no reply |
| `ReservationProperties.SecondBookingRefusedIffOverlap` | src/app/api/reservations/route.ts:37-57 | after booking `[a, b)`, a booking `[c, d)` of the same room and date is refused iff `a < d` and `c < b` |
| `ReservationProperties.OverlapIsTimeOverlap` | src/app/api/reservations/route.ts:43-44 | for "HH:MM" times the conflict test is the overlap of the time-of-day intervals in minutes |
| `ReservationProperties.TouchingBookingsScenario` | src/app/api/reservations/route.ts:37-69 | 09:00-10:00 then 10:00-11:00 of one room on one date are both created; 09:30-10:30 is then refused and the ledger keeps the two |
| `ReservationProperties.FailureAfterInsertStillBooks` | src/app/api/reservations/route.ts:57-76 | when the re-read after the insert throws, the reply is 500 but the ledger is the same as on success |
| `ReservationProperties.ListingForDate` | src/app/api/reservations/route.ts:11-19 | a listing for a date holds exactly that date's reservations with their multiplicities, in non-decreasing start time |
| `ReservationProperties.ListingWithoutDate` | src/app/api/reservations/route.ts:11-19 | a listing without a date, or with an empty one, is a permutation of the whole ledger |
| `ReservationProperties.BookingIsListed` | src/app/api/reservations/route.ts:11-19 | a booking answered with 201 appears in the listing for its date |
| `RoomSchema.Validate` | src/models/Room.ts:3-15 | a room is valid iff its name is present and non-empty and its capacity is a number; a valid room keeps name and capacity, and its resources are the given text or `''` when absent |
| `RoomsRoute.GetRooms` | src/app/api/rooms/route.ts:5-17 | the store is unchanged; without a fault the reply is 200 with exactly the stored rooms (the same multiset); with one, the generic 500 |
| `RoomsRoute.PostRoom` | src/app/api/rooms/route.ts:19-38 | 201 iff no fault and the schema accepts the fields; the created room has the fresh id, the submitted name, `parseInt(capacity)`, and the resources or `''`, and is appended after the unchanged rooms; any failure answers the generic 500 and stores nothing |
| `RoomProperties.CreatedRoomIsListed` | src/app/api/rooms/route.ts:8-30 | after a 201, `GET` lists the new room with the submitted fields and still lists every earlier room |
| `RoomProperties.RoomWithoutNameIsRefused` | src/models/Room.ts:4-7 | a missing or empty name yields the generic 500 and no room |
| `RoomProperties.RoomWithoutCapacityIsRefused` | src/models/Room.ts:8-11 | a missing or unparsable capacity yields the generic 500 and no room |
| `RoomProperties.AnyCapacityIsAccepted` | src/models/Room.ts:8-11 | the schema accepts zero and negative capacities unchanged |
| `RoomProperties.PostRoomKeepsIdsDistinct` | src/app/api/rooms/route.ts:24-28 | room ids stay pairwise distinct when each insert gets an unused id |
| `RegisterRoute.RoleOrDefault` | src/app/api/auth/register/route.ts:30 | the stored role is the submitted role when it is present and non-empty, and `'user'` otherwise |
| `RegisterRoute.FindByEmail` | src/app/api/auth/register/route.ts:14 | the lookup finds a user with the email exactly when one is stored |
| `RegisterRoute.Register` | src/app/api/auth/register/route.ts:7-57 | 400 with "Usuário já existe" iff the email is taken, the store unchanged; 200 iff no fault and the email is new, with one user appended: fresh id, given name and email, `hash(password)`, the defaulted role, and a reply carrying the message, the token signed over id, email and role, and the stored user's summary; a throw at or before the insert answers 500 and stores nothing, one after the insert answers 500 with the user stored |
| `RegisterProperties.RegisterKeepsEmailsDistinct` | src/app/api/auth/register/route.ts:14-31 | emails stay pairwise distinct across every registration request |
| `RegisterProperties.SecondRegistrationIsRefused` | src/app/api/auth/register/route.ts:14-20 | registering an email again answers 400 and leaves the store as it was |
| `RegisterProperties.AnyoneMayRegisterAsAdmin` | src/app/api/auth/register/route.ts:30 | a request asking for role `'admin'` with a new email creates an administrator |
| `RegisterProperties.ReplyDescribesStoredUser` | src/app/api/auth/register/route.ts:23-49 | the stored password is the hash of the submitted one, and the reply's summary matches the stored user's id, name, email and role |

## Left out

- Room update and delete (`src/app/api/rooms/[id]/route.ts`) and reservation cancel (`src/app/api/reservations/[id]/route.ts`) are not part of this model.
- The `.populate` joins that replace `roomId` and `userId` with the room's name and the user's name and email are left out. The Reservation and User document models are not part of this model. Replies carry the stored record itself.
- Schema validation of reservation and user documents is left out, because those schemas are not part of this model. A validation throw there has the same effect as `FailsOnInsert`.
- Concurrency is left out. The conflict query and the insert are two separate store calls, so two simultaneous requests can both pass the check. The model treats each request as one atomic step.
- The React pages, `localStorage` sessions, redirects and `getWeekDates` are left out. They are UI and time-zone-dependent `Date` handling.
- Absent request fields are modelled only for the room body (`name`, `capacity`, `resources`) and the registration `role`. The booking fields (`roomId`, `userId`, `date`, `startTime`, `endTime`) and the registration `name`, `email` and `password` are always present strings. An absent one is left out: a missing `password` makes the hash call throw before the insert, and a missing booking field would reach the conflict query and the Reservation schema, which is not part of this model.
- JSON values of other types (numbers, `null`, objects) are not modelled. In particular, a `resources` of `null` is not modelled.
- ReservationsRoute.Get: it does not promise tie order. The store does not guarantee an order for reservations with equal `(date, startTime)`. The model's insertion sort keeps insertion order, but the contract only states sortedness and permutation.
- RoomsRoute.PostRoom: `parseInt` is an abstract partial function, and JavaScript's parsing rules are not modelled.
- Mongoose `timestamps`, `dbConnect` and console logging are storage and I/O plumbing.
