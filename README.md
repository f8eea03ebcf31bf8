# Hotel reservation core, modelled in Dafny

This project models the reservation state machine of a hotel booking backend. The backend keeps
Rooms (each with an availability counter), Bookings and Payments. The core is made of:

- the booking service, which creates bookings (overlap check, sell-out check, nights and price,
  then inserts of booking and payment and the availability write) and cancels them;
- the payment callback, which moves a payment and its booking to their final statuses and gives
  the room's unit back when the payment failed;
- the room service (field validation, lookups, the availability filter and check);
- the booking and room repositories' queries and writes;
- the "Bearer <token>" header check and the ADMIN gate of the auth middleware.

Layout, one module per source file:

| file | module | source |
|---|---|---|
| domain.dfy | `Domain` | internal/domain/*.go |
| booking_repository.dfy | `BookingRepository` | internal/repository/booking_repository.go (queries) |
| room_repository.dfy | `RoomRepository` | internal/repository/room_repository.go (queries) |
| hotel_repository.dfy | `HotelRepository` | internal/repository/hotel_repository.go (lookup by id) |
| store.dfy | `Store` | the shared database and the repositories' writes |
| booking_service.dfy | `BookingService` | internal/service/booking_service.go |
| payment_service.dfy | `PaymentService` | internal/service/payment_service.go |
| room_service.dfy | `RoomService` | internal/service/room_service.go |
| auth.dfy | `Auth` | internal/middleware/auth.go |
| reservation.dfy | `Reservation` | all state-changing calls as one state machine |

How the model is built:

- The database is the class `Store.Database`. Its fields are the tables: a set of hotel ids,
  maps from id to Room and Booking, payments keyed by booking id, and a counter `nextId` that
  stands for the database's UUID generator. Keying payments by booking id models the unique index
  on `booking_id`. The repositories' writes are methods of this class.
- `Store.State` is a value snapshot of the same tables. Each state-changing service method
  (`CreateBooking`, `CancelBooking`, `HandlePaymentCallback`, `CreateRoom`, `UpdateRoom`) is
  proved to end in exactly the state and result of a pure step function (`CreateStep`,
  `CancelStep`, `CallbackStep`, `CreateRoomStep`, `UpdateRoomStep`). The properties are lemmas
  about those step functions.
- `Store.Valid` is what the database guarantees by construction. Rows sit under their own ids,
  every id is below `nextId`, and every payment points at an existing booking. Every call
  preserves it.
- Timestamps are integer hours. Prices are integers in minor units. Ids are naturals.
- The invariants are `AvailabilityNonNegative` (no room is oversold) and `NoOverlap` (no two
  PENDING/CONFIRMED bookings on one room overlap).

Behaviour of the code that the model keeps, and that a reader might not expect:

- Nights are the stay's hours divided by 24, truncated and not rounded up, and raised to 1 when
  below 1: a 36-hour stay is charged one night. The stay's length is a Go `time.Duration`, which
  saturates at 2562047 whole hours, so a longer stay is charged 106751 nights.
- Cancelling only sets the status to CANCELLED, from any status. The unit is not given back, and
  a repeated cancel succeeds again. `Reservation.CancelKeepsUnit` shows that after a cancel the
  same dates are refused as sold out.
- The service has no 30-day limit and does not reject a check-in in the past. It does not check
  `checkOut > checkIn` either; only the request's validation tag does.
- The payment callback has no status guard. A second non-success callback gives the unit back a
  second time. A SUCCESS callback for a booking that was cancelled makes it CONFIRMED again, and
  `Reservation.SuccessCallbackCanDoubleBook` builds two active overlapping bookings on one room
  that way, starting from a database whose room row is already stored. Every call other than a
  SUCCESS callback keeps `NoOverlap`; a failure callback only deactivates a booking
  (`Reservation.RunWithoutSuccessCallbacksKeepsNoOverlap`).
- The hotel lookup that CreateRoom and GetRoomsByHotel start with preloads an association named
  `Rooms`, which the Hotel record does not have (its field is `Room`). As written, both calls
  therefore answer "hotel not found" for every hotel. See "## Findings". The rest of the model
  uses the lookup with the association's own name.
- Create stores availability 1 when asked for 0, because the column has `default:1` and a zero
  value is left out of the insert.
- The `AdminOnly` middleware is defined but no route uses it; the router attaches only `AuthMiddleware`.

## Model

| member | source | states |
|---|---|---|
| `BookingRepository.FindActiveByRoom` | internal/repository/booking_repository.go:49-56 | the ids it reports are rows of the bookings table |
| `BookingRepository.FindActiveByRoomExact` | internal/repository/booking_repository.go:52-53 | a row is reported iff it is on the room, PENDING or CONFIRMED, and its stay overlaps [checkIn, checkOut) |
| `BookingRepository.BackToBackNotReported` | internal/repository/booking_repository.go:52 | a stay that ends when the new one begins, or begins when it ends, is not reported, whatever the order of the requested dates |
| `BookingRepository.InactiveNeverReported` | internal/repository/booking_repository.go:53 | CANCELLED and COMPLETED bookings are never reported |
| `BookingRepository.OverlapsSymmetric` | internal/repository/booking_repository.go:52 | the overlap test does not depend on which stay is the existing one |
| `BookingRepository.FindByID` | internal/repository/booking_repository.go:41-47 | the row under that id, or a not-found error exactly when there is none |
| `BookingRepository.UserBookingsBelow` | internal/repository/booking_repository.go:37 | every row it lists belongs to the user |
| `BookingRepository.UserBookingsBelowExact` | internal/repository/booking_repository.go:37 | the listed rows are exactly the user's rows, in strictly increasing id order |
| `BookingRepository.FindByUser` | internal/repository/booking_repository.go:33-39 | the result is ordered by creation time, newest first |
| `BookingRepository.FindByUserExact` | internal/repository/booking_repository.go:33-39 | the result holds every booking of the user exactly once and no other, newest first |
| `RoomRepository.FindByID` | internal/repository/room_repository.go:40-45 | the row under that id, or a not-found error exactly when there is none |
| `RoomRepository.FindByHotel` | internal/repository/room_repository.go:33-38 | every room listed belongs to the hotel |
| `RoomRepository.FindByHotelExact` | internal/repository/room_repository.go:33-38 | the listed rooms are exactly the hotel's rows, each once, in increasing id order |
| `RoomRepository.SetAvailability` | internal/repository/room_repository.go:47-49 | that room's availability becomes exactly v (absolute, not a delta); no other column or room changes; an unknown id changes nothing |
| `Store.Database.constructor` | pkg/database/postgres.go:47-55 | an empty database over the given hotels satisfies `Valid` |
| `Store.Database.InsertRoom` | internal/repository/room_repository.go:25-27 | adds one room under a fresh id, a zero availability stored as the column default 1; nothing else changes |
| `Store.Database.SaveRoom` | internal/repository/room_repository.go:29-31 | replaces the row with the same id; nothing else changes |
| `Store.Database.UpdateAvailability` | internal/repository/room_repository.go:47-49 | the rooms table becomes `SetAvailability` of the old one; nothing else changes |
| `Store.Database.InsertBooking` | internal/repository/booking_repository.go:25-27 | adds one booking under a fresh id, stamped with its creation time; nothing else changes |
| `Store.Database.SaveBooking` | internal/repository/booking_repository.go:29-31 | replaces the row with the same id; other bookings and tables are unchanged |
| `Store.Database.InsertPayment` | internal/repository/payment_repository.go:23-25 | adds one payment under its booking id, which must not have one yet (the unique index) |
| `Store.Database.SavePayment` | internal/repository/payment_repository.go:27-29 | replaces the booking's payment row; nothing else changes |
| `BookingService.Nights` | internal/service/booking_service.go:49-52 | at least 1; for a stay of 24 to 2562047 hours, the whole number of 24-hour days in it; 106751 for any longer stay, where the duration saturates; 1 for anything under 48 hours |
| `BookingService.CreateStep` | internal/service/booking_service.go:35-90 | fails with no state change; the overlap error iff an active booking on the room overlaps; room-not-found iff no overlap and no room; sold-out iff availability <= 0; succeeds iff none of these |
| `BookingService.CreateSucceeds` | internal/service/booking_service.go:49-80 | on success: one new PENDING booking with the given user, room and dates and price `Nights` of the saturated stay length times pricePerNight; that room's availability exactly one less, other rooms unchanged; one new PENDING payment for that booking with amount = totalPrice |
| `BookingService.CreatePreservesInvariants` | internal/service/booking_service.go:36-47 | keeps `Valid`, availability >= 0 and no overlap among active bookings on a room |
| `BookingService.CreateBooking` | internal/service/booking_service.go:35-90 | from a `Valid` database, ends in exactly the state and result of `CreateStep`, and the database is `Valid` again |
| `BookingService.CancelStep` | internal/service/booking_service.go:92-104 | not-found iff no such booking, not-owner iff another user's booking, both with no state change; rooms and payments are never touched |
| `BookingService.CancelEffect` | internal/service/booking_service.go:102-103 | the owner's cancel sets only that booking's status to CANCELLED, from any prior status |
| `BookingService.CancelIdempotent` | internal/service/booking_service.go:102-103 | a second identical cancel gives the same state and result |
| `BookingService.CancelPreservesInvariants` | internal/service/booking_service.go:92-104 | keeps `Valid`, availability >= 0 and no overlap |
| `BookingService.CancelBooking` | internal/service/booking_service.go:92-104 | from a `Valid` database, ends in exactly the state and result of `CancelStep`, and the database is `Valid` again |
| `BookingService.GetUserBookings` | internal/service/booking_service.go:106-108 | every booking of the user exactly once and no other, newest first |
| `PaymentService.CallbackStep` | internal/service/payment_service.go:27-59 | payment-not-found iff no payment for the booking id; booking-not-found iff a payment but no booking; both with no state change; a SUCCESS callback never touches rooms |
| `PaymentService.CallbackEffect` | internal/service/payment_service.go:38-58 | "SUCCESS" (exactly) gives payment SUCCESS and booking CONFIRMED; any other string gives FAILED and CANCELLED and one more unit on the booking's room if it exists; the payment gets the callback's transaction id; nothing else changes |
| `PaymentService.CallbackPreservesInvariants` | internal/service/payment_service.go:38-58 | keeps `Valid` and availability >= 0; a non-success callback also keeps no-overlap |
| `PaymentService.RepeatedSuccessIdempotent` | internal/service/payment_service.go:38-41 | a repeated SUCCESS callback changes nothing more |
| `PaymentService.RepeatedFailureIncrementsAgain` | internal/service/payment_service.go:42-50 | a repeated non-success callback gives the unit back a second time: availability + 2 |
| `PaymentService.HandlePaymentCallback` | internal/service/payment_service.go:27-59 | from a `Valid` database, ends in exactly the state and result of `CallbackStep`, and the database is `Valid` again |
| `RoomService.CheckFields` | internal/service/room_service.go:36-46 | passes iff price > 0, availability >= 0 and a room type; otherwise the first failing check in that order is the error |
| `HotelRepository.FindByID` | internal/repository/hotel_repository.go:40-45 | succeeds iff the hotel is stored and the preloaded name is an association of Hotel; record-not-found for a missing row first, otherwise unsupported-relations for an unknown name |
| `HotelRepository.AsWrittenNeverFinds` | internal/repository/hotel_repository.go:42 | with the preload "Rooms" the lookup fails for every id, and for a stored hotel with unsupported-relations |
| `HotelRepository.IntendedFindsStored` | internal/domain/hotel.go:17 | with the association's own name "Room" the lookup succeeds exactly for stored hotels |
| `RoomService.CreateRoomWith` | internal/service/room_service.go:31-49 | hotel-not-found iff the hotel lookup with the given preload fails, with no state change; any error leaves the state unchanged |
| `RoomService.CreateRoomAsWritten` | internal/service/room_service.go:32-34 | as written, every call is answered hotel-not-found and nothing is stored |
| `RoomService.CreateRoomStep` | internal/service/room_service.go:31-49 | with the intended lookup: hotel-not-found iff the hotel is missing, else the first field error, both with no state change; on success exactly one new room, under a fresh id, with price > 0, availability >= 0, and a zero availability stored as 1 |
| `RoomService.CreateRoomAsWrittenRefusesStoredHotel` | internal/service/room_service.go:32-48 | for a stored hotel and a well-formed room, the as-written call refuses what the intended one stores |
| `RoomService.UpdateRoomStep` | internal/service/room_service.go:51-72 | room-not-found iff the room is missing, else the first field error, both with no state change; on success the row is replaced with the stored hotel id kept |
| `RoomService.RoomWritesPreserveInvariants` | internal/service/room_service.go:36-42 | room writes keep `Valid` and availability >= 0 and leave bookings unchanged |
| `RoomService.CreateRoom` | internal/service/room_service.go:31-49 | from a `Valid` database, ends in exactly the state and result of `CreateRoomStep`, and the database is `Valid` again |
| `RoomService.UpdateRoom` | internal/service/room_service.go:51-72 | from a `Valid` database, ends in exactly the state and result of `UpdateRoomStep`, and the database is `Valid` again |
| `RoomService.GetRoomsByHotelWith` | internal/service/room_service.go:74-80 | hotel-not-found iff the hotel lookup with the given preload fails |
| `RoomService.GetRoomsByHotelAsWritten` | internal/service/room_service.go:75-77 | as written, hotel-not-found for every hotel |
| `RoomService.GetRoomsByHotel` | internal/service/room_service.go:74-80 | with the intended lookup: an error iff the hotel does not exist, otherwise exactly that hotel's rooms |
| `RoomService.GetRoomsByHotelAsWrittenRefusesStoredHotel` | internal/service/room_service.go:75-79 | for a stored hotel the as-written call answers hotel-not-found where the intended one lists the rooms |
| `RoomService.GetRoomByID` | internal/service/room_service.go:82-89 | the stored room, or room-not-found exactly when there is none |
| `RoomService.AvailableOnly` | internal/service/room_service.go:97-102 | keeps exactly the rooms with availability > 0 |
| `RoomService.SearchAvailableRooms` | internal/service/room_service.go:91-105 | the hotel's rooms with availability > 0, in their order; the dates are ignored |
| `RoomService.CheckAvailability` | internal/service/room_service.go:107-118 | room-not-found iff the room is missing, otherwise true iff availability > 0 |
| `RoomService.SearchAgreesWithCheck` | internal/service/room_service.go:91-118 | a room is in the search result iff it is the hotel's and `CheckAvailability` answers true |
| `Auth.SplitOnSpace` | internal/middleware/auth.go:22 | n spaces give n + 1 pieces, none holding a space |
| `Auth.JoinSplit` | internal/middleware/auth.go:22 | joining the pieces with spaces gives the header back |
| `Auth.BearerSplit` | internal/middleware/auth.go:22-23 | exactly the two pieces "Bearer" and a token iff the header is "Bearer " and a token without spaces |
| `Auth.AuthMiddleware` | internal/middleware/auth.go:12-42 | an empty header is answered with "Missing authorization header" |
| `Auth.AuthMiddlewareSpec` | internal/middleware/auth.go:15-39 | 401 missing header, 401 invalid format, 401 invalid token, or next with the claims; the parser gets exactly the text after the space; next runs iff the header is well formed and the token parses |
| `Auth.LowerCaseSchemeRejected` | internal/middleware/auth.go:23 | "bearer abc" is an invalid format: the scheme is case-sensitive |
| `Auth.SecondSpaceRejected` | internal/middleware/auth.go:22-23 | "Bearer a b" is an invalid format |
| `Auth.EmptyTokenParsed` | internal/middleware/auth.go:22-29 | "Bearer " hands the empty token to the parser |
| `Auth.AdminOnly` | internal/middleware/auth.go:44-56 | next iff the role is "ADMIN", otherwise 403 "Admin access required" |
| `Auth.AdminRouteSpec` | internal/middleware/auth.go:12-56 | the two middlewares together let a request through iff it has a well-formed Bearer header whose token parses to role "ADMIN" |
| `Reservation.ApplyPreserves` | internal/service/booking_service.go:35-104 | every call keeps `Valid` and availability >= 0; every call but a SUCCESS payment callback keeps no-overlap |
| `Reservation.RunKeepsAvailabilityNonNegative` | internal/service/booking_service.go:45-69 | no sequence of calls makes any availability negative |
| `Reservation.RunWithoutSuccessCallbacksKeepsNoOverlap` | internal/service/booking_service.go:36-39 | without SUCCESS payment callbacks, no sequence of calls puts two overlapping active bookings on one room |
| `Reservation.CancelKeepsUnit` | internal/service/booking_service.go:102-103 | a stored room with one unit, price 100: a 48-hour booking costs 200 and takes the unit, an overlapping request is refused, and after the cancel the same dates are refused as sold out |
| `Reservation.RebookedConsistent` | internal/service/booking_service.go:35-104 | a stored room with two units, a booking made and cancelled, and a second booking on the same dates: the database is consistent, no availability is negative and no active bookings overlap |
| `Reservation.SuccessCallbackCanDoubleBook` | internal/service/payment_service.go:38-41 | from that rebooked database, a SUCCESS callback for the cancelled booking leaves two overlapping active bookings on one room |

## Left out

- Concurrency and transactions: the calls are modelled one after another. The check-then-write
  race on availability is a property of parallel requests. The `DB.Transaction` in CreateBooking
  does not scope the repository writes, so the writes are modelled as done in order.
- Store failures: writes are infallible. The error that CreateBooking discards from
  FindActiveByRoom is not modelled, and neither is the ignored error of the availability write
  in the callback.
- PaymentService.CallbackEffect does not model the one write failure that an input alone causes.
  The `transaction_id` column is `varchar(100)`. A longer id from the webhook makes the payment
  save fail after the availability write. The source then returns that error with the unit given
  back and the booking still PENDING. The model saves every transaction id.
- Floating point: prices and amounts are integers in minor units. Durations are integer hours;
  for whole hours up to the duration's bound the float division by 24 truncates to the same
  whole number as integer division, and `Nights` models the bound.
- CallbackEffect: the unit given back is `availability + 1` on unbounded integers; the source's
  64-bit `int` wraps to -2^63 when the availability is already 2^63-1.
- CallbackPreservesInvariants: availability >= 0 is kept only because the model does not wrap;
  in the source a failure callback on a room holding 2^63-1 units makes the count negative.
- RepeatedFailureIncrementsAgain: the +2 holds in the source only while availability + 2 <= 2^63-1.
- ApplyPreserves: its availability >= 0 clause assumes unbounded counters, so it does not cover
  the callback's wrap at 2^63-1.
- RunKeepsAvailabilityNonNegative: holds for the source only while no room's availability reaches
  2^63-1. A room holding 2^63-1 units, one booking and two failure callbacks end negative in
  the source.
- CreateSucceeds: the price `Nights(...) * pricePerNight` is exact integer arithmetic; the source
  multiplies float64 values, which round once the product passes 2^53.
- Time formatting: the dates are passed to the overlap query as RFC 3339 text and compared by
  the database as timestamps. Here they are integer hours.
- UUIDs are naturals. The parse that turns an invalid id string into the nil UUID is not
  modelled: user and room ids arrive already parsed.
- `BookingRepository.FindActiveByRoom`: returns the ids of the matching rows rather than the rows.
  The service only tests the result for emptiness.
- `RoomRepository.FindByHotel`: the query has no ORDER BY; the model lists rooms in increasing id
  (creation) order. `BookingRepository.FindByUser` breaks ties in creation time by id.
- Preloaded associations (Room, Hotel, User, Payment) and the saving of associations are not
  modelled; neither are `updated_at` and the payment method column, which the core never sets.
- Generated ids: `Store.Valid` (every id below `nextId`) is the precondition and the
  postcondition of all five state-changing service methods. It stands for the database's fresh
  UUIDs. CreateRoom ignores the id of its input because the
  handler leaves it unset.
- The JWT parser is an opaque parameter of `Auth.AuthMiddleware`. The auth service, the
  validator wrappers and the token library are not part of this model.
- Hotels: their create, update and delete run through another service. The hotels table is a
  set of ids that the room service only looks up.
- RoomService.CreateRoomStep, RoomService.CreateRoom and RoomService.GetRoomsByHotel model the
  hotel lookup with the association's own name. As written, the lookup fails for every hotel, so
  in the source these calls never get past it: `CreateRoomAsWritten` and
  `GetRoomsByHotelAsWritten` state that behaviour. The scenarios in `Reservation` therefore
  start from a stored room row, not from CreateRoom.
- HotelRepository.FindByID: the failure of a preload whose name is not an association follows
  GORM's rule that the preload is resolved against the record's fields after the row is read.
  GORM itself is not part of this model.

## Findings

| source | as written | input that shows it | evidently intended | confidence | as-written member | corrected member |
|---|---|---|---|---|---|---|
| internal/repository/hotel_repository.go:42 | the lookup preloads "Rooms", but Hotel's association field is `Room` (internal/domain/hotel.go:17), so CreateRoom answers "hotel not found" for every hotel | a stored hotel h and CreateRoom(hotel h, price 100, availability 1, type "STD") | the room is stored under a fresh id | not executed; follows from GORM's preload rule | `RoomService.CreateRoomAsWritten` (with `RoomService.CreateRoomAsWrittenRefusesStoredHotel`) | `RoomService.CreateRoomStep` |
| internal/service/room_service.go:75 | the same lookup makes GetRoomsByHotel answer "hotel not found" for every hotel | a stored hotel h and GetRoomsByHotel(h) | the hotel's rooms | not executed; follows from GORM's preload rule | `RoomService.GetRoomsByHotelAsWritten` (with `RoomService.GetRoomsByHotelAsWrittenRefusesStoredHotel`) | `RoomService.GetRoomsByHotel` |
- Handlers, router, response helpers, DTO mappers, configuration, database and logger start-up
  are transport and wiring, and are not part of this model.
